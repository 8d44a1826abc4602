/** One request at the name server, from the received bytes to the bytes sent back: `serve` of
  * src/nameserver.c, over the routing state and the message buffers.
  */
module NameServer {
  import opened Options
  import opened Searches
  import opened Topologies
  import opened Seqs
  import opened Routes
  import opened Ospf
  import opened DnsNames
  import opened DnsMessages
  import opened DnsBuffers
  import RoundRobin

  /** An IPv4 address in network order; `aton` below stands for `inet_pton`. */
  type Address = b: seq<Byte> | |b| == 4 witness [0, 0, 0, 0]

  /** The server that a query from client `c` is sent to; `n` queries were answered by round robin before. */
  ghost function Chosen(t: Topo, rr: bool, n: nat, c: Name): Option<Name> {
    if rr then InTurn(t.order, n) else Routed(t, c)
  }

  /** Whether an answer uses up a turn: by round robin, if there is a server to name. */
  ghost predicate TakesTurn(t: Topo, rr: bool) {
    rr && |t.order| % RoundRobin.WRAP != 0
  }

  /** The message sent back, or None where the source follows a null pointer (a known host was asked for by a
    * client that the table does not list) or divides by zero (there are no servers).
    */
  ghost function Response(b: seq<Byte>, reference: seq<Byte>, chosen: Option<Name>, aton: Name -> Address,
                          rcode: Nibble): Option<seq<Byte>>
    requires Complete(b) && 2 <= |reference| <= |b|
  {
    if Accepts(b, reference) && chosen == None then None
    else Some(Served(b, reference, if chosen.Some? then aton(chosen.value) else [], rcode))
  }

  /** The response branch of `serve`. */
  method Answer(state: LinkState, rr: bool, from: Name, aton: Name -> Address, reqBuf: array<Byte>, resBuf: array<Byte>)
    returns (sent: Option<seq<Byte>>)
    requires state.Valid()
    requires rr || state.TableBuilt()
    requires reqBuf != resBuf && Complete(reqBuf[..]) && 2 * BufLen(reqBuf[..]) <= resBuf.Length
    modifies state`queryCount, state`queries, resBuf
    ensures state.Valid() && state.queries == old(state.queries) + if rr && sent.Some? then 1 else 0
    ensures sent == match Chosen(state.topo, rr, old(state.queries), from)
                    case None => None
                    case Some(s) => Some(Reply(reqBuf[..], aton(s)))
  {
    var server := state.Route(from, rr);
    match server {
      case None =>
        sent := None;
      case Some(s) =>
        var pktLen := GenRes(reqBuf, resBuf, aton(s));
        sent := Some(resBuf[..pktLen]);
    }
  }

  /** The error branch. */
  method Refuse(reqBuf: array<Byte>, rcode: Nibble) returns (sent: Option<seq<Byte>>)
    requires Complete(reqBuf[..])
    modifies reqBuf
    ensures sent == Some(ErrorReply(old(reqBuf[..]), rcode))
  {
    var pktLen := GenErr(reqBuf, rcode);
    sent := Some(reqBuf[..pktLen]);
  }

  /** `serve`: a query that does not match the reference packet gets an error and uses up no turn. */
  method Serve(state: LinkState, rr: bool, from: Name, aton: Name -> Address, refPkt: array<Byte>, refLen: nat,
               reqBuf: array<Byte>, resBuf: array<Byte>, rcode: Nibble) returns (sent: Option<seq<Byte>>)
    requires state.Valid()
    requires rr || state.TableBuilt()
    requires reqBuf != resBuf && refPkt != reqBuf && refPkt != resBuf
    requires Complete(reqBuf[..]) && 2 * BufLen(reqBuf[..]) <= resBuf.Length
    requires 2 <= refLen <= refPkt.Length && refLen <= reqBuf.Length
    modifies state`queryCount, state`queries, reqBuf, resBuf
    ensures state.Valid()
    ensures state.queries == old(state.queries) + if TakesTurn(state.topo, rr) &&
            Accepts(old(reqBuf[..]), refPkt[..refLen]) then 1 else 0
    ensures sent ==
            Response(old(reqBuf[..]), refPkt[..refLen], Chosen(state.topo, rr, old(state.queries), from), aton, rcode)
  {
    var ret := Parse(reqBuf, refPkt, refLen);
    if ret == -1 {
      sent := Refuse(reqBuf, rcode);
    } else {
      sent := Answer(state, rr, from, aton, reqBuf, resBuf);
    }
  }

  // ---- a run of requests ----

  /** A request and whom it comes from; `bytes` is the whole receive buffer. */
  datatype Datagram = Datagram(from: Name, bytes: seq<Byte>)

  ghost predicate WellFormed(d: Datagram, reference: seq<Byte>) {
    Complete(d.bytes) && 2 <= |reference| <= |d.bytes|
  }

  ghost predicate AllWellFormed(ds: seq<Datagram>, reference: seq<Byte>) {
    forall i :: 0 <= i < |ds| ==> WellFormed(ds[i], reference)
  }

  /** Which requests are accepted. */
  ghost function Verdicts(ds: seq<Datagram>, reference: seq<Byte>): seq<bool>
    requires AllWellFormed(ds, reference)
  {
    seq(|ds|, i requires 0 <= i < |ds| => Accepts(ds[i].bytes, reference))
  }

  /** The `i`th request's server, if `q` queries were answered before the run. */
  ghost function ChosenInRun(t: Topo, rr: bool, q: nat, ds: seq<Datagram>, accepted: seq<bool>, i: nat): Option<Name>
    requires i < |ds| == |accepted|
  {
    Chosen(t, rr, q + RoundRobin.Taken(accepted, i), ds[i].from)
  }

  /** What a run sends back: to each request the response for the server whose turn it is. */
  ghost function RunSent(t: Topo, rr: bool, q: nat, ds: seq<Datagram>, reference: seq<Byte>, aton: Name -> Address,
                         rcode: Nibble):
    (sent: seq<Option<seq<Byte>>>)
    requires AllWellFormed(ds, reference)
    ensures |sent| == |ds|
  {
    seq(|ds|, i requires 0 <= i < |ds| =>
      Response(ds[i].bytes, reference, ChosenInRun(t, rr, q, ds, Verdicts(ds, reference), i), aton, rcode))
  }

  /** Queries answered by round robin before the `i`th request of a run. */
  ghost function QueriesBefore(t: Topo, rr: bool, q: nat, ds: seq<Datagram>, reference: seq<Byte>, i: nat): nat
    requires AllWellFormed(ds, reference) && i <= |ds|
  {
    q + if TakesTurn(t, rr) then RoundRobin.Taken(Verdicts(ds, reference), i) else 0
  }

  lemma OnlyTurnsMatter(t: Topo, rr: bool, m: nat, n: nat, c: Name)
    requires TakesTurn(t, rr) ==> m == n
    ensures Chosen(t, rr, m, c) == Chosen(t, rr, n, c)
  {
  }

  lemma PrefixGrows<A>(sent: seq<A>, answer: A, expected: seq<A>)
    requires |sent| < |expected| && sent == expected[..|sent|] && answer == expected[|sent|]
    ensures sent + [answer] == expected[..|sent| + 1]
  {
  }

  /** One request of the run. */
  lemma RunStep(t: Topo, rr: bool, q: nat, ds: seq<Datagram>, reference: seq<Byte>, aton: Name -> Address,
                rcode: Nibble, i: nat)
    requires AllWellFormed(ds, reference) && i < |ds|
    ensures RunSent(t, rr, q, ds, reference, aton, rcode)[i]
         == Response(ds[i].bytes, reference,
                     Chosen(t, rr, QueriesBefore(t, rr, q, ds, reference, i), ds[i].from), aton, rcode)
    ensures QueriesBefore(t, rr, q, ds, reference, i + 1)
         == QueriesBefore(t, rr, q, ds, reference, i)
            + if TakesTurn(t, rr) && Accepts(ds[i].bytes, reference) then 1 else 0
  {
    OnlyTurnsMatter(t, rr, QueriesBefore(t, rr, q, ds, reference, i), q +
      RoundRobin.Taken(Verdicts(ds, reference), i), ds[i].from);
  }

  /** The main loop of the server over the requests `ds`. */
  method ServeAll(state: LinkState, rr: bool, ds: seq<Datagram>, aton: Name -> Address, refPkt: array<Byte>,
                  refLen: nat, rcode: Nibble)
    returns (sent: seq<Option<seq<Byte>>>)
    requires state.Valid() && (rr || state.TableBuilt())
    requires 2 <= refLen <= refPkt.Length && AllWellFormed(ds, refPkt[..refLen])
    modifies state`queryCount, state`queries
    ensures state.Valid()
    ensures sent == RunSent(state.topo, rr, old(state.queries), ds, refPkt[..refLen], aton, rcode)
    ensures state.queries == QueriesBefore(state.topo, rr, old(state.queries), ds, refPkt[..refLen], |ds|)
  {
    ghost var reference, q, t := refPkt[..refLen], state.queries, state.topo;
    ghost var expected := RunSent(t, rr, q, ds, reference, aton, rcode);
    sent := [];
    for i := 0 to |ds|
      invariant state.Valid() && |sent| == i
      invariant state.queries == QueriesBefore(t, rr, q, ds, reference, i)
      invariant sent == expected[..i]
    {
      var answer := ServeOne(state, rr, ds[i], aton, refPkt, refLen, rcode);
      RunStep(t, rr, q, ds, reference, aton, rcode, i);
      PrefixGrows(sent, answer, expected);
      sent := sent + [answer];
    }
  }

  /** `serve` with its buffers: the one that the request is received into, and one for the answer. */
  method ServeOne(state: LinkState, rr: bool, d: Datagram, aton: Name -> Address, refPkt: array<Byte>, refLen: nat,
                  rcode: Nibble)
    returns (sent: Option<seq<Byte>>)
    requires state.Valid() && (rr || state.TableBuilt())
    requires 2 <= refLen <= refPkt.Length && WellFormed(d, refPkt[..refLen])
    modifies state`queryCount, state`queries
    ensures state.Valid()
    ensures state.queries == old(state.queries) + if TakesTurn(state.topo, rr) &&
            Accepts(d.bytes, refPkt[..refLen]) then 1 else 0
    ensures sent == Response(d.bytes, refPkt[..refLen], Chosen(state.topo, rr, old(state.queries), d.from), aton, rcode)
  {
    var reqBuf := new Byte[|d.bytes|](i requires 0 <= i < |d.bytes| => d.bytes[i]);
    var resBuf := new Byte[2 * |d.bytes|];
    assert reqBuf[..] == d.bytes;
    sent := Serve(state, rr, d.from, aton, refPkt, refLen, reqBuf, resBuf, rcode);
  }

  /** No two accepted requests of the run are sent to the same server. */
  ghost predicate AllToDifferent(t: Topo, q: nat, ds: seq<Datagram>, accepted: seq<bool>)
    requires |accepted| == |ds|
  {
    forall i, j :: 0 <= i < j < |ds| && accepted[i] && accepted[j] ==>
      ChosenInRun(t, true, q, ds, accepted, i) != ChosenInRun(t, true, q, ds, accepted, j)
  }

  function TurnInRun(k: nat, q: nat, accepted: seq<bool>, i: nat): nat
    requires k > 0 && i <= |accepted|
  {
    RoundRobin.Turn(k, q + RoundRobin.Taken(accepted, i))
  }

  lemma SameServerSameTurn(t: Topo, q: nat, ds: seq<Datagram>, accepted: seq<bool>, i: nat, j: nat)
    requires |accepted| == |ds| && i < |ds| && j < |ds| && 0 < |t.order| < RoundRobin.WRAP && Distinct(t.order)
    ensures ChosenInRun(t, true, q, ds, accepted, i) == ChosenInRun(t, true, q, ds, accepted, j)
       <==> TurnInRun(|t.order|, q, accepted, i) == TurnInRun(|t.order|, q, accepted, j)
  {
    var x, y := q + RoundRobin.Taken(accepted, i), q + RoundRobin.Taken(accepted, j);
    InTurnIsTurn(t.order);
    assert InTurn(t.order, x) == InTurn(t.order, y) <==> RoundRobin.Turn(|t.order|, x) == RoundRobin.Turn(|t.order|, y);
  }

  lemma DifferentServersDifferentTurns(t: Topo, q: nat, ds: seq<Datagram>, accepted: seq<bool>)
    requires |accepted| == |ds| && 0 < |t.order| < RoundRobin.WRAP && Distinct(t.order)
    ensures AllToDifferent(t, q, ds, accepted) <==> RoundRobin.TurnsDiffer(|t.order|, q, accepted)
  {
    forall i, j | 0 <= i < j < |ds|
      ensures ChosenInRun(t, true, q, ds, accepted, i) == ChosenInRun(t, true, q, ds, accepted, j)
         <==> TurnInRun(|t.order|, q, accepted, i) == TurnInRun(|t.order|, q, accepted, j)
    {
      SameServerSameTurn(t, q, ds, accepted, i, j);
    }
  }

  /** Whatever requests are rejected in between: `k` accepted ones are sent to the `k` different servers of the
    * list, under the same condition as `k` queries in a row.
    */
  lemma RunNamesAllServers(names: seq<Name>, q: nat, ds: seq<Datagram>, accepted: seq<bool>)
    requires |accepted| == |ds| && 0 < |Dedup(names)| < RoundRobin.WRAP
    requires RoundRobin.Taken(accepted, |ds|) == |Dedup(names)|
    ensures AllToDifferent(LoadServers(names), q, ds, accepted)
       <==> RoundRobin.Counter(q) + |Dedup(names)| <= RoundRobin.WRAP || RoundRobin.WRAP % |Dedup(names)| == 0
  {
    ServersInTurn(names);
    DedupMeaning(names);
    DifferentServersDifferentTurns(LoadServers(names), q, ds, accepted);
    RoundRobin.AnsweredQueriesDiffer(|Dedup(names)|, q, accepted);
  }

  /** How many of the first `n` requests of a run, the server's first ones, are sent to the server called `name`. */
  ghost function LoadOf(t: Topo, ds: seq<Datagram>, accepted: seq<bool>, n: nat, name: Name): nat
    requires n <= |ds| == |accepted|
  {
    if n == 0 then 0
    else
      var sent := accepted[n - 1] && ChosenInRun(t, true, 0, ds, accepted, n - 1) == Some(name);
      LoadOf(t, ds, accepted, n - 1, name) + if sent then 1 else 0
  }

  lemma {:induction false} LoadIsShare(t: Topo, ds: seq<Datagram>, accepted: seq<bool>, n: nat, s: nat)
    requires n <= |ds| == |accepted| && 0 < |t.order| < RoundRobin.WRAP && Distinct(t.order) && s < |t.order|
    ensures LoadOf(t, ds, accepted, n, t.order[s]) == RoundRobin.ShareOfRun(|t.order|, accepted, n, s)
  {
    if n > 0 {
      LoadIsShare(t, ds, accepted, n - 1, s);
      InTurnIsTurn(t.order);
      assert InTurn(t.order, RoundRobin.Taken(accepted, n - 1)) == ChosenInRun(t, true, 0, ds, accepted, n - 1);
    }
  }

  ghost predicate LoadsFair(t: Topo, ds: seq<Datagram>, accepted: seq<bool>, n: nat)
    requires n <= |ds| == |accepted|
  {
    forall a, b :: a in t.order && b in t.order ==> LoadOf(t, ds, accepted, n, a) <= LoadOf(t, ds, accepted, n, b) + 1
  }

  lemma LoadsFairIsRunFair(t: Topo, ds: seq<Datagram>, accepted: seq<bool>, n: nat)
    requires n <= |ds| == |accepted| && 0 < |t.order| < RoundRobin.WRAP && Distinct(t.order)
    ensures LoadsFair(t, ds, accepted, n) <==> RoundRobin.RunFair(|t.order|, accepted, n)
  {
    forall s | 0 <= s < |t.order|
      ensures LoadOf(t, ds, accepted, n, t.order[s]) == RoundRobin.ShareOfRun(|t.order|, accepted, n, s)
    {
      LoadIsShare(t, ds, accepted, n, s);
    }
  }

  /** After exactly which requests, accepted and rejected ones, the servers' loads are within one of each other. */
  lemma LoadsFairExactly(names: seq<Name>, ds: seq<Datagram>, accepted: seq<bool>, n: nat)
    requires n <= |ds| == |accepted| && 0 < |Dedup(names)| < RoundRobin.WRAP
    ensures LoadsFair(LoadServers(names), ds, accepted, n)
       <==> RoundRobin.ComesOutEven(|Dedup(names)|, RoundRobin.Taken(accepted, n))
  {
    ServersInTurn(names);
    DedupMeaning(names);
    LoadsFairIsRunFair(LoadServers(names), ds, accepted, n);
    RoundRobin.RunFairExactly(|Dedup(names)|, accepted, n);
  }

  // ---- from the files to the client ----

  /** What the client makes of the response. */
  ghost predicate Resolves(id: U16, host: seq<Byte>, junk1: seq<Byte>, sent: Option<seq<Byte>>, junk3: seq<Byte>,
                           result: Option<seq<Byte>>) {
    var q := Query(id, host);
    && Complete(q + junk1)
    && sent.Some? && AddressAt(q + junk1, |q|) + 4 <= |sent.value + junk3|
    && ParseRes(q + junk1, sent.value + junk3, |q|) == result
  }

  lemma ResolvesChosen(id: U16, host: seq<Byte>, refId: U16, refHost: seq<Byte>, chosen: Option<Name>,
                       aton: Name -> Address,
                       rcode: Nibble, junk1: seq<Byte>, junk2: seq<Byte>, junk3: seq<Byte>)
    requires 0 !in host && GoodName(refHost) && |refHost| < 255 && chosen.Some?
    requires |Query(refId, refHost)| <= |Query(id, host) + junk2|
    requires 2 * |Query(id, host)| <= |junk3|
    ensures Complete(Query(id, host) + junk2)
    ensures Resolves(id, host, junk1, Response(Query(id, host) + junk2, Query(refId, refHost), chosen, aton, rcode),
            junk3,
                     if Cut(Labels(host)) == Labels(refHost) then Some(aton(chosen.value)) else None)
  {
    ResolveExactly(id, host, refId, refHost, aton(chosen.value), rcode, junk1, junk2, junk3);
  }

  /** From the files to the address: once start-up succeeds, a client that resolves a host gets the address
    * of a server than which none is nearer if the host is the reference host, up to what `AcceptsExactly`
    * says of odd names, and an error otherwise.
    */
  lemma ResolvesToNearest(names: seq<Name>, adverts: seq<Advert>, c: Name, n: nat, aton: Name -> Address, id: U16,
                          refId: U16, host: seq<Byte>,
                          rcode: Nibble, junk1: seq<Byte>, junk2: seq<Byte>, junk3: seq<Byte>)
    requires AllServed(Load(names, adverts)) && Announced(adverts, c) && c !in names && !IsRouter(c)
    requires 0 !in host && |Query(refId, REF_HOST)| <= |Query(id, host) + junk2| && 2 * |Query(id, host)| <= |junk3|
    ensures Complete(Query(id, host) + junk2)
    ensures var t := Load(names, adverts);
            var chosen := Chosen(t, false, n, c);
            && chosen.Some? && IsNearest(Adjacency(t), ServSet(t), c, chosen.value)
            && Resolves(id, host, junk1,
                        Response(Query(id, host) + junk2, Query(refId, REF_HOST), chosen, aton, rcode), junk3,
                        if Cut(Labels(host)) == Labels(REF_HOST) then Some(aton(chosen.value)) else None)
  {
    RoutedToNearest(names, adverts, c);
    ReferenceHostIsGood();
    ResolvesChosen(id, host, refId, REF_HOST, Chosen(Load(names, adverts), false, n, c), aton, rcode, junk1, junk2,
      junk3);
  }

  /** In round-robin mode the client that makes the `n`th accepted query, counted from 0, gets the address of
    * the server whose turn it is: they answer in the order of their first mention in the list, over and over.
    */
  lemma ResolvesInTurn(names: seq<Name>, c: Name, n: nat, aton: Name -> Address, id: U16, refId: U16, host: seq<Byte>,
                       rcode: Nibble, junk1: seq<Byte>, junk2: seq<Byte>, junk3: seq<Byte>)
    requires 0 < |Dedup(names)| < 0x1_0000_0000 && n < 0x1_0000_0000
    requires 0 !in host && |Query(refId, REF_HOST)| <= |Query(id, host) + junk2| && 2 * |Query(id, host)| <= |junk3|
    ensures Complete(Query(id, host) + junk2)
    ensures var servers, chosen := Dedup(names), Chosen(LoadServers(names), true, n, c);
            && chosen == Some(servers[n % |servers|])
            && Resolves(id, host, junk1,
                        Response(Query(id, host) + junk2, Query(refId, REF_HOST), chosen, aton, rcode), junk3,
                        if Cut(Labels(host)) == Labels(REF_HOST) then Some(aton(servers[n % |servers|])) else None)
  {
    ServersInTurn(names);
    InTurnMeaning(Dedup(names), n);
    ReferenceHostIsGood();
    ResolvesChosen(id, host, refId, REF_HOST, Some(Dedup(names)[n % |Dedup(names)|]), aton, rcode, junk1, junk2, junk3);
  }
}
