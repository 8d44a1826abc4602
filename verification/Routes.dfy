/** The routing table as a function of the server list and the adverts, from the lines to the answer. */
module Routes {
  import opened Options
  import opened Searches
  import opened Topologies
  import opened Seqs
  import RoundRobin

  ghost function ServSet(t: Topo): set<Name> {
    set n | n in t.servs
  }

  /** What `shortest_path` finds for client `c`. */
  ghost function ServerFor(t: Topo, c: Name): Option<Name> {
    Nearest(Adjacency(t), ServSet(t), c)
  }

  /** Every client has a server it can reach; otherwise start-up stops at an assertion. */
  ghost predicate AllServed(t: Topo) {
    forall c :: c in t.clits ==> ServerFor(t, c).Some?
  }

  /** What `route` answers a client that asks from address `c`, once the table is built. */
  ghost function Routed(t: Topo, c: Name): Option<Name> {
    if c in t.clits then ServerFor(t, c) else None
  }

  /** Whoever sent an advert and is neither server nor router gets the nearest server, by hops along
    * the newest adverts; nobody else gets an answer.
    */
  lemma RoutedToNearest(names: seq<Name>, adverts: seq<Advert>, c: Name)
    requires AllServed(Load(names, adverts))
    ensures var t := Load(names, adverts);
            if Announced(adverts, c) && c !in names && !IsRouter(c)
            then
              && Routed(t, c).Some? && Routed(t, c).value in names
              && IsNearest(Adjacency(t), ServSet(t), c, Routed(t, c).value)
            else Routed(t, c) == None
  {
    var t := Load(names, adverts);
    LoadedIsNewest(names, adverts, c);
    if c in t.clits {
      NearestIsCorrect(Adjacency(t), ServSet(t), c);
    }
  }

  /** Start-up succeeds exactly when every client reaches some server. */
  lemma ServedExactlyWhenReachable(names: seq<Name>, adverts: seq<Advert>)
    ensures var t := Load(names, adverts);
            AllServed(t) <==> forall c :: c in t.clits ==> exists s :: s in names && Reachable(Adjacency(t), c, s)
  {
    var t := Load(names, adverts);
    forall c | c in t.clits
      ensures ServerFor(t, c).Some? <==> exists s :: s in names && Reachable(Adjacency(t), c, s)
    {
      NearestIsCorrect(Adjacency(t), ServSet(t), c);
    }
  }

  /** Permuting or repeating adverts changes neither whether start-up succeeds nor any answer, not even
    * which of several equally near servers is chosen.
    */
  lemma AnswersIndependentOfOrder(names: seq<Name>, xs: seq<Advert>, ys: seq<Advert>, c: Name)
    requires SameLines(xs, ys) && TopTiesAgree(xs)
    ensures AllServed(Load(names, xs)) <==> AllServed(Load(names, ys))
    ensures Routed(Load(names, xs), c) == Routed(Load(names, ys), c)
  {
    OrderDoesNotMatter(names, xs, ys);
  }

  /** A client that has servers for neighbours is sent to the one its advert mentions first. */
  lemma FirstMentionedNeighbor(names: seq<Name>, adverts: seq<Advert>, c: Name, k: nat)
    requires var t := Load(names, adverts);
             && c in t.clits && k < |Nbrs(Adjacency(t), c)| && Nbrs(Adjacency(t), c)[k] in names
             && forall i :: 0 <= i < k ==> Nbrs(Adjacency(t), c)[i] !in names
    ensures Routed(Load(names, adverts), c) == Some(Nbrs(Adjacency(Load(names, adverts)), c)[k])
  {
    var t := Load(names, adverts);
    FirstServerListed(Adjacency(t), ServSet(t), c, k);
  }

  // ---- round robin ----

  /** The server whose turn it is after `n` queries.  The length of the list is a 32-bit number, and there is
    * no answer when that is 0.
    */
  ghost function InTurn(order: seq<Name>, n: nat): Option<Name> {
    var size := |order| % RoundRobin.WRAP;
    if size == 0 then None else Some(order[RoundRobin.Turn(size, n)])
  }

  /** In round-robin mode the nodes are the servers of the list, each once, in order of first mention. */
  lemma {:induction false} ServersInTurn(names: seq<Name>)
    ensures LoadServers(names).order == Dedup(names)
  {
    if names != [] {
      ServersInTurn(names[..|names| - 1]);
      DedupMeaning(names[..|names| - 1]);
    }
  }

  /** With `k` different servers in the list, any `k` consecutive answers name all of them, unless the
    * counter wraps among them and `k` does not divide 2^32, or `k` itself is too large for 32 bits; then two
    * of the answers are the same.
    */
  lemma ConsecutiveAnswersDiffer(names: seq<Name>, c: nat)
    requires names != []
    ensures var order, k := LoadServers(names).order, |Dedup(names)|;
            && |order| == k > 0
            && ((forall i, j :: c <= i < j < c + k ==> InTurn(order, i) != InTurn(order, j))
                <==> k < RoundRobin.WRAP && (RoundRobin.Counter(c) + k <= RoundRobin.WRAP || RoundRobin.WRAP % k == 0))
  {
    ServersInTurn(names);
    DedupMeaning(names);
    assert names[0] in Dedup(names);
    var order := Dedup(names);
    if |order| < RoundRobin.WRAP {
      RoundRobin.ConsecutiveQueriesDiffer(|order|, c);
      InTurnIsTurn(order);
    } else {
      RepeatWhenTooMany(order, c);
    }
  }

  /** The servers answer in the order of their first mention, over and over; after 2^32 queries from the start. */
  lemma InTurnMeaning(order: seq<Name>, n: nat)
    requires 0 < |order| < 0x1_0000_0000
    ensures n < 0x1_0000_0000 ==> InTurn(order, n) == Some(order[n % |order|])
    ensures InTurn(order, n + 0x1_0000_0000) == InTurn(order, n)
  {
    RoundRobin.DivModUnique(|order|, RoundRobin.WRAP, 0, |order|);
    RoundRobin.TurnMeaning(|order|, n);
  }

  lemma InTurnIsTurn(order: seq<Name>)
    requires 0 < |order| < RoundRobin.WRAP && Distinct(order)
    ensures forall n: nat :: InTurn(order, n) == Some(order[RoundRobin.Turn(|order|, n)])
    ensures forall m: nat, n: nat :: InTurn(order, m) == InTurn(order, n) <==>
            RoundRobin.Turn(|order|, m) == RoundRobin.Turn(|order|, n)
  {
    RoundRobin.DivModUnique(|order|, RoundRobin.WRAP, 0, |order|);
  }

  lemma RepeatWhenTooMany(order: seq<Name>, c: nat)
    requires |order| >= RoundRobin.WRAP
    ensures exists i, j :: c <= i < j < c + |order| && InTurn(order, i) == InTurn(order, j)
  {
    if |order| == RoundRobin.WRAP {
      assert InTurn(order, c) == InTurn(order, c + 1);
    } else {
      RoundRobin.CounterWrapped(c, RoundRobin.WRAP);
      assert InTurn(order, c) == InTurn(order, c + RoundRobin.WRAP);
    }
  }
}
