/** What the name server knows after reading its server list and the link-state adverts, by name.
  *
  * These functions take the steps of `parse_servs`, `parse_LSA`, `add_new_node` and
  * `add_new_neighbor` in src/ospf.c one line at a time; the methods in Ospf.dfy are proved to
  * compute them.  The lemmas say what the outcome is in terms of the lines alone.
  */
module Topologies {
  import opened Searches
  import opened Seqs

  /** One advert line: a node, its sequence number, and the comma-separated names after it. */
  datatype Advert = Advert(name: Name, seqNum: int, neighbors: seq<Name>)

  /** What is recorded of a node: the number of its newest advert and the neighbours that one gave. */
  datatype NodeInfo = NodeInfo(seqNum: int, neighbors: seq<Name>)

  /** `order` is the list of nodes, `servs` and `clits` the lists of servers and clients. */
  datatype Topo = Topo(order: seq<Name>, info: map<Name, NodeInfo>, servs: seq<Name>, clits: seq<Name>)

  const EMPTY := Topo([], map[], [], [])

  /** The values that the parsing code can build: see `Valid`. */
  type Known = t: Topo | Valid(t) witness EMPTY

  const BARE := NodeInfo(-1, [])

  predicate StartsWith(base: string, str: string) {
    |base| >= |str| && base[..|str|] == str
  }

  predicate IsRouter(n: Name) {
    StartsWith(n, "router")
  }

  lemma RouterMeaning(n: Name)
    ensures IsRouter(n) <==> exists rest :: n == "router" + rest
  {
    if IsRouter(n) {
      assert n == "router" + n[6..];
    }
  }

  // ---- one step at a time ----

  /** `add_new_node`: a node not seen before has no neighbours and sequence number -1. */
  function AddNode(t: Topo, n: Name): Topo {
    if n in t.order then t else t.(order := t.order + [n], info := t.info[n := BARE])
  }

  /** `add_new_neighbor`: `m` is listed as a neighbour of `n` at most once. */
  function AddEdge(t: Topo, n: Name, m: Name): Topo
    requires n in t.info
  {
    t.(info := t.info[n := t.info[n].(neighbors := AddNew(t.info[n].neighbors, m))])
  }

  /** One turn of the inner loop of `parse_LSA`: `m` becomes a node and then a neighbour of `n`. */
  function AddNeighbor(t: Topo, n: Name, m: Name): (r: Topo)
    requires n in t.info
    ensures n in r.info
  {
    AddEdge(AddNode(t, m), n, m)
  }

  function AddNeighbors(t: Topo, n: Name, ns: seq<Name>): (r: Topo)
    requires n in t.info
    ensures n in r.info
  {
    if ns == [] then t else AddNeighbor(AddNeighbors(t, n, ns[..|ns| - 1]), n, ns[|ns| - 1])
  }

  function AddClient(t: Topo, n: Name): Topo {
    if n in t.servs || IsRouter(n) || n in t.clits then t else t.(clits := t.clits + [n])
  }

  /** A newer advert starts from no neighbours. */
  function Restart(t: Topo, n: Name, seqNum: int): (r: Topo)
    ensures n in r.info
  {
    t.(info := t.info[n := NodeInfo(seqNum, [])])
  }

  /** One line of `parse_LSA`: an advert no newer than the last one only makes its node known. */
  function ApplyAdvert(t: Known, a: Advert): Topo {
    var t1 := AddClient(AddNode(t, a.name), a.name);
    if t1.info[a.name].seqNum >= a.seqNum then t1
    else AddNeighbors(Restart(t1, a.name, a.seqNum), a.name, a.neighbors)
  }

  function AddServer(t: Topo, n: Name): Topo {
    AddNode(t, n).(servs := t.servs + [n])
  }

  function LoadServers(names: seq<Name>): (t: Known)
    ensures t.clits == []
  {
    if names == [] then EMPTY
    else
      var t := LoadServers(names[..|names| - 1]);
      AddServerKeeps(t, names[|names| - 1]);
      AddServer(t, names[|names| - 1])
  }

  lemma {:induction false} ServersAreListed(names: seq<Name>)
    ensures LoadServers(names).servs == names
  {
    if names != [] {
      ServersAreListed(names[..|names| - 1]);
    }
  }

  lemma LoadServersStep(names: seq<Name>, i: nat)
    requires i < |names|
    ensures LoadServers(names[..i + 1]) == AddServer(LoadServers(names[..i]), names[i])
  {
    assert names[..i + 1][..i] == names[..i];
  }

  function LoadAdverts(t: Known, adverts: seq<Advert>): (r: Known)
    ensures r.servs == t.servs
  {
    if adverts == [] then t
    else
      var t' := LoadAdverts(t, adverts[..|adverts| - 1]);
      ApplyAdvertKeeps(t', adverts[|adverts| - 1]);
      ApplyAdvert(t', adverts[|adverts| - 1])
  }

  lemma LoadAdvertsStep(t: Known, adverts: seq<Advert>, i: nat)
    requires i < |adverts|
    ensures LoadAdverts(t, adverts[..i + 1]) == ApplyAdvert(LoadAdverts(t, adverts[..i]), adverts[i])
  {
    assert adverts[..i + 1][..i] == adverts[..i];
  }

  lemma AddNeighborsStep(t: Topo, n: Name, ns: seq<Name>, i: nat)
    requires n in t.info && i < |ns|
    ensures AddNeighbors(t, n, ns[..i + 1]) == AddNeighbor(AddNeighbors(t, n, ns[..i]), n, ns[i])
  {
    assert ns[..i + 1][..i] == ns[..i];
  }

  /** Reading the server list and then the adverts. */
  function Load(names: seq<Name>, adverts: seq<Advert>): (t: Known)
    ensures t.servs == names
  {
    ServersAreListed(names);
    LoadAdverts(LoadServers(names), adverts)
  }

  // ---- what every step keeps ----

  /** Node names are unique, and `info` is about exactly the nodes. */
  ghost predicate Keyed(t: Topo) {
    && Distinct(t.order)
    && (forall n :: n in t.order <==> n in t.info)
  }

  /** Everything named anywhere is a node; clients are listed once and are neither servers nor routers. */
  ghost predicate Valid(t: Topo) {
    && Keyed(t)
    && (forall n :: n in t.info ==> Distinct(t.info[n].neighbors) && forall m :: m in t.info[n].neighbors ==>
      m in t.info)
    && (forall n :: n in t.servs ==> n in t.info)
    && (forall n :: n in t.clits ==> n in t.info && n !in t.servs && !IsRouter(n))
    && Distinct(t.clits)
  }

  lemma AddNodeKeeps(t: Known, n: Name)
    ensures Valid(AddNode(t, n))
  {
  }

  /** Servers are only read before there are any clients. */
  lemma ServerNotedKeeps(t: Known, n: Name)
    requires t.clits == [] && n in t.info
    ensures Valid(t.(servs := t.servs + [n]))
  {
  }

  lemma AddServerKeeps(t: Known, n: Name)
    requires t.clits == []
    ensures Valid(AddServer(t, n))
  {
    AddNodeKeeps(t, n);
    ServerNotedKeeps(AddNode(t, n), n);
  }

  lemma AddEdgeKeeps(t: Known, n: Name, m: Name)
    requires n in t.info && m in t.info
    ensures Valid(AddEdge(t, n, m))
  {
  }

  lemma AddNeighborKeeps(t: Known, n: Name, m: Name)
    requires n in t.info
    ensures Valid(AddNeighbor(t, n, m))
  {
    AddNodeKeeps(t, m);
    AddEdgeKeeps(AddNode(t, m), n, m);
  }

  lemma AddClientKeeps(t: Known, n: Name)
    requires n in t.info
    ensures Valid(AddClient(t, n))
  {
  }

  lemma RestartKeeps(t: Known, n: Name, seqNum: int)
    requires n in t.info
    ensures Valid(Restart(t, n, seqNum))
  {
  }

  lemma {:induction false} AddNeighborsKeeps(t: Known, n: Name, ns: seq<Name>)
    requires n in t.info
    ensures Valid(AddNeighbors(t, n, ns)) && AddNeighbors(t, n, ns).servs == t.servs
  {
    if ns != [] {
      AddNeighborsKeeps(t, n, ns[..|ns| - 1]);
      AddNeighborKeeps(AddNeighbors(t, n, ns[..|ns| - 1]), n, ns[|ns| - 1]);
    }
  }

  lemma ApplyAdvertKeeps(t: Known, a: Advert)
    ensures Valid(ApplyAdvert(t, a)) && ApplyAdvert(t, a).servs == t.servs
  {
    AddNodeKeeps(t, a.name);
    AddClientKeeps(AddNode(t, a.name), a.name);
    var t1 := AddClient(AddNode(t, a.name), a.name);
    if t1.info[a.name].seqNum < a.seqNum {
      var t2 := Restart(t1, a.name, a.seqNum);
      RestartKeeps(t1, a.name, a.seqNum);
      AddNeighborsKeeps(t2, a.name, a.neighbors);
    }
  }

  // ---- the effect of one advert ----

  /** What is recorded of `n`; a name that is no node counts as a bare one. */
  function InfoOf(t: Topo, n: Name): NodeInfo {
    if n in t.info then t.info[n] else BARE
  }

  /** The inner loop makes the names nodes, gives them to `n`, and changes nothing else. */
  lemma {:induction false} AddNeighborsEffect(t: Known, n: Name, ns: seq<Name>, m: Name)
    requires n in t.info && t.info[n].neighbors == []
    ensures InfoOf(AddNeighbors(t, n, ns), m) == if m == n then NodeInfo(t.info[n].seqNum, Dedup(ns)) else InfoOf(t, m)
    ensures AddNeighbors(t, n, ns).clits == t.clits
  {
    if ns != [] {
      AddNeighborsEffect(t, n, ns[..|ns| - 1], m);
      AddNeighborsEffect(t, n, ns[..|ns| - 1], n);
      AddNeighborsKeeps(t, n, ns[..|ns| - 1]);
    }
  }

  /** One advert replaces what is recorded of its node when it is newer, and changes no other node. */
  lemma ApplyAdvertEffect(t: Known, a: Advert, m: Name)
    ensures InfoOf(ApplyAdvert(t, a), m)
         == if m == a.name &&
           a.seqNum > InfoOf(t, m).seqNum then NodeInfo(a.seqNum, Dedup(a.neighbors)) else InfoOf(t, m)
    ensures m in ApplyAdvert(t, a).clits <==> m in t.clits || (m == a.name && m !in t.servs && !IsRouter(m))
  {
    AddNodeKeeps(t, a.name);
    AddClientKeeps(AddNode(t, a.name), a.name);
    var t1 := AddClient(AddNode(t, a.name), a.name);
    if t1.info[a.name].seqNum < a.seqNum {
      var t2 := Restart(t1, a.name, a.seqNum);
      RestartKeeps(t1, a.name, a.seqNum);
      AddNeighborsEffect(t2, a.name, a.neighbors, m);
    }
  }

  // ---- the outcome in terms of the lines ----

  /** Line `i` is the one that counts for `n`: it has the largest number announced for `n`, above -1,
    * and is the first with that number.
    */
  ghost predicate Newest(adverts: seq<Advert>, i: int, n: Name) {
    && 0 <= i < |adverts| && adverts[i].name == n && adverts[i].seqNum > -1
    && (forall j :: 0 <= j < |adverts| && adverts[j].name == n ==> adverts[j].seqNum <= adverts[i].seqNum)
    && (forall j :: 0 <= j < i && adverts[j].name == n ==> adverts[j].seqNum < adverts[i].seqNum)
  }

  /** What the lines say of `n`, if `info` is recorded: the maximum of -1 and the announced numbers,
    * and the names on the first line that reached it, without repetitions.
    */
  ghost predicate Recorded(adverts: seq<Advert>, n: Name, info: NodeInfo) {
    || (info == BARE && forall j :: 0 <= j < |adverts| && adverts[j].name == n ==> adverts[j].seqNum <= -1)
    || exists i :: Newest(adverts, i, n) && info == NodeInfo(adverts[i].seqNum, Dedup(adverts[i].neighbors))
  }

  lemma RecordedStep(adverts: seq<Advert>, a: Advert, n: Name, info: NodeInfo)
    requires Recorded(adverts, n, info)
    ensures Recorded(adverts + [a], n,
              if n == a.name && a.seqNum > info.seqNum then NodeInfo(a.seqNum, Dedup(a.neighbors)) else info)
  {
    var more := adverts + [a];
    if n == a.name && a.seqNum > info.seqNum {
      assert Newest(more, |adverts|, n);
    } else if i :| Newest(adverts, i, n) && info == NodeInfo(adverts[i].seqNum, Dedup(adverts[i].neighbors)) {
      assert more[i] == adverts[i];
      assert Newest(more, i, n);
    }
  }

  ghost predicate Announced(adverts: seq<Advert>, n: Name) {
    exists a :: a in adverts && a.name == n
  }

  /** The server list alone records nothing of any node. */
  lemma {:induction false} ServersAreBare(names: seq<Name>, n: Name)
    ensures InfoOf(LoadServers(names), n) == BARE
  {
    if names != [] {
      ServersAreBare(names[..|names| - 1], n);
    }
  }

  /** After any adverts: every node has the newest number and the neighbours that came with it, and
    * the clients are the announced names that are neither servers nor routers.
    */
  lemma {:induction false} LoadedIsNewest(names: seq<Name>, adverts: seq<Advert>, n: Name)
    ensures Recorded(adverts, n, InfoOf(Load(names, adverts), n))
    ensures n in Load(names, adverts).clits <==> Announced(adverts, n) && n !in names && !IsRouter(n)
  {
    if adverts == [] {
      ServersAreBare(names, n);
    } else {
      var front, a := adverts[..|adverts| - 1], adverts[|adverts| - 1];
      assert adverts == front + [a];
      LoadedIsNewest(names, front, n);
      ApplyAdvertEffect(Load(names, front), a, n);
      RecordedStep(front, a, n, InfoOf(Load(names, front), n));
    }
  }

  /** The recorded number is the maximum of -1 and the announced ones. */
  lemma RecordedIsMaximum(adverts: seq<Advert>, n: Name, info: NodeInfo)
    requires Recorded(adverts, n, info)
    ensures info.seqNum >= -1
    ensures forall a :: a in adverts && a.name == n ==> a.seqNum <= info.seqNum
    ensures info.seqNum > -1 ==> exists a :: a in adverts && a.name == n && a.seqNum == info.seqNum
    ensures info.seqNum == -1 ==> info.neighbors == []
  {
  }

  // ---- the order of the lines ----

  ghost predicate SameLines(xs: seq<Advert>, ys: seq<Advert>) {
    forall a :: a in xs <==> a in ys
  }

  /** Lines for one node that both carry its largest number name the same neighbours. */
  ghost predicate TopTiesAgree(xs: seq<Advert>) {
    forall a, b :: a in xs && b in xs && IsTop(xs, a) && IsTop(xs, b) && a.name == b.name
      ==> Dedup(a.neighbors) == Dedup(b.neighbors)
  }

  ghost predicate IsTop(xs: seq<Advert>, a: Advert) {
    a.seqNum > -1 && forall b :: b in xs && b.name == a.name ==> b.seqNum <= a.seqNum
  }

  /** The graph that the search runs on. */
  ghost function Adjacency(t: Topo): Graph {
    map n | n in t.info && t.info[n].neighbors != [] :: t.info[n].neighbors
  }

  /** An edge of the graph is a name on the advert line that counts for its node, and the order of a node's edges
    * is that of their first mention there.
    */
  lemma EdgesAreNewest(names: seq<Name>, adverts: seq<Advert>, n: Name, m: Name)
    ensures var edges := Nbrs(Adjacency(Load(names, adverts)), n);
            && (m in edges <==> exists i :: Newest(adverts, i, n) && m in adverts[i].neighbors)
            && forall i :: Newest(adverts, i, n) ==> edges == Dedup(adverts[i].neighbors)
  {
    LoadedIsNewest(names, adverts, n);
    var info := InfoOf(Load(names, adverts), n);
    RecordedIsMaximum(adverts, n, info);
    assert Nbrs(Adjacency(Load(names, adverts)), n) == info.neighbors;
    forall i | Newest(adverts, i, n)
      ensures info.neighbors == Dedup(adverts[i].neighbors)
    {
      assert adverts[i] in adverts;
      if j :| Newest(adverts, j, n) && info == NodeInfo(adverts[j].seqNum, Dedup(adverts[j].neighbors)) {
        assert i == j;
      }
    }
    if i :| Newest(adverts, i, n) {
      DedupMeaning(adverts[i].neighbors);
      forall j | Newest(adverts, j, n)
        ensures j == i
      {
      }
    }
  }

  lemma SameRecord(xs: seq<Advert>, ys: seq<Advert>, n: Name, x: NodeInfo, y: NodeInfo)
    requires SameLines(xs, ys) && TopTiesAgree(xs)
    requires Recorded(xs, n, x) && Recorded(ys, n, y)
    ensures x == y
  {
    RecordedIsMaximum(xs, n, x);
    RecordedIsMaximum(ys, n, y);
    if x.seqNum > -1 {
      var i :| Newest(xs, i, n) && x == NodeInfo(xs[i].seqNum, Dedup(xs[i].neighbors));
      var j :| Newest(ys, j, n) && y == NodeInfo(ys[j].seqNum, Dedup(ys[j].neighbors));
      assert xs[i] in xs && ys[j] in ys;
      assert IsTop(xs, xs[i]) && IsTop(xs, ys[j]);
    }
  }

  /** What is recorded does not depend on the order or the repetition of the lines ... */
  lemma OrderDoesNotMatter(names: seq<Name>, xs: seq<Advert>, ys: seq<Advert>)
    requires SameLines(xs, ys) && TopTiesAgree(xs)
    ensures var t, u := Load(names, xs), Load(names, ys);
            && Adjacency(t) == Adjacency(u)
            && (forall n :: InfoOf(t, n) == InfoOf(u, n))
            && (forall n :: n in t.clits <==> n in u.clits)
  {
    var t, u := Load(names, xs), Load(names, ys);
    forall n
      ensures InfoOf(t, n) == InfoOf(u, n) && (n in t.clits <==> n in u.clits)
    {
      LoadedIsNewest(names, xs, n);
      LoadedIsNewest(names, ys, n);
      SameRecord(xs, ys, n, InfoOf(t, n), InfoOf(u, n));
    }
    AdjacencyFromInfo(t, u);
  }

  lemma AdjacencyFromInfo(t: Topo, u: Topo)
    requires forall n :: InfoOf(t, n) == InfoOf(u, n)
    ensures Adjacency(t) == Adjacency(u)
  {
    forall n
      ensures n in Adjacency(t) <==> n in Adjacency(u)
      ensures n in Adjacency(t) ==> Adjacency(t)[n] == Adjacency(u)[n]
    {
      assert InfoOf(t, n) == InfoOf(u, n);
    }
  }

  /** The first line, if it has the largest number for its node, is the one that counts. */
  lemma FirstLineWins(names: seq<Name>, ys: seq<Advert>)
    requires ys != [] && IsTop(ys, ys[0])
    ensures Nbrs(Adjacency(Load(names, ys)), ys[0].name) == Dedup(ys[0].neighbors)
  {
    var a := ys[0];
    LoadedIsNewest(names, ys, a.name);
    var info := InfoOf(Load(names, ys), a.name);
    RecordedIsMaximum(ys, a.name, info);
    assert a in ys;
    var i :| Newest(ys, i, a.name) && info == NodeInfo(ys[i].seqNum, Dedup(ys[i].neighbors));
    assert i == 0;
  }

  function MovedToFront<A>(xs: seq<A>, i: nat): seq<A>
    requires i < |xs|
  {
    [xs[i]] + (xs[..i] + xs[i + 1..])
  }

  lemma MovingPermutes<A>(xs: seq<A>, i: nat)
    requires i < |xs|
    ensures multiset(MovedToFront(xs, i)) == multiset(xs)
  {
    assert xs == xs[..i] + ([xs[i]] + xs[i + 1..]);
  }

  lemma PermutedLines(xs: seq<Advert>, ys: seq<Advert>)
    requires multiset(xs) == multiset(ys)
    ensures SameLines(xs, ys)
  {
    forall a
      ensures a in xs <==> a in ys
    {
      assert a in xs <==> a in multiset(xs);
      assert a in ys <==> a in multiset(ys);
    }
  }

  /** ... and it is independent of their order only if the ties at the top agree: otherwise moving one of
    * the tied lines to the front changes the graph.
    */
  lemma OrderMattersOtherwise(names: seq<Name>, xs: seq<Advert>) returns (ys: seq<Advert>)
    requires !TopTiesAgree(xs)
    ensures multiset(ys) == multiset(xs) && Adjacency(Load(names, xs)) != Adjacency(Load(names, ys))
  {
    var a, b :| a in xs && b in xs && IsTop(xs, a) && IsTop(xs, b) && a.name == b.name
      && Dedup(a.neighbors) != Dedup(b.neighbors);
    var line := if Nbrs(Adjacency(Load(names, xs)), a.name) != Dedup(a.neighbors) then a else b;
    var i :| 0 <= i < |xs| && xs[i] == line;
    ys := MovedToFront(xs, i);
    MovingPermutes(xs, i);
    PermutedLines(xs, ys);
    assert IsTop(ys, ys[0]);
    FirstLineWins(names, ys);
  }

  /** The graph is a function of the lines, in whatever order, exactly when ties at the top agree. */
  lemma OrderIrrelevantExactlyWhenTiesAgree(names: seq<Name>, xs: seq<Advert>)
    ensures TopTiesAgree(xs) <==>
              forall ys :: multiset(ys) == multiset(xs) ==> Adjacency(Load(names, xs)) == Adjacency(Load(names, ys))
  {
    if TopTiesAgree(xs) {
      forall ys | multiset(ys) == multiset(xs)
        ensures Adjacency(Load(names, xs)) == Adjacency(Load(names, ys))
      {
        PermutedLines(xs, ys);
        OrderDoesNotMatter(names, xs, ys);
      }
    } else {
      var ys := OrderMattersOtherwise(names, xs);
    }
  }

  /** The same condition makes it a function of the set of lines, repetitions aside as well. */
  lemma RepetitionIrrelevantExactlyWhenTiesAgree(names: seq<Name>, xs: seq<Advert>)
    ensures TopTiesAgree(xs) <==>
            forall ys :: SameLines(xs, ys) ==> Adjacency(Load(names, xs)) == Adjacency(Load(names, ys))
  {
    if TopTiesAgree(xs) {
      forall ys | SameLines(xs, ys)
        ensures Adjacency(Load(names, xs)) == Adjacency(Load(names, ys))
      {
        OrderDoesNotMatter(names, xs, ys);
      }
    } else {
      var ys := OrderMattersOtherwise(names, xs);
      PermutedLines(xs, ys);
    }
  }

  /** Two lines for one node with the same number and different neighbours: the one read first counts. */
  lemma OrderCanMatter()
    ensures var a, b := Advert("router1", 1, ["router2"]), Advert("router1", 1, ["router3"]);
            && Nbrs(Adjacency(Load([], [a, b])), "router1") == ["router2"]
            && Nbrs(Adjacency(Load([], [b, a])), "router1") == ["router3"]
  {
    var a, b := Advert("router1", 1, ["router2"]), Advert("router1", 1, ["router3"]);
    assert Dedup(a.neighbors) == ["router2"] && Dedup(b.neighbors) == ["router3"];
    assert IsTop([a, b], a) && IsTop([b, a], b);
    FirstLineWins([], [a, b]);
    FirstLineWins([], [b, a]);
  }
}
