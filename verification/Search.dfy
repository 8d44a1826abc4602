/** Breadth-first search for the nearest server, as a function on a graph of node names.
  *
  * `Search` takes one turn of the loops of `shortest_path` in src/ospf.c per call; the methods in
  * Bfs.dfy are proved to compute it.  Here it is proved to find a nearest server.
  */
module Searches {
  import opened Options

  type Name = string
  type Graph = map<Name, seq<Name>>

  function Nbrs(g: Graph, n: Name): seq<Name> {
    if n in g then g[n] else []
  }

  /** Every name that the graph mentions. */
  ghost function Universe(g: Graph): set<Name> {
    g.Keys + set n, m | n in g && m in g[n] :: m
  }

  lemma NbrsAreKnown(g: Graph, n: Name)
    ensures forall k :: 0 <= k < |Nbrs(g, n)| ==> Nbrs(g, n)[k] in Universe(g)
  {
    forall k | 0 <= k < |Nbrs(g, n)|
      ensures Nbrs(g, n)[k] in Universe(g)
    {
      assert n in g && Nbrs(g, n)[k] in g[n];
    }
  }

  /** The loops of `shortest_path`.  `rest` are the neighbours still to look at of the node taken from
    * the queue.  A node that is pushed stays at the front of `rest`: the iterator only advances past
    * it on the next turn, because the node is marked by then.
    */
  ghost function Search(g: Graph, servs: set<Name>, queue: seq<Name>, rest: seq<Name>, marked: set<Name>): Option<Name>
    requires forall t :: t in rest ==> t in Universe(g)
    decreases |Universe(g) - marked|, |queue|, |rest|
  {
    if rest != [] then
      var t := rest[0];
      if t in marked then
        Search(g, servs, queue, rest[1..], marked)
      else if t in servs then
        Some(t)
      else
        MarkingShrinks(g, marked, t);
        Search(g, servs, queue + [t], rest, marked + {t})
    else if queue == [] then
      None
    else
      Search(g, servs, queue[1..], Nbrs(g, queue[0]), marked)
  }

  /** One turn of the inner loop, with the neighbours from the `k`th on still to look at. */
  lemma SearchTurn(g: Graph, servs: set<Name>, queue: seq<Name>, ns: seq<Name>, k: nat, marked: set<Name>)
    requires k < |ns| && forall i :: 0 <= i < |ns| ==> ns[i] in Universe(g)
    ensures Search(g, servs, queue, ns[k..], marked)
         == if ns[k] in marked then Search(g, servs, queue, ns[k + 1..], marked)
            else if ns[k] in servs then Some(ns[k])
            else Search(g, servs, queue + [ns[k]], ns[k..], marked + {ns[k]})
  {
    assert ns[k..][0] == ns[k] && ns[k..][1..] == ns[k + 1..];
  }

  /** The search from one client. */
  ghost function Nearest(g: Graph, servs: set<Name>, c: Name): Option<Name> {
    Search(g, servs, [c], [], {c})
  }

  lemma MarkingShrinks(g: Graph, marked: set<Name>, t: Name)
    requires t in Universe(g) && t !in marked
    ensures |Universe(g) - (marked + {t})| < |Universe(g) - marked|
  {
    assert Universe(g) - (marked + {t}) == (Universe(g) - marked) - {t};
  }

  // ---- what "nearest" means ----

  ghost predicate Path(g: Graph, p: seq<Name>, a: Name, b: Name) {
    && p != [] && p[0] == a && p[|p| - 1] == b
    && forall i :: 0 <= i < |p| - 1 ==> p[i + 1] in Nbrs(g, p[i])
  }

  ghost predicate Reachable(g: Graph, a: Name, b: Name) {
    exists p :: Path(g, p, a, b)
  }

  /** `s` is a server that `c` reaches, by a path no longer than any path from `c` to any server. */
  ghost predicate IsNearest(g: Graph, servs: set<Name>, c: Name, s: Name) {
    && s in servs
    && exists p :: Path(g, p, c, s) && forall q, t :: t in servs && Path(g, q, c, t) ==> |p| <= |q|
  }

  // ---- what the search keeps ----

  /** `lvl` is how many hops from the client each marked node was found at. */
  ghost predicate Leveled(g: Graph, servs: set<Name>, c: Name, queue: seq<Name>, marked: set<Name>,
                          lvl: map<Name, nat>) {
    && lvl.Keys == marked && marked !! servs
    && c in marked && lvl[c] == 0
    && (forall n :: n in marked ==> exists p :: Path(g, p, c, n) && |p| == lvl[n] + 1)
    && (forall n :: n in queue ==> n in marked)
    && (forall i, j :: 0 <= i < j < |queue| ==> lvl[queue[i]] <= lvl[queue[j]])
  }

  /** All neighbours of `n` have been found, none of them later than one hop after `n`. */
  ghost predicate Settled(g: Graph, n: Name, lvl: map<Name, nat>) {
    n in lvl && forall t :: t in Nbrs(g, n) ==> t in lvl && lvl[t] <= lvl[n] + 1
  }

  /** Between two nodes: every marked node that left the queue is settled, and the queue's front is at most
    * one level behind.
    */
  ghost predicate Between(g: Graph, servs: set<Name>, c: Name, queue: seq<Name>, marked: set<Name>,
                          lvl: map<Name, nat>) {
    && Leveled(g, servs, c, queue, marked, lvl)
    && (forall n :: n in marked && n !in queue ==> Settled(g, n, lvl))
    && (queue != [] ==> forall n :: n in marked ==> lvl[n] <= lvl[queue[0]] + 1)
  }

  /** While looking at node `u`, of whose neighbours `rest` remain. */
  ghost predicate Inside(g: Graph, servs: set<Name>, c: Name, u: Name, queue: seq<Name>, rest: seq<Name>,
                         marked: set<Name>, lvl: map<Name, nat>) {
    && Leveled(g, servs, c, queue, marked, lvl)
    && u in marked
    && (forall n :: n in marked && n !in queue && n != u ==> Settled(g, n, lvl))
    && (forall n :: n in queue ==> lvl[u] <= lvl[n])
    && (forall n :: n in marked ==> lvl[n] <= lvl[u] + 1)
    && (forall t :: t in rest ==> t in Nbrs(g, u))
    && (forall t :: t in Nbrs(g, u) ==> t in rest || (t in marked && lvl[t] <= lvl[u] + 1))
  }

  /** If all nodes nearer than `d` hops are settled, a path of at most `d` hops stays among marked nodes. */
  lemma {:induction false} ShortPathsAreMarked(g: Graph, c: Name, lvl: map<Name, nat>, d: nat, p: seq<Name>, n: Name)
    requires c in lvl && lvl[c] == 0
    requires forall m :: m in lvl && lvl[m] < d ==> Settled(g, m, lvl)
    requires Path(g, p, c, n) && |p| <= d + 1
    ensures n in lvl && lvl[n] < |p|
  {
    if |p| > 1 {
      var front := p[..|p| - 1];
      ShortPathsAreMarked(g, c, lvl, d, front, front[|front| - 1]);
      assert p[|p| - 2 + 1] in Nbrs(g, p[|p| - 2]);
    }
  }

  lemma ExtendPath(g: Graph, p: seq<Name>, a: Name, b: Name, t: Name)
    requires Path(g, p, a, b) && t in Nbrs(g, b)
    ensures Path(g, p + [t], a, t)
  {
  }

  /** Finding server `t` among the neighbours of `u`: no server is nearer. */
  lemma FoundIsNearest(g: Graph, servs: set<Name>, c: Name, u: Name, queue: seq<Name>, rest: seq<Name>,
                       marked: set<Name>, lvl: map<Name, nat>, t: Name)
    requires Inside(g, servs, c, u, queue, rest, marked, lvl)
    requires t in rest && t in servs
    ensures IsNearest(g, servs, c, t)
  {
    var p :| Path(g, p, c, u) && |p| == lvl[u] + 1;
    ExtendPath(g, p, c, u, t);
    forall q, s | s in servs && Path(g, q, c, s)
      ensures |p + [t]| <= |q|
    {
      if |q| <= lvl[u] + 1 {
        ShortPathsAreMarked(g, c, lvl, lvl[u], q, s);
      }
    }
  }

  /** An empty queue: everything reachable is marked, so no server is reachable. */
  lemma ExhaustedMeansUnreachable(g: Graph, servs: set<Name>, c: Name, marked: set<Name>, lvl: map<Name, nat>, t: Name)
    requires Between(g, servs, c, [], marked, lvl) && t in servs
    ensures !Reachable(g, c, t)
  {
    forall p | Path(g, p, c, t)
      ensures false
    {
      ShortPathsAreMarked(g, c, lvl, |p|, p, t);
    }
  }

  /** Taking the front node out of the queue. */
  lemma TakeFront(g: Graph, servs: set<Name>, c: Name, queue: seq<Name>, marked: set<Name>, lvl: map<Name, nat>)
    requires Between(g, servs, c, queue, marked, lvl) && queue != []
    ensures Inside(g, servs, c, queue[0], queue[1..], Nbrs(g, queue[0]), marked, lvl)
  {
    forall n | n in marked && n !in queue[1..] && n != queue[0]
      ensures Settled(g, n, lvl)
    {
      assert queue == [queue[0]] + queue[1..];
      assert n !in queue;
    }
    forall n | n in queue[1..]
      ensures lvl[queue[0]] <= lvl[n]
    {
      var i :| 0 <= i < |queue[1..]| && queue[1..][i] == n;
      assert queue[i + 1] == n;
    }
  }

  /** Pushing an unmarked neighbour that is not a server. */
  lemma Push(g: Graph, servs: set<Name>, c: Name, u: Name, queue: seq<Name>, rest: seq<Name>, marked: set<Name>,
             lvl: map<Name, nat>, t: Name)
    requires Inside(g, servs, c, u, queue, rest, marked, lvl)
    requires t in rest && t !in servs && t !in marked
    ensures Inside(g, servs, c, u, queue + [t], rest, marked + {t}, lvl[t := lvl[u] + 1])
  {
    var lvl' := lvl[t := lvl[u] + 1];
    forall n | n in marked + {t}
      ensures exists p :: Path(g, p, c, n) && |p| == lvl'[n] + 1
    {
      if n == t {
        var p :| Path(g, p, c, u) && |p| == lvl[u] + 1;
        ExtendPath(g, p, c, u, t);
      }
    }
    forall n | n in marked + {t} && n !in queue + [t] && n != u
      ensures Settled(g, n, lvl')
    {
      assert n !in queue && Settled(g, n, lvl);
    }
  }

  /** Passing a neighbour that is marked. */
  lemma Skip(g: Graph, servs: set<Name>, c: Name, u: Name, queue: seq<Name>, rest: seq<Name>, marked: set<Name>,
             lvl: map<Name, nat>)
    requires Inside(g, servs, c, u, queue, rest, marked, lvl)
    requires rest != [] && rest[0] in marked
    ensures Inside(g, servs, c, u, queue, rest[1..], marked, lvl)
  {
    assert rest == [rest[0]] + rest[1..];
  }

  /** Running out of neighbours. */
  lemma Finish(g: Graph, servs: set<Name>, c: Name, u: Name, queue: seq<Name>, marked: set<Name>, lvl: map<Name, nat>)
    requires Inside(g, servs, c, u, queue, [], marked, lvl)
    ensures Between(g, servs, c, queue, marked, lvl)
  {
    assert Settled(g, u, lvl);
    assert queue != [] ==> queue[0] in queue;
  }

  // ---- the search is correct ----

  ghost predicate Answers(g: Graph, servs: set<Name>, c: Name, r: Option<Name>) {
    match r
    case Some(s) => IsNearest(g, servs, c, s)
    case None => forall t :: t in servs ==> !Reachable(g, c, t)
  }

  lemma {:induction false} SearchInside(g: Graph, servs: set<Name>, c: Name, u: Name, queue: seq<Name>, rest: seq<Name>,
                                        marked: set<Name>, lvl: map<Name, nat>)
    requires Inside(g, servs, c, u, queue, rest, marked, lvl)
    requires forall t :: t in rest ==> t in Universe(g)
    ensures Answers(g, servs, c, Search(g, servs, queue, rest, marked))
    decreases |Universe(g) - marked|, |queue|, 1, |rest|
  {
    if rest == [] {
      Finish(g, servs, c, u, queue, marked, lvl);
      SearchBetween(g, servs, c, queue, marked, lvl);
    } else {
      var t := rest[0];
      if t in marked {
        Skip(g, servs, c, u, queue, rest, marked, lvl);
        SearchInside(g, servs, c, u, queue, rest[1..], marked, lvl);
      } else if t in servs {
        FoundIsNearest(g, servs, c, u, queue, rest, marked, lvl, t);
      } else {
        Push(g, servs, c, u, queue, rest, marked, lvl, t);
        MarkingShrinks(g, marked, t);
        SearchInside(g, servs, c, u, queue + [t], rest, marked + {t}, lvl[t := lvl[u] + 1]);
      }
    }
  }

  lemma {:induction false} SearchBetween(g: Graph, servs: set<Name>, c: Name, queue: seq<Name>, marked: set<Name>,
      lvl: map<Name, nat>)
    requires Between(g, servs, c, queue, marked, lvl)
    ensures Answers(g, servs, c, Search(g, servs, queue, [], marked))
    decreases |Universe(g) - marked|, |queue|, 0
  {
    if queue == [] {
      forall t | t in servs
        ensures !Reachable(g, c, t)
      {
        ExhaustedMeansUnreachable(g, servs, c, marked, lvl, t);
      }
    } else {
      TakeFront(g, servs, c, queue, marked, lvl);
      SearchInside(g, servs, c, queue[0], queue[1..], Nbrs(g, queue[0]), marked, lvl);
    }
  }

  /** For every graph and every client that is not a server, the search answers with a nearest server,
    * and it ends without one exactly when no server is reachable.
    */
  lemma NearestIsCorrect(g: Graph, servs: set<Name>, c: Name)
    requires c !in servs
    ensures Answers(g, servs, c, Nearest(g, servs, c))
    ensures Nearest(g, servs, c) == None <==> forall t :: t in servs ==> !Reachable(g, c, t)
  {
    assert Path(g, [c], c, c);
    SearchBetween(g, servs, c, [c], {c}, map[c := 0]);
  }

  /** The search never answers with a node that was marked before it began. */
  lemma {:induction false} FindsOnlyUnmarked(g: Graph, servs: set<Name>, queue: seq<Name>, rest: seq<Name>,
      marked: set<Name>)
    requires forall t :: t in rest ==> t in Universe(g)
    ensures match Search(g, servs, queue, rest, marked) case None => true case Some(s) => s !in marked
    decreases |Universe(g) - marked|, |queue|, |rest|
  {
    if rest != [] {
      var t := rest[0];
      if t in marked {
        FindsOnlyUnmarked(g, servs, queue, rest[1..], marked);
      } else if t !in servs {
        MarkingShrinks(g, marked, t);
        FindsOnlyUnmarked(g, servs, queue + [t], rest, marked + {t});
      }
    } else if queue != [] {
      FindsOnlyUnmarked(g, servs, queue[1..], Nbrs(g, queue[0]), marked);
    }
  }

  /** "Clients are never servers" is exactly what the search needs: a server that asked would be sent
    * away from itself.
    */
  lemma CorrectExactlyForNonServers(g: Graph, servs: set<Name>, c: Name)
    ensures Answers(g, servs, c, Nearest(g, servs, c)) <==> c !in servs
  {
    if c !in servs {
      NearestIsCorrect(g, servs, c);
    } else {
      FindsOnlyUnmarked(g, servs, [c], [], {c});
      assert Path(g, [c], c, c);
    }
  }

  /** Of servers that are the client's neighbours the one listed first is found. */
  lemma FirstServerListed(g: Graph, servs: set<Name>, c: Name, k: nat)
    requires c !in servs && k < |Nbrs(g, c)| && Nbrs(g, c)[k] in servs
    requires forall i :: 0 <= i < k ==> Nbrs(g, c)[i] !in servs
    ensures Nearest(g, servs, c) == Some(Nbrs(g, c)[k])
  {
    NbrsAreKnown(g, c);
    assert Nbrs(g, c)[0..] == Nbrs(g, c) && [c][1..] == [];
    ScanFinds(g, servs, [], Nbrs(g, c), 0, k, {c});
  }

  lemma {:induction false} ScanFinds(g: Graph, servs: set<Name>, queue: seq<Name>, ns: seq<Name>, i: nat, k: nat,
                                     marked: set<Name>)
    requires i <= k < |ns| && ns[k] in servs && marked !! servs
    requires forall j :: 0 <= j < |ns| ==> ns[j] in Universe(g)
    requires forall j :: 0 <= j < k ==> ns[j] !in servs
    ensures Search(g, servs, queue, ns[i..], marked) == Some(ns[k])
    decreases |Universe(g) - marked|, k - i
  {
    SearchTurn(g, servs, queue, ns, i, marked);
    if ns[i] in marked {
      ScanFinds(g, servs, queue, ns, i + 1, k, marked);
    } else if i < k {
      MarkingShrinks(g, marked, ns[i]);
      ScanFinds(g, servs, queue + [ns[i]], ns, i, k, marked + {ns[i]});
    }
  }
}
