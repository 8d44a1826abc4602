/** The two nested loops of `shortest_path` in src/ospf.c, over nodes and a queue on the heap.
  *
  * The nodes are on a list of src/mlib/mlist.c, and other lists refer to them by the cells of that list.
  * Here `nodes` is what the list holds, and `at` tells the cell of each node by its name.
  */
module Bfs {
  import opened Options
  import opened MLists
  import opened MQueues
  import opened Searches

  class Node {
    const name: Name
    var neighbors: seq<MList<Node>>  // cells of the list of nodes
    ghost var places: seq<nat>       // and their positions in it
    var seqNum: int
    var mark: bool

    /** `mark` is left as malloc returned it. */
    constructor (name: Name)
      ensures this.name == name && neighbors == [] && places == [] && seqNum == -1
    {
      this.name, neighbors, places, seqNum, mark := name, [], [], -1, *;
    }
  }

  /** `cs` are the cells of the nodes called `names`, if `at` says which cell is whose. */
  ghost predicate CellsOf(at: map<Name, MList<Node>>, cs: seq<MList<Node>>, names: seq<Name>) {
    |cs| == |names| && forall k :: 0 <= k < |cs| ==> names[k] in at && at[names[k]] == cs[k]
  }

  /** `at` is right: each of its cells holds the node with the name. */
  ghost predicate Located(at: map<Name, MList<Node>>, nodes: seq<Node>)
    reads at.Values`data
  {
    forall n :: n in at ==> at[n].data in nodes && at[n].data.name == n
  }

  ghost predicate Named(nodes: seq<Node>) {
    forall x, y :: x in nodes && y in nodes && x.name == y.name ==> x == y
  }

  /** The nodes have different names, spell out the graph `g`, and `servs` are the cells of those named in `servers`. */
  ghost predicate Spells(at: map<Name, MList<Node>>, nodes: seq<Node>, servs: seq<MList<Node>>, g: Graph,
                         servers: set<Name>)
    reads nodes`neighbors
  {
    && Named(nodes)
    && (forall x :: x in nodes ==> CellsOf(at, x.neighbors, Nbrs(g, x.name)))
    && (forall n :: n in at ==> (at[n] in servs <==> n in servers))
  }

  ghost predicate MarksAre(nodes: seq<Node>, marked: set<Name>)
    reads nodes`mark
  {
    forall x :: x in nodes ==> (x.mark <==> x.name in marked)
  }

  /** `mlist_foreach(nodes, unmark, NULL)`, from the head of the list of nodes. */
  method UnmarkAll(list: MList?<Node>, ghost cells: seq<MList<Node>>, ghost nodes: seq<Node>)
    requires Chain(cells) && At(list, cells, 0) && Data(cells) == nodes
    modifies nodes`mark
    ensures MarksAre(nodes, {})
  {
    var iter := list;
    ghost var i := 0;
    while iter != null
      invariant At(iter, cells, i)
      invariant forall j :: 0 <= j < i ==> !nodes[j].mark
      decreases |cells| - i
    {
      assert iter.data == nodes[i];
      iter.data.mark := false;
      iter := iter.next;
      i := i + 1;
    }
  }

  method Mark(node: Node, ghost nodes: seq<Node>, ghost marked: set<Name>)
    requires Named(nodes) && node in nodes && MarksAre(nodes, marked)
    modifies node`mark
    ensures MarksAre(nodes, marked + {node.name})
  {
    node.mark := true;
  }

  /** The names waiting in the queue are `names`; the queue holds nodes of the list only, and its own cells
    * are not those of the list.
    */
  ghost predicate Waiting(at: map<Name, MList<Node>>, nodes: seq<Node>, q: MQueue<Node>, names: seq<Name>)
    reads q, q.Repr, at.Values`data
  {
    && q.Valid() && Located(at, nodes)
    && (forall x :: x in nodes ==> x !in q.Repr)
    && (forall n :: n in at ==> at[n] !in q.Repr)
    && |q.Contents()| == |names|
    && (forall i :: 0 <= i < |names| ==> q.Contents()[i].name == names[i] && q.Contents()[i] in nodes)
  }

  datatype Outcome = Passed | Found(serv: Node) | Pushed

  /** One turn of the inner loop, on the neighbour called `n` in cell `cell`: a marked one is passed, a server
    * ends the search, any other node is pushed and marked.
    */
  method LookAt(servs: seq<MList<Node>>, q: MQueue<Node>, cell: MList<Node>, ghost at: map<Name, MList<Node>>,
                ghost nodes: seq<Node>,
                ghost n: Name, ghost servers: set<Name>, ghost names: seq<Name>, ghost marked: set<Name>)
    returns (outcome: Outcome)
    requires Named(nodes) && n in at && at[n] == cell && (cell in servs <==> n in servers)
    requires MarksAre(nodes, marked) && Waiting(at, nodes, q, names)
    modifies q.Repr, nodes`mark
    ensures fresh(q.Repr - old(q.Repr))
    ensures outcome == Passed <==> n in marked
    ensures outcome.Found? ==> n in servers && outcome.serv == cell.data && outcome.serv.name == n
    ensures outcome == Pushed ==> n !in servers
    ensures MarksAre(nodes, if outcome == Pushed then marked + {n} else marked)
    ensures Waiting(at, nodes, q, if outcome == Pushed then names + [n] else names)
  {
    var tmp := cell.data;
    if tmp.mark {
      return Passed;
    }
    if cell in servs {
      return Found(tmp);
    }
    q.PushTail(tmp);
    Mark(tmp, nodes, marked);
    return Pushed;
  }

  /** Takes the front node out of the queue. */
  method PopNode(q: MQueue<Node>, ghost at: map<Name, MList<Node>>, ghost nodes: seq<Node>, ghost names: seq<Name>)
    returns (node: Node)
    requires Waiting(at, nodes, q, names) && names != []
    modifies q.Repr
    ensures node in nodes && node.name == names[0]
    ensures Waiting(at, nodes, q, names[1..]) && q.Repr == old(q.Repr)
  {
    var front := q.PopHead();
    node := front.value;
    assert node == old(q.Contents())[0] && q.Contents() == old(q.Contents())[1..];
  }

  /** The cells to look at are those of the nodes called `ns`, and the servers' cells are in `servs`. */
  ghost predicate Readable(at: map<Name, MList<Node>>, nodes: seq<Node>, servs: seq<MList<Node>>,
                           neighbors: seq<MList<Node>>,
                           g: Graph, servers: set<Name>, ns: seq<Name>) {
    && Named(nodes) && CellsOf(at, neighbors, ns)
    && (forall i :: 0 <= i < |ns| ==> ns[i] in Universe(g))
    && (forall n :: n in at ==> (at[n] in servs <==> n in servers))
  }

  /** The body of the inner loop, on the `k`th neighbour; `k'` is where the iterator is afterwards. */
  method Turn(servs: seq<MList<Node>>, q: MQueue<Node>, neighbors: seq<MList<Node>>, k: nat,
              ghost at: map<Name, MList<Node>>, ghost nodes: seq<Node>,
              ghost g: Graph, ghost servers: set<Name>, ghost ns: seq<Name>, ghost names: seq<Name>,
              ghost marked: set<Name>)
    returns (serv: Node?, k': nat, ghost names': seq<Name>, ghost marked': set<Name>)
    requires Readable(at, nodes, servs, neighbors, g, servers, ns) && k < |ns|
    requires MarksAre(nodes, marked) && Waiting(at, nodes, q, names)
    modifies q.Repr, nodes`mark
    ensures MarksAre(nodes, marked') && Waiting(at, nodes, q, names')
    ensures fresh(q.Repr - old(q.Repr))
    ensures k <= k' <= |ns|
    ensures Search(g, servers, names, ns[k..], marked)
         == if serv != null then Some(serv.name) else Search(g, servers, names', ns[k'..], marked')
    ensures if k' == k && serv == null then |Universe(g) - marked'| < |Universe(g) - marked|
            else marked' == marked && names' == names
  {
    serv, k', names', marked' := null, k, names, marked;
    SearchTurn(g, servers, names, ns, k, marked);
    var outcome := LookAt(servs, q, neighbors[k], at, nodes, ns[k], servers, names, marked);
    match outcome {
      case Passed =>
        k' := k + 1;
      case Found(tmp) =>
        serv := tmp;
      case Pushed =>
        MarkingShrinks(g, marked, ns[k]);
        names', marked' := names + [ns[k]], marked + {ns[k]};
    }
  }

  /** The inner loop: looks at the neighbours of a node and stops at a server.  After a push the iterator
    * stays where it is; the pushed node is marked, so the next turn moves on.
    */
  method Scan(servs: seq<MList<Node>>, q: MQueue<Node>, neighbors: seq<MList<Node>>, ghost at: map<Name, MList<Node>>,
              ghost nodes: seq<Node>,
              ghost g: Graph, ghost servers: set<Name>, ghost ns: seq<Name>, ghost names: seq<Name>,
              ghost marked: set<Name>)
    returns (serv: Node?, ghost names': seq<Name>, ghost marked': set<Name>)
    requires Readable(at, nodes, servs, neighbors, g, servers, ns)
    requires MarksAre(nodes, marked) && Waiting(at, nodes, q, names)
    modifies q.Repr, nodes`mark
    ensures MarksAre(nodes, marked') && Waiting(at, nodes, q, names')
    ensures fresh(q.Repr - old(q.Repr))
    ensures Search(g, servers, names, ns, marked)
         == if serv != null then Some(serv.name) else Search(g, servers, names', [], marked')
    ensures |Universe(g) - marked'| < |Universe(g) - marked| || (marked' == marked && names' == names)
  {
    serv, names', marked' := null, names, marked;
    var k := 0;
    while k < |neighbors|
      invariant serv == null && k <= |ns|
      invariant MarksAre(nodes, marked') && Waiting(at, nodes, q, names')
      invariant forall o :: o in q.Repr && o !in old(q.Repr) ==> fresh(o)
      invariant Search(g, servers, names, ns, marked) == Search(g, servers, names', ns[k..], marked')
      invariant |Universe(g) - marked'| < |Universe(g) - marked| || (marked' == marked && names' == names)
      decreases |Universe(g) - marked'|, |ns| - k
    {
      serv, k, names', marked' := Turn(servs, q, neighbors, k, at, nodes, g, servers, ns, names', marked');
      if serv != null {
        return;
      }
    }
  }

  /** The body of the outer loop. */
  method Visit(servs: seq<MList<Node>>, q: MQueue<Node>, ghost at: map<Name, MList<Node>>, ghost nodes: seq<Node>,
               ghost g: Graph, ghost servers: set<Name>, ghost names: seq<Name>, ghost marked: set<Name>)
    returns (serv: Node?, ghost names': seq<Name>, ghost marked': set<Name>)
    requires Spells(at, nodes, servs, g, servers) && names != []
    requires MarksAre(nodes, marked) && Waiting(at, nodes, q, names)
    modifies q.Repr, nodes`mark
    ensures MarksAre(nodes, marked') && Waiting(at, nodes, q, names')
    ensures fresh(q.Repr - old(q.Repr))
    ensures Search(g, servers, names, [], marked)
         == if serv != null then Some(serv.name) else Search(g, servers, names', [], marked')
    ensures |Universe(g) - marked'| < |Universe(g) - marked| || (marked' == marked && |names'| < |names|)
  {
    var thisNode := PopNode(q, at, nodes, names);
    ghost var ns := Nbrs(g, thisNode.name);
    NbrsAreKnown(g, thisNode.name);
    serv, names', marked' := Scan(servs, q, thisNode.neighbors, at, nodes, g, servers, ns, names[1..], marked);
  }

  /** A new queue that holds just the client, which alone is marked. */
  method Start(list: MList?<Node>, clit: Node, ghost cells: seq<MList<Node>>, ghost at: map<Name, MList<Node>>,
               ghost nodes: seq<Node>)
    returns (q: MQueue<Node>)
    requires Chain(cells) && At(list, cells, 0) && Data(cells) == nodes && Located(at, nodes)
    requires Named(nodes) && clit in nodes
    modifies nodes`mark
    ensures fresh(q.Repr) && Waiting(at, nodes, q, [clit.name]) && MarksAre(nodes, {clit.name})
  {
    UnmarkAll(list, cells, nodes);
    q := QueueOf(clit);
    Mark(clit, nodes, {});
  }

  /** `mqueue_new` and the first `mqueue_push_tail` */
  method QueueOf(node: Node) returns (q: MQueue<Node>)
    ensures q.Valid() && fresh(q.Repr) && q.Contents() == [node]
  {
    q := new MQueue<Node>();
    q.PushTail(node);
  }

  /** The outer loop, from a queue and marks that are under way. */
  method Drain(servs: seq<MList<Node>>, q: MQueue<Node>, ghost at: map<Name, MList<Node>>, ghost nodes: seq<Node>,
               ghost g: Graph, ghost servers: set<Name>, ghost names: seq<Name>, ghost marked: set<Name>)
    returns (serv: Node?)
    requires Spells(at, nodes, servs, g, servers) && MarksAre(nodes, marked) && Waiting(at, nodes, q, names)
    modifies q.Repr, nodes`mark
    ensures Search(g, servers, names, [], marked) == if serv == null then None else Some(serv.name)
  {
    serv := null;
    ghost var names', marked' := names, marked;
    while !q.IsEmpty()
      invariant serv == null && fresh(q.Repr - old(q.Repr))
      invariant MarksAre(nodes, marked') && Waiting(at, nodes, q, names')
      invariant Search(g, servers, names, [], marked) == Search(g, servers, names', [], marked')
      decreases |Universe(g) - marked'|, |names'|
    {
      serv, names', marked' := Visit(servs, q, at, nodes, g, servers, names', marked');
      if serv != null {
        return;
      }
    }
  }

  /** The search from one client: the server found, or null where the source reaches `assert(0)`. */
  method FindServer(list: MList?<Node>, servs: seq<MList<Node>>, clit: Node, ghost cells: seq<MList<Node>>,
                    ghost at: map<Name, MList<Node>>, ghost nodes: seq<Node>, ghost g: Graph, ghost servers: set<Name>)
    returns (serv: Node?)
    requires Chain(cells) && At(list, cells, 0) && Data(cells) == nodes && Located(at, nodes)
    requires clit in nodes && Spells(at, nodes, servs, g, servers)
    modifies nodes`mark
    ensures Nearest(g, servers, clit.name) == if serv == null then None else Some(serv.name)
  {
    var q := Start(list, clit, cells, at, nodes);
    serv := Drain(servs, q, at, nodes, g, servers, [clit.name], {clit.name});
  }
}
