/** The name server's routing state and the methods of src/ospf.c that build and use it.
  *
  * The list of nodes is on the heap; `servs`, `clits` and the lists of neighbours hold cells of it, and
  * `mlist_find` compares those cells.
  */
module Ospf {
  import opened Options
  import opened MLists
  import opened Bfs
  import opened Searches
  import opened Topologies
  import opened Seqs
  import opened Routes
  import RoundRobin

  datatype RtEntry = RtEntry(clit: Node, serv: Node?)

  /** The cells `cs` are at `places` in the list of nodes, those of the nodes called `names`. */
  ghost predicate PlacedAt(cells: seq<MList<Node>>, order: seq<Name>, cs: seq<MList<Node>>, places: seq<nat>,
                           names: seq<Name>) {
    && |cs| == |places| == |names| && |cells| == |order|
    && forall k {:trigger places[k]} :: 0 <= k < |cs| ==>
      places[k] < |order| && cells[places[k]] == cs[k] && order[places[k]] == names[k]
  }

  /** `node` holds what is recorded of the node in the list's `i`th cell. */
  ghost predicate Tied(cells: seq<MList<Node>>, order: seq<Name>, info: map<Name, NodeInfo>, node: Node, i: nat)
    reads node`neighbors, node`places, node`seqNum
  {
    && i < |order| && order[i] in info
    && node.name == order[i]
    && node.seqNum == info[order[i]].seqNum
    && PlacedAt(cells, order, node.neighbors, node.places, info[order[i]].neighbors)
  }

  /** A node as `add_new_node` makes it. */
  ghost predicate IsBare(node: Node, name: Name)
    reads node`neighbors, node`places, node`seqNum
  {
    node.name == name && node.neighbors == [] && node.places == [] && node.seqNum == -1
  }

  ghost predicate Records(cells: seq<MList<Node>>, all: seq<Node>, order: seq<Name>, info: map<Name, NodeInfo>)
    reads all`neighbors, all`places, all`seqNum
  {
    |cells| == |all| == |order| && forall i :: 0 <= i < |all| ==> Tied(cells, order, info, all[i], i)
  }

  /** The entry sends client `c` to the server that the search finds. */
  ghost predicate EntryIs(t: Topo, e: RtEntry, c: Name) {
    e.clit.name == c && e.serv != null && ServerFor(t, c) == Some(e.serv.name)
  }

  ghost predicate TableIs(t: Topo, table: seq<RtEntry>, clits: seq<Name>) {
    |table| == |clits| && forall k :: 0 <= k < |table| ==> EntryIs(t, table[k], clits[k])
  }

  lemma TableExtended(t: Topo, table: seq<RtEntry>, table': seq<RtEntry>, clits: seq<Name>, i: nat)
    requires i < |clits| && TableIs(t, table, clits[..i])
    requires |table'| == |table| + 1 && table'[..|table|] == table && EntryIs(t, table'[|table|], clits[i])
    ensures TableIs(t, table', clits[..i + 1])
  {
    forall k | 0 <= k < |table'|
      ensures EntryIs(t, table'[k], clits[..i + 1][k])
    {
      assert k < |table| ==> table'[k] == table[k] && clits[..i][k] == clits[k];
    }
  }

  lemma TableServesAll(t: Topo, table: seq<RtEntry>)
    requires TableIs(t, table, t.clits)
    ensures AllServed(t)
  {
    forall c | c in t.clits
      ensures ServerFor(t, c).Some?
    {
      var k :| 0 <= k < |t.clits| && t.clits[k] == c;
      assert EntryIs(t, table[k], c);
    }
  }

  lemma SomeoneUnserved(t: Topo, c: Name)
    requires c in t.clits && ServerFor(t, c) == None
    ensures !AllServed(t)
  {
  }

  class LinkState {
    var nodes: MList?<Node>
    var servs: seq<MList<Node>>
    var clits: seq<MList<Node>>
    var routingTable: seq<RtEntry>
    var queryCount: nat
    ghost var cells: seq<MList<Node>>  // the list of nodes, cell by cell
    ghost var all: seq<Node>           // the nodes it holds
    ghost var Repr: set<object>
    ghost var servPlaces: seq<nat>     // the positions in it of the cells on `servs`
    ghost var clitPlaces: seq<nat>     // and on `clits`
    ghost var topo: Known
    ghost var queries: nat             // queries answered by round robin so far

    ghost predicate Valid()
      reads this`nodes, this`cells, this`all, this`Repr, cells`data, cells`prev, cells`next
      reads this`servs, this`servPlaces, this`clits, this`clitPlaces, this`topo, this`queryCount, this`queries
      reads all`neighbors, all`places, all`seqNum
    {
      Listed() && HoldsTopo() && queryCount == RoundRobin.Counter(queries)
    }

    /** `nodes` is a list of the nodes `all`. */
    ghost predicate Listed()
      reads this`nodes, this`cells, this`all, this`Repr, cells`data, cells`prev, cells`next
    {
      && this !in Repr && |cells| == |all|
      && (forall i :: 0 <= i < |all| ==> cells[i] in Repr && all[i] in Repr && cells[i].data == all[i])
      && Chain(cells) && At(nodes, cells, 0)
    }

    /** The nodes hold what `topo` records, and the other lists hold their cells. */
    ghost predicate HoldsTopo()
      reads this`cells, this`all, this`servs, this`servPlaces, this`clits, this`clitPlaces, this`topo, all`neighbors,
            all`places, all`seqNum
    {
      && Records(cells, all, topo.order, topo.info)
      && PlacedAt(cells, topo.order, servs, servPlaces, topo.servs)
      && PlacedAt(cells, topo.order, clits, clitPlaces, topo.clits)
    }

    constructor ()
      ensures Valid() && topo == EMPTY && routingTable == [] && queries == 0 && Repr == {}
    {
      nodes, servs, clits, routingTable, queryCount := null, [], [], [], 0;
      cells, all, Repr, servPlaces, clitPlaces, topo, queries := [], [], {}, [], [], EMPTY, 0;
    }

    /** Finding a cell of the list of nodes in another list, as `mlist_find` does, is finding its name among
      * the names.
      */
    lemma CellsAreNames(i: nat, cs: seq<MList<Node>>, places: seq<nat>, names: seq<Name>)
      requires Valid() && i < |cells| && PlacedAt(cells, topo.order, cs, places, names)
      ensures cells[i] in cs <==> topo.order[i] in names
    {
      PlacesFound(cells, topo.order, cs, places, names, i);
    }

    /** Names identify nodes, and nodes their cells. */
    lemma NamesAreUnique(n: nat)
      requires Valid() && n < |all|
      ensures all[n].name == topo.order[n] && topo.order[n] in topo.info && cells[n].data == all[n]
      ensures forall i :: 0 <= i < |all| && i != n ==>
              all[i].name != all[n].name && all[i] != all[n] && cells[i] != cells[n]
    {
      assert Tied(cells, topo.order, topo.info, all[n], n);
      forall i | 0 <= i < |all| && i != n
        ensures all[i].name != all[n].name && all[i] != all[n] && cells[i] != cells[n]
      {
        assert Tied(cells, topo.order, topo.info, all[i], i);
      }
    }

    /** Whatever is on the lists of cells is a cell of the list of nodes, so that `unmark` reaches its node. */
    lemma ListsHoldCells(x: Node, cell: MList<Node>)
      requires Valid() && x in all && (cell in servs || cell in clits || cell in x.neighbors)
      ensures cell in cells && cell.data in all
    {
      var n :| 0 <= n < |all| && all[n] == x;
      assert Tied(cells, topo.order, topo.info, all[n], n);
      if cell in servs {
        var k :| 0 <= k < |servs| && servs[k] == cell;
        assert cells[servPlaces[k]].data == all[servPlaces[k]];
      } else if cell in clits {
        var k :| 0 <= k < |clits| && clits[k] == cell;
        assert cells[clitPlaces[k]].data == all[clitPlaces[k]];
      } else {
        var k :| 0 <= k < |x.neighbors| && x.neighbors[k] == cell;
        assert cells[x.places[k]].data == all[x.places[k]];
      }
    }

    /** `mlist_find_custom(nodes, name, find_node_by_name)`; `i` is the position of the cell found. */
    method FindNodeByName(name: Name) returns (cell: MList?<Node>, ghost i: nat)
      requires Valid()
      ensures At(cell, cells, i)
      ensures if name in topo.order then i < |cells| && topo.order[i] == name else cell == null
    {
      var isNamed := (node: Node) => node.name == name;
      cell := FindCustom(nodes, isNamed, cells);
      i := FirstFrom(Data(cells), isNamed, 0);
      forall j | 0 <= j < |all|
        ensures Data(cells)[j].name == topo.order[j]
      {
        assert Tied(cells, topo.order, topo.info, all[j], j);
      }
    }

    method AddNewNode(name: Name) returns (cell: MList<Node>, ghost i: nat)
      requires Valid()
      modifies this`nodes, this`cells, this`all, this`Repr, this`topo, Repr
      ensures Valid() && topo == AddNode(old(topo), name)
      ensures i < |cells| && cells[i] == cell && topo.order[i] == name
      ensures fresh(Repr - old(Repr)) && old(all) <= all
    {
      var tmp;
      tmp, i := FindNodeByName(name);
      if tmp == null {
        AppendNode(name);
        tmp, i := FindNodeByName(name);
      }
      cell := tmp;
    }

    /** A bare node at the end of the list. */
    method AppendNode(name: Name)
      requires Valid() && name !in topo.order
      modifies this`nodes, this`cells, this`all, this`Repr, this`topo, Repr
      ensures Valid() && topo == AddNode(old(topo), name)
      ensures fresh(Repr - old(Repr)) && old(all) <= all
    {
      ghost var cells0, all0 := cells, all;
      AppendToList(name);
      RecordsGrown(cells0, all0, topo.order, topo.info, cells[|all0|], all[|all0|]);
      PlacesKept(cells0, topo.order, cells[|all0|], name, servs, servPlaces, topo.servs);
      PlacesKept(cells0, topo.order, cells[|all0|], name, clits, clitPlaces, topo.clits);
      AddNodeKeeps(topo, name);
      topo := AddNode(topo, name);
    }

    method AppendToList(name: Name)
      requires Listed()
      modifies this`nodes, this`cells, this`all, this`Repr, cells`next
      ensures Listed() && |cells| == |all| == |old(cells)| + 1
      ensures cells == old(cells) + [cells[|old(cells)|]] && all == old(all) + [all[|old(cells)|]]
      ensures IsBare(all[|old(cells)|], name)
      ensures fresh(Repr - old(Repr))
    {
      var node := new Node(name);
      nodes, cells := AppendCell(nodes, node, cells);
      all, Repr := all + [node], Repr + {node, cells[|all|]};
    }

    /** The test on cells keeps the names on the list of neighbours distinct. */
    method AddNewNeighbor(node: Node, neighbor: MList<Node>, ghost n: nat, ghost m: nat)
      requires Valid() && n < |all| && all[n] == node && m < |cells| && cells[m] == neighbor
      modifies node`neighbors, node`places, this`topo
      ensures Valid() && topo == AddEdge(old(topo), old(topo.order[n]), old(topo.order[m]))
    {
      ghost var t := topo;
      assert t.order[n] in t.order && t.order[m] in t.order;
      AddEdgeKeeps(t, t.order[n], t.order[m]);
      ghost var t' := AddEdge(t, t.order[n], t.order[m]);
      PutNeighbor(node, neighbor, cells, all, t, n, m);
      assert Listed();
      topo := t';
    }

    /** One turn of the loop of `parse_servs`: the line names a server once its last character is dropped. */
    method ParseServ(line: string)
      requires Valid() && line != []
      requires topo.clits == []
      modifies this`servs, this`servPlaces, this`nodes, this`cells, this`all, this`Repr, this`topo, Repr
      ensures Valid() && topo == AddServer(old(topo), line[..|line| - 1])
      ensures fresh(Repr - old(Repr)) && old(all) <= all
    {
      var name := line[..|line| - 1];
      var tmp;
      ghost var i;
      tmp, i := AddNewNode(name);
      NoteServer(tmp, name, i);
    }

    method NoteServer(tmp: MList<Node>, name: Name, ghost i: nat)
      requires Valid() && i < |cells| && cells[i] == tmp && topo.order[i] == name
      requires topo.clits == []
      modifies this`servs, this`servPlaces, this`topo
      ensures Valid() && topo == old(topo).(servs := old(topo).servs + [name])
    {
      servs, servPlaces := servs + [tmp], servPlaces + [i];
      ServerNotedKeeps(topo, name);
      topo := topo.(servs := topo.servs + [name]);
    }

    method ParseServs(lines: seq<string>)
      requires Valid() && topo == EMPTY && Repr == {}
      requires forall i :: 0 <= i < |lines| ==> lines[i] != []
      modifies this`servs, this`servPlaces, this`nodes, this`cells, this`all, this`Repr, this`topo
      ensures Valid() && topo == LoadServers(Chopped(lines))
      ensures fresh(Repr)
    {
      ghost var names := Chopped(lines);
      for i := 0 to |lines|
        invariant Valid() && topo == LoadServers(names[..i])
        invariant fresh(Repr)
      {
        LoadServersStep(names, i);
        ParseServ(lines[i]);
      }
      assert names[..|lines|] == names;
    }

    /** The inner loop of `parse_LSA`. */
    method ReadNeighbors(node: Node, names: seq<Name>, ghost n: nat)
      requires Valid() && n < |all| && all[n] == node
      modifies this`nodes, this`cells, this`all, this`Repr, this`topo, Repr
      ensures Valid() && node.name in old(topo).info && topo == AddNeighbors(old(topo), node.name, names)
      ensures fresh(Repr - old(Repr)) && old(all) <= all
    {
      ghost var t := topo;
      assert Tied(cells, topo.order, topo.info, all[n], n);
      for i := 0 to |names|
        invariant Valid() && fresh(Repr - old(Repr)) && old(all) <= all
        invariant topo == AddNeighbors(t, node.name, names[..i])
      {
        AddNeighborsStep(t, node.name, names, i);
        ReadNeighbor(node, names[i], n);
      }
      assert names[..|names|] == names;
    }

    /** One turn of it. */
    method ReadNeighbor(node: Node, name: Name, ghost n: nat)
      requires Valid() && n < |all| && all[n] == node
      modifies this`nodes, this`cells, this`all, this`Repr, this`topo, Repr
      ensures Valid() && node.name in old(topo).info && topo == AddNeighbor(old(topo), node.name, name)
      ensures fresh(Repr - old(Repr)) && old(all) <= all
    {
      assert Tied(cells, topo.order, topo.info, all[n], n);
      var tmp;
      ghost var m;
      tmp, m := AddNewNode(name);
      assert Tied(cells, topo.order, topo.info, all[n], n);
      AddNewNeighbor(node, tmp, n, m);
    }

    /** The client list of `parse_LSA`: whoever advertises and is neither server nor router. */
    method NoteClient(tmp: MList<Node>, name: Name, ghost i: nat)
      requires Valid() && i < |cells| && cells[i] == tmp && topo.order[i] == name
      modifies this`clits, this`clitPlaces, this`topo
      ensures Valid() && topo == AddClient(old(topo), name)
    {
      CellsAreNames(i, servs, servPlaces, topo.servs);
      CellsAreNames(i, clits, clitPlaces, topo.clits);
      if tmp !in servs {
        if !StartsWith(name, "router") {
          if tmp !in clits {
            AppendClient(tmp, name, i);
          }
        }
      }
    }

    method AppendClient(tmp: MList<Node>, name: Name, ghost i: nat)
      requires Valid() && i < |cells| && cells[i] == tmp && topo.order[i] == name
      requires name !in topo.servs && !IsRouter(name) && name !in topo.clits
      modifies this`clits, this`clitPlaces, this`topo
      ensures Valid() && topo == AddClient(old(topo), name)
    {
      clits, clitPlaces := clits + [tmp], clitPlaces + [i];
      AddClientKeeps(topo, name);
      topo := AddClient(topo, name);
    }

    /** A newer advert: its number is recorded and the neighbours are forgotten. */
    method RestartNode(node: Node, seqNum: int, ghost n: nat)
      requires Valid() && n < |all| && all[n] == node
      modifies this`topo, node`seqNum, node`neighbors, node`places
      ensures Valid() && node.name in old(topo).info && topo == Restart(old(topo), node.name, seqNum)
    {
      ghost var t := topo;
      assert Tied(cells, t.order, t.info, all[n], n);
      ResetNode(node, seqNum, cells, all, t.order, t.info, n);
      RestartKeeps(t, node.name, seqNum);
      topo := Restart(t, node.name, seqNum);
    }

    /** One line of the advert file. */
    method ParseAdvert(a: Advert)
      requires Valid()
      modifies this`clits, this`clitPlaces, this`nodes, this`cells, this`all, this`Repr, this`topo, Repr
      ensures Valid() && topo == ApplyAdvert(old(topo), a)
      ensures fresh(Repr - old(Repr)) && old(all) <= all
    {
      var node;
      ghost var n;
      node, n := Announce(a.name);
      if node.seqNum < a.seqNum {
        Renew(node, a, n);
      }
    }

    /** What happens on every line: its node is there, and listed if it is a client. */
    method Announce(name: Name) returns (node: Node, ghost n: nat)
      requires Valid()
      modifies this`clits, this`clitPlaces, this`nodes, this`cells, this`all, this`Repr, this`topo, Repr
      ensures Valid() && topo == AddClient(AddNode(old(topo), name), name)
      ensures n < |all| && all[n] == node && node.name == name && name in topo.info &&
              node.seqNum == topo.info[name].seqNum
      ensures fresh(Repr - old(Repr)) && old(all) <= all
    {
      var tmp;
      tmp, n := AddNewNode(name);
      node := tmp.data;
      assert node == all[n];
      NoteClient(tmp, name, n);
      assert Tied(cells, topo.order, topo.info, node, n);
    }

    /** A newer advert replaces what its node has. */
    method Renew(node: Node, a: Advert, ghost n: nat)
      requires Valid() && n < |all| && all[n] == node && node.name == a.name
      modifies this`nodes, this`cells, this`all, this`Repr, this`topo, Repr
      ensures Valid() && topo == AddNeighbors(Restart(old(topo), a.name, a.seqNum), a.name, a.neighbors)
      ensures fresh(Repr - old(Repr)) && old(all) <= all
    {
      RestartNode(node, a.seqNum, n);
      ReadNeighbors(node, a.neighbors, n);
    }

    method ParseLsa(adverts: seq<Advert>)
      requires Valid()
      modifies this`clits, this`clitPlaces, this`nodes, this`cells, this`all, this`Repr, this`topo, Repr
      ensures Valid() && topo == LoadAdverts(old(topo), adverts)
      ensures fresh(Repr - old(Repr)) && old(all) <= all
    {
      ghost var t := topo;
      for i := 0 to |adverts|
        invariant Valid() && fresh(Repr - old(Repr)) && old(all) <= all
        invariant topo == LoadAdverts(t, adverts[..i])
      {
        LoadAdvertsStep(t, adverts, i);
        ParseAdvert(adverts[i]);
      }
      assert adverts[..|adverts|] == adverts;
    }

    // ---- start-up and answering ----

    /** The state spells out the graph of the newest adverts; `at` is each node's cell by its name. */
    lemma StateSpellsGraph() returns (at: map<Name, MList<Node>>)
      requires Valid()
      ensures Spells(at, all, servs, Adjacency(topo), ServSet(topo))
      ensures Data(cells) == all && Located(at, all)
    {
      at := CellMap(cells, topo.order);
      forall i | 0 <= i < |all|
        ensures SpelledAt(at, cells, all, topo.order, servs, Adjacency(topo), ServSet(topo), i)
      {
        NodeSpellsNeighbors(at, i);
        CellsAreNames(i, servs, servPlaces, topo.servs);
        NamesAreUnique(i);
      }
      AllSpelled(at, cells, all, topo.order, servs, Adjacency(topo), ServSet(topo));
    }

    lemma NodeSpellsNeighbors(at: map<Name, MList<Node>>, i: nat)
      requires Valid() && i < |all|
      requires forall j :: 0 <= j < |topo.order| ==> topo.order[j] in at && at[topo.order[j]] == cells[j]
      ensures all[i].name == topo.order[i] && CellsOf(at, all[i].neighbors, Nbrs(Adjacency(topo), all[i].name))
    {
      assert Tied(cells, topo.order, topo.info, all[i], i);
      PlacesMapped(cells, topo.order, at, all[i].neighbors, all[i].places, topo.info[all[i].name].neighbors);
    }

    /** The search over the state's nodes touches nothing but marks. */
    method FindFrom(clit: Node) returns (serv: Node?)
      requires Valid() && clit in all
      modifies all`mark
      ensures Valid()
      ensures ServerFor(topo, clit.name) == if serv == null then None else Some(serv.name)
    {
      ghost var at := StateSpellsGraph();
      serv := FindServer(nodes, servs, clit, cells, at, all, Adjacency(topo), ServSet(topo));
    }

    /** `shortest_path` for the client called `c`: a new entry, filled in with a nearest server.  `ok` is false
      * where the source reaches `assert(0)`.
      */
    method ShortestPath(data: MList<Node>, ghost c: Name) returns (ok: bool)
      requires Valid() && data.data in all && data.data.name == c
      modifies this`routingTable, all`mark
      ensures Valid()
      ensures ok <==> ServerFor(topo, c).Some?
      ensures |routingTable| == |old(routingTable)| + 1 && routingTable[..|old(routingTable)|] == old(routingTable)
      ensures ok ==> EntryIs(topo, routingTable[|old(routingTable)|], c)
    {
      var at, clit := |routingTable|, data.data;
      routingTable := routingTable + [RtEntry(clit, null)];
      var serv := FindFrom(clit);
      if serv != null {
        SetServer(at, serv);
      }
      ok := serv != null;
    }

    /** `new_entry->serv = tmp` */
    method SetServer(at: nat, serv: Node)
      requires Valid() && at < |routingTable|
      modifies this`routingTable
      ensures Valid() && routingTable == old(routingTable)[at := RtEntry(old(routingTable)[at].clit, serv)]
    {
      routingTable := routingTable[at := RtEntry(routingTable[at].clit, serv)];
    }

    /** The table has one entry for every client, in order, with the server that the search finds. */
    ghost predicate TableBuilt()
      reads this`routingTable, this`topo
    {
      TableIs(topo, routingTable, topo.clits)
    }

    lemma ClientCell(i: nat)
      requires Valid() && i < |clits|
      ensures |clits| == |topo.clits| && clits[i].data in all && clits[i].data.name == topo.clits[i]
    {
      var k := clitPlaces[i];
      assert Tied(cells, topo.order, topo.info, all[k], k) && cells[k].data == all[k];
    }

    /** `mlist_foreach(clits, shortest_path, NULL)`, up to the first client whose search fails. */
    method BuildTable() returns (ok: bool)
      requires Valid() && routingTable == []
      modifies this`routingTable, all`mark
      ensures Valid() && (ok <==> AllServed(topo))
      ensures ok ==> TableBuilt()
    {
      ok := true;
      var i := 0;
      ghost var names := topo.clits;
      while i < |clits|
        invariant Valid() && i <= |clits| == |names|
        invariant TableIs(topo, routingTable, names[..i])
      {
        ClientCell(i);
        ghost var table := routingTable;
        ok := ShortestPath(clits[i], names[i]);
        if !ok {
          SomeoneUnserved(topo, names[i]);
          return;
        }
        TableExtended(topo, table, routingTable, names, i);
        i := i + 1;
      }
      assert names[..|names|] == names;
      TableServesAll(topo, routingTable);
    }

    /** `OSPF_init`; in round-robin mode the adverts are not read. */
    method OspfInit(lines: seq<string>, adverts: seq<Advert>, rr: bool) returns (ok: bool)
      requires Valid() && topo == EMPTY && Repr == {} && routingTable == []
      requires forall i :: 0 <= i < |lines| ==> lines[i] != []
      modifies this`nodes, this`cells, this`all, this`Repr, this`servs, this`servPlaces, this`clits, this`clitPlaces,
               this`topo, this`routingTable
      ensures Valid()
      ensures topo == if rr then LoadServers(Chopped(lines)) else Load(Chopped(lines), adverts)
      ensures ok <==> rr || AllServed(topo)
      ensures ok && !rr ==> TableBuilt()
    {
      ParseServs(lines);
      if rr {
        return true;
      }
      ParseLsa(adverts);
      ok := BuildTable();
    }

    /** `route`: in round-robin mode the next server in turn, otherwise the client's nearest server.  None
      * stands for a division by zero or a NULL pointer in the source.
      */
    method Route(clitName: Name, rr: bool) returns (r: Option<Name>)
      requires Valid() && (rr || TableBuilt())
      modifies this`queryCount, this`queries
      ensures Valid()
      ensures r == if rr then InTurn(topo.order, old(queries)) else Routed(topo, clitName)
      ensures queries == old(queries) + if rr && r.Some? then 1 else 0
    {
      if rr {
        r := RouteInTurn();
      } else {
        r := RouteNearest(clitName);
      }
    }

    /** `route` by round robin */
    method RouteInTurn() returns (r: Option<Name>)
      requires Valid()
      modifies this`queryCount, this`queries
      ensures Valid()
      ensures r == InTurn(topo.order, old(queries))
      ensures queries == old(queries) + if r.Some? then 1 else 0
    {
      r := NameInTurn();
      if r.Some? {
        RoundRobin.CounterStep(queries);
        queryCount := (queryCount + 1) % RoundRobin.WRAP;
        queries := queries + 1;
      }
    }

    /** `mlist_length` and the counter are 32 bits wide. */
    method NameInTurn() returns (r: Option<Name>)
      requires Valid()
      ensures r == InTurn(topo.order, queries)
    {
      var length := Length(nodes, cells);
      var size := length % RoundRobin.WRAP;
      if size == 0 {
        return None;
      }
      var turn := queryCount % size;
      var node := GetData(nodes, turn, cells);
      assert turn < |all| && Tied(cells, topo.order, topo.info, all[turn], turn);
      r := Some(node.value.name);
    }

    /** `route` answering from the table: the nearest server of a client, and nothing for anyone else (the
      * source then dereferences NULL).
      */
    method RouteNearest(clitName: Name) returns (r: Option<Name>)
      requires TableBuilt()
      ensures r == Routed(topo, clitName)
    {
      var i := 0;
      while i < |routingTable|
        invariant i <= |routingTable| && forall k :: 0 <= k < i ==> topo.clits[k] != clitName
      {
        assert EntryIs(topo, routingTable[i], topo.clits[i]);
        if routingTable[i].clit.name == clitName {
          return Some(routingTable[i].serv.name);
        }
        i := i + 1;
      }
      r := None;
    }
  }

  /** The server file's lines without their last character, which is the newline unless the file ends without one. */
  function Chopped(lines: seq<string>): (names: seq<Name>)
    requires forall i :: 0 <= i < |lines| ==> lines[i] != []
    ensures |names| == |lines|
    ensures forall i :: 0 <= i < |lines| ==> names[i] + [lines[i][|lines[i]| - 1]] == lines[i]
  {
    seq(|lines|, i requires 0 <= i < |lines| => lines[i][..|lines[i]| - 1])
  }

  /** A change to one node and its record. */
  lemma RecordsChanged(cells: seq<MList<Node>>, all: seq<Node>, order: seq<Name>, info: map<Name, NodeInfo>,
                       info': map<Name, NodeInfo>, n: nat)
    requires |cells| == |all| == |order| && Distinct(order) && n < |all| && Tied(cells, order, info', all[n], n)
    requires forall i :: 0 <= i < |all| && i != n ==> Tied(cells, order, info, all[i], i)
    requires forall m :: m in info && m != order[n] ==> m in info' && info'[m] == info[m]
    ensures Records(cells, all, order, info')
  {
    forall i | 0 <= i < |all|
      ensures Tied(cells, order, info', all[i], i)
    {
      assert i != n ==> Tied(cells, order, info, all[i], i);
    }
  }

  /** Looking for a cell of the list among other cells is looking for its name among their names. */
  lemma PlacesFound(cells: seq<MList<Node>>, order: seq<Name>, cs: seq<MList<Node>>, places: seq<nat>, names: seq<Name>,
                    m: nat)
    requires PlacedAt(cells, order, cs, places, names) && Distinct(cells) && Distinct(order) && m < |cells|
    ensures cells[m] in cs <==> order[m] in names
  {
    forall k | 0 <= k < |cs|
      ensures cs[k] == cells[m] <==> names[k] == order[m]
    {
      assert places[k] < |order|;
    }
  }

  /** In terms of a map from names to cells. */
  lemma PlacesMapped(cells: seq<MList<Node>>, order: seq<Name>, at: map<Name, MList<Node>>, cs: seq<MList<Node>>,
                     places: seq<nat>, names: seq<Name>)
    requires PlacedAt(cells, order, cs, places, names)
    requires forall i :: 0 <= i < |order| ==> order[i] in at && at[order[i]] == cells[i]
    ensures CellsOf(at, cs, names)
  {
    forall k | 0 <= k < |cs|
      ensures names[k] in at && at[names[k]] == cs[k]
    {
      assert places[k] < |order|;
    }
  }

  /** Each node's cell by its name. */
  ghost function CellMap(cells: seq<MList<Node>>, order: seq<Name>): (at: map<Name, MList<Node>>)
    requires |cells| == |order| && Distinct(order)
    ensures forall i :: 0 <= i < |order| ==> order[i] in at && at[order[i]] == cells[i]
    ensures forall n :: n in at ==> n in order
  {
    map i | 0 <= i < |order| :: order[i] := cells[i]
  }

  /** What the `i`th node contributes to spelling out the graph. */
  ghost predicate SpelledAt(at: map<Name, MList<Node>>, cells: seq<MList<Node>>, all: seq<Node>, order: seq<Name>,
                            servs: seq<MList<Node>>, g: Graph, servers: set<Name>, i: nat)
    requires i < |cells| && i < |all| && i < |order|
    reads all`neighbors, cells`data
  {
    && CellsOf(at, all[i].neighbors, Nbrs(g, all[i].name)) && (cells[i] in servs <==> order[i] in servers)
    && cells[i].data == all[i] && all[i].name == order[i]
  }

  lemma AllSpelled(at: map<Name, MList<Node>>, cells: seq<MList<Node>>, all: seq<Node>, order: seq<Name>,
                   servs: seq<MList<Node>>, g: Graph, servers: set<Name>)
    requires |cells| == |all| == |order| && Distinct(order) && at == CellMap(cells, order)
    requires forall i :: 0 <= i < |all| ==> SpelledAt(at, cells, all, order, servs, g, servers, i)
    ensures Spells(at, all, servs, g, servers) && Data(cells) == all && Located(at, all)
  {
    forall x | x in all
      ensures CellsOf(at, x.neighbors, Nbrs(g, x.name))
      ensures exists i :: 0 <= i < |all| && all[i] == x && order[i] == x.name
    {
      var i :| 0 <= i < |all| && all[i] == x;
      assert SpelledAt(at, cells, all, order, servs, g, servers, i);
    }
    forall n | n in at
      ensures (at[n] in servs <==> n in servers) && at[n].data in all && at[n].data.name == n
    {
      var i :| 0 <= i < |order| && order[i] == n;
      assert SpelledAt(at, cells, all, order, servs, g, servers, i);
    }
    forall i | 0 <= i < |all|
      ensures Data(cells)[i] == all[i]
    {
      assert SpelledAt(at, cells, all, order, servs, g, servers, i);
    }
  }

  lemma OthersDiffer(cells: seq<MList<Node>>, all: seq<Node>, order: seq<Name>, info: map<Name, NodeInfo>, n: nat)
    requires Records(cells, all, order, info) && Distinct(order) && n < |all|
    ensures forall i :: 0 <= i < |all| && i != n ==> all[i] != all[n]
  {
    forall i | 0 <= i < |all| && i != n
      ensures all[i] != all[n]
    {
      assert Tied(cells, order, info, all[i], i) && Tied(cells, order, info, all[n], n);
    }
  }

  /** The change that `add_new_neighbor` makes to one node. */
  method PutNeighbor(node: Node, neighbor: MList<Node>, ghost cells: seq<MList<Node>>, ghost all: seq<Node>,
                     ghost t: Topo, ghost n: nat, ghost m: nat)
    requires Records(cells, all, t.order, t.info) && Distinct(cells) && Distinct(t.order)
    requires n < |all| && all[n] == node && m < |cells| && cells[m] == neighbor
    requires t.order[n] in t.info
    modifies node`neighbors, node`places
    ensures Records(cells, all, t.order, AddEdge(t, t.order[n], t.order[m]).info)
  {
    assert Tied(cells, t.order, t.info, all[n], n);
    OthersDiffer(cells, all, t.order, t.info, n);
    PlacesFound(cells, t.order, node.neighbors, node.places, t.info[t.order[n]].neighbors, m);
    if neighbor !in node.neighbors {
      node.neighbors, node.places := node.neighbors + [neighbor], node.places + [m];
    }
    forall i | 0 <= i < |all| && i != n
      ensures Tied(cells, t.order, t.info, all[i], i)
    {
      assert old(Tied(cells, t.order, t.info, all[i], i));
    }
    RecordsChanged(cells, all, t.order, t.info, AddEdge(t, t.order[n], t.order[m]).info, n);
  }

  /** The change that a newer advert makes to its node first. */
  method ResetNode(node: Node, seqNum: int, ghost cells: seq<MList<Node>>, ghost all: seq<Node>,
                   ghost order: seq<Name>, ghost info: map<Name, NodeInfo>, ghost n: nat)
    requires Records(cells, all, order, info) && Distinct(order)
    requires n < |all| && all[n] == node
    requires order[n] in info
    modifies node`seqNum, node`neighbors, node`places
    ensures Records(cells, all, order, info[order[n] := NodeInfo(seqNum, [])])
  {
    assert Tied(cells, order, info, all[n], n);
    OthersDiffer(cells, all, order, info, n);
    node.seqNum := seqNum;
    node.neighbors, node.places := [], [];
    forall i | 0 <= i < |all| && i != n
      ensures Tied(cells, order, info, all[i], i)
    {
      assert old(Tied(cells, order, info, all[i], i));
    }
    RecordsChanged(cells, all, order, info, info[order[n] := NodeInfo(seqNum, [])], n);
  }

  /** One more node at the end of the list. */
  method AppendCell(list: MList?<Node>, node: Node, ghost cells: seq<MList<Node>>)
    returns (list': MList<Node>, ghost cells': seq<MList<Node>>)
    requires Chain(cells) && At(list, cells, 0)
    modifies cells`next
    ensures Chain(cells') && At(list', cells', 0)
    ensures |cells'| == |cells| + 1 && cells' == cells + [cells'[|cells|]] && fresh(cells'[|cells|]) &&
            cells'[|cells|].data == node
  {
    list', cells' := Append(list, node, cells, 0);
    assert Data(cells')[|cells|] == node;
  }

  /** Lists of cells keep their meaning when a node is added. */
  lemma PlacesKept(cells: seq<MList<Node>>, order: seq<Name>, cell: MList<Node>, n: Name, cs: seq<MList<Node>>,
                   places: seq<nat>, names: seq<Name>)
    requires PlacedAt(cells, order, cs, places, names)
    ensures PlacedAt(cells + [cell], order + [n], cs, places, names)
  {
  }

  /** A bare node at the end of the list is a new node in the record. */
  lemma RecordsGrown(cells: seq<MList<Node>>, all: seq<Node>, order: seq<Name>, info: map<Name, NodeInfo>,
                     cell: MList<Node>, node: Node)
    requires Records(cells, all, order, info) && node.name !in order
    requires IsBare(node, node.name)
    ensures Records(cells + [cell], all + [node], order + [node.name], info[node.name := BARE])
  {
    forall i | 0 <= i < |all|
      ensures Tied(cells + [cell], order + [node.name], info[node.name := BARE], all[i], i)
    {
      assert Tied(cells, order, info, all[i], i);
      PlacesKept(cells, order, cell, node.name, all[i].neighbors, all[i].places, info[order[i]].neighbors);
    }
  }
}
