/** The proxy's pool, in place: the slot tables of src/pool.h and the functions of src/pool.c and
  * src/conn.c that change and search them.
  */
module Pools {
  import opened Options
  import PS = PoolState

  class Client {
    const fd: int
    const addr: nat
    var numServ: int
    ghost const slot: int

    constructor (fd: int, addr: nat, ghost slot: int)
      ensures this.fd == fd && this.addr == addr && numServ == 0 && this.slot == slot
    {
      this.fd, this.addr, numServ, this.slot := fd, addr, 0, slot;
    }
  }

  class Server {
    const fd: int
    const addr: nat
    var numClit: int
    ghost const slot: int

    constructor (fd: int, addr: nat, ghost slot: int)
      ensures this.fd == fd && this.addr == addr && numClit == 0 && this.slot == slot
    {
      this.fd, this.addr, numClit, this.slot := fd, addr, 0, slot;
    }
  }

  class Conn {
    const servIdx: nat
    const clitIdx: nat
    var tPut: int
    var avgPut: int
    var curBitrate: int
    var alive: bool

    constructor (servIdx: nat, clitIdx: nat)
      ensures this.servIdx == servIdx && this.clitIdx == clitIdx && Unused()
    {
      this.servIdx, this.clitIdx, tPut, avgPut, curBitrate, alive := servIdx, clitIdx, 0, 0, 10, true;
    }

    /** As a new connection is, before any chunk: no throughput yet, and the lowest bitrate. */
    ghost predicate Unused()
      reads this
    {
      tPut == 0 && avgPut == 0 && curBitrate == 10 && alive
    }
  }

  /** The record in slot `i` of a table is what the state says. */
  ghost predicate ClientTied(x: Client?, i: int, y: Option<PS.Client>, recs: set<object>)
    reads set o: object | o in recs && o == x
  {
    match y
    case None => x == null
    case Some(c) => x != null && x in recs && x.slot == i && PS.Client(x.fd, x.addr, x.numServ) == c
  }

  ghost predicate ServerTied(x: Server?, i: int, y: Option<PS.Server>, recs: set<object>)
    reads set o: object | o in recs && o == x
  {
    match y
    case None => x == null
    case Some(v) => x != null && x in recs && x.slot == i && PS.Server(x.fd, x.addr, x.numClit) == v
  }

  ghost predicate ConnTied(x: Conn?, y: Option<PS.Conn>) {
    match y
    case None => x == null
    case Some(z) => x != null && PS.Conn(x.servIdx, x.clitIdx) == z
  }

  class Pool {
    const clientL: array<Client?>
    const serverL: array<Server?>
    const connL: array<Conn?>
    var curClient: int
    var curServer: int
    var curConn: int
    var maxClit: int
    var maxServ: int
    var maxConn: int
    var readSet: set<int>
    var writeSet: set<int>
    var maxfd: int
    ghost var st: PS.State
    ghost var Recs: set<object>  // the records in the tables

    ghost predicate Valid()
      reads this, clientL, serverL, connL, Recs
    {
      Tables() && Scalars()
    }

    ghost predicate Tables()
      reads this`st, this`Recs, clientL, serverL, connL, Recs
    {
      && clientL.Length == |st.clients| && serverL.Length == |st.servers| && connL.Length == |st.conns|
      && this !in Recs && clientL !in Recs && serverL !in Recs && connL !in Recs
      && (forall i :: 0 <= i < clientL.Length ==> ClientTied(clientL[i], i, st.clients[i], Recs))
      && (forall i :: 0 <= i < serverL.Length ==> ServerTied(serverL[i], i, st.servers[i], Recs))
      && (forall i :: 0 <= i < connL.Length ==> ConnTied(connL[i], st.conns[i]))
    }

    ghost predicate Scalars()
      reads this
    {
      && st.curClient == curClient && st.curServer == curServer && st.curConn == curConn
      && st.maxClit == maxClit && st.maxServ == maxServ && st.maxConn == maxConn
      && st.readSet == readSet && st.writeSet == writeSet && st.maxfd == maxfd
    }

    /** `init_pool`, with FD_SETSIZE slots in each table. */
    constructor (size: nat, listenFd: int)
      ensures Valid() && st == PS.Initial(size, listenFd)
      ensures fresh(clientL) && fresh(serverL) && fresh(connL) && Recs == {}
    {
      clientL := new Client?[size](_ => null);
      serverL := new Server?[size](_ => null);
      connL := new Conn?[size](_ => null);
      curClient, curServer, curConn := 0, 0, 0;
      maxClit, maxServ, maxConn := -1, -1, -1;
      readSet, writeSet, maxfd := {listenFd}, {}, listenFd;
      st, Recs := PS.Initial(size, listenFd), {};
    }

    /** FD_SET in both sets, and the bound for `select`. */
    method Watch(sock: int)
      requires Valid()
      modifies this`readSet, this`writeSet, this`maxfd, this`st
      ensures Valid()
      ensures st == old(st).(readSet := old(st).readSet + {sock}, writeSet := old(st).writeSet +
              {sock}, maxfd := PS.Max(old(st).maxfd, sock))
    {
      readSet := readSet + {sock};
      writeSet := writeSet + {sock};
      if sock > maxfd {
        maxfd := sock;
      }
      st := st.(readSet := readSet, writeSet := writeSet, maxfd := maxfd);
    }

    method PutClient(i: nat, sock: int, addr: nat)
      requires Valid() && i < clientL.Length && st.clients[i] == None
      modifies this`st, this`Recs, this`curClient, this`maxClit, clientL
      ensures Valid() && st == old(st).(clients := old(st).clients[i := Some(PS.Client(sock, addr, 0))],
                                        curClient := old(st).curClient + 1, maxClit := PS.Max(old(st).maxClit, i))
      ensures fresh(Recs - old(Recs))
    {
      var client := new Client(sock, addr, i);
      clientL[i] := client;
      curClient := curClient + 1;
      maxClit := PS.Max(maxClit, i);
      st := st.(clients := st.clients[i := Some(PS.Client(sock, addr, 0))], curClient := curClient, maxClit := maxClit);
      Recs := Recs + {client};
    }

    method AddClient(sock: int, addr: nat) returns (i: int)
      requires Valid()
      modifies this, clientL
      ensures Valid() && (st, i) == PS.AddClient(old(st), sock, addr)
      ensures fresh(Recs - old(Recs))
    {
      i := FreeClientSlot();
      if i == -1 {
        return;
      }
      PutClient(i, sock, addr);
      Watch(sock);
    }

    method FreeClientSlot() returns (i: int)
      requires Valid()
      ensures i == PS.FirstFree(st.clients, 0)
    {
      i := 0;
      while i < clientL.Length
        invariant 0 <= i <= clientL.Length
        invariant PS.FirstFree(st.clients, 0) == PS.FirstFree(st.clients, i)
      {
        if clientL[i] == null {
          return;
        }
        i := i + 1;
      }
      i := -1;
    }

    method FreeServerSlot() returns (i: int)
      requires Valid()
      ensures i == PS.FirstFree(st.servers, 0)
    {
      i := 0;
      while i < serverL.Length
        invariant 0 <= i <= serverL.Length
        invariant PS.FirstFree(st.servers, 0) == PS.FirstFree(st.servers, i)
      {
        if serverL[i] == null {
          return;
        }
        i := i + 1;
      }
      i := -1;
    }

    method PutServer(i: nat, sock: int, addr: nat)
      requires Valid() && i < serverL.Length && st.servers[i] == None
      modifies this`st, this`Recs, this`curServer, this`maxServ, serverL
      ensures Valid() && st == old(st).(servers := old(st).servers[i := Some(PS.Server(sock, addr, 0))],
                                        curServer := old(st).curServer + 1, maxServ := PS.Max(old(st).maxServ, i))
      ensures fresh(Recs - old(Recs))
    {
      var server := new Server(sock, addr, i);
      serverL[i] := server;
      curServer := curServer + 1;
      maxServ := PS.Max(maxServ, i);
      st := st.(servers := st.servers[i := Some(PS.Server(sock, addr, 0))], curServer := curServer, maxServ := maxServ);
      Recs := Recs + {server};
    }

    method AddServer(sock: int, addr: nat) returns (i: int)
      requires Valid()
      modifies this, serverL
      ensures Valid() && (st, i) == PS.AddServer(old(st), sock, addr)
      ensures fresh(Recs - old(Recs))
    {
      i := FreeServerSlot();
      if i == -1 {
        return;
      }
      PutServer(i, sock, addr);
      Watch(sock);
    }

    // ---- connections ----

    method FreeConnSlot() returns (i: int)
      requires Valid()
      ensures i == PS.FirstFree(st.conns, 0)
    {
      i := 0;
      while i < connL.Length
        invariant 0 <= i <= connL.Length
        invariant PS.FirstFree(st.conns, 0) == PS.FirstFree(st.conns, i)
      {
        if connL[i] == null {
          return;
        }
        i := i + 1;
      }
      i := -1;
    }

    /** Adds `d` to the reference counts of a client and a server, in their records. */
    method Recount(c: nat, v: nat, d: int)
      requires Valid() && PS.Occupied(st.clients, c) && PS.Occupied(st.servers, v)
      modifies this`st, Recs
      ensures Valid() && st == PS.Recount(old(st), c, v, d)
    {
      var serv, clit := serverL[v], clientL[c];
      serv.numClit := serv.numClit + d;
      clit.numServ := clit.numServ + d;
      st := PS.Recount(st, c, v, d);
    }

    method AddConn(clitIdx: nat, servIdx: nat) returns (i: int)
      requires Valid() && PS.Occupied(st.clients, clitIdx) && PS.Occupied(st.servers, servIdx)
      modifies this`st, this`curConn, this`maxConn, connL, Recs
      ensures Valid() && (st, i) == PS.AddConn(old(st), clitIdx, servIdx)
      ensures i != -1 ==> 0 <= i < connL.Length && connL[i] != null && fresh(connL[i]) && connL[i].Unused()
    {
      Recount(clitIdx, servIdx, 1);
      i := FreeConnSlot();
      if i == -1 {
        return;
      }
      PutConn(i, clitIdx, servIdx);
    }

    method PutConn(i: nat, clitIdx: nat, servIdx: nat)
      requires Valid() && i < connL.Length
      modifies this`st, this`curConn, this`maxConn, connL
      ensures Valid() && st == old(st).(conns := old(st).conns[i := Some(PS.Conn(servIdx, clitIdx))],
                                        curConn := old(st).curConn + 1, maxConn := PS.Max(old(st).maxConn, i))
      ensures connL[i] != null && fresh(connL[i]) && connL[i].Unused()
    {
      connL[i] := new Conn(servIdx, clitIdx);
      curConn := curConn + 1;
      maxConn := PS.Max(maxConn, i);
      st := st.(conns := st.conns[i := Some(PS.Conn(servIdx, clitIdx))], curConn := curConn, maxConn := maxConn);
    }

    /** `add_server` and then `add_conn`, as the handlers pair them for a live client. */
    method OpenConn(clitIdx: nat, sock: int, addr: nat) returns (i: int)
      requires Valid() && PS.Occupied(st.clients, clitIdx) && PS.FirstFree(st.servers, 0) != -1
      modifies this, serverL, connL, Recs
      ensures Valid() && (st, i) == PS.Open(old(st), clitIdx, sock, addr)
      ensures fresh(Recs - old(Recs))
    {
      var servIdx := AddServer(sock, addr);
      i := AddConn(clitIdx, servIdx);
    }

    method CloseServ(v: nat)
      requires Valid() && PS.Occupied(st.servers, v)
      modifies this`st, this`curServer, this`readSet, this`writeSet, serverL
      ensures Valid() && st == PS.CloseServ(old(st), v)
    {
      var server := serverL[v];
      readSet := readSet - {server.fd};
      writeSet := writeSet - {server.fd};
      serverL[v] := null;
      curServer := curServer - 1;
      st := PS.CloseServ(st, v);
    }

    method CloseClit(c: nat)
      requires Valid() && PS.Occupied(st.clients, c)
      modifies this`st, this`curClient, this`readSet, this`writeSet, clientL
      ensures Valid() && st == PS.CloseClit(old(st), c)
    {
      var client := clientL[c];
      readSet := readSet - {client.fd};
      writeSet := writeSet - {client.fd};
      clientL[c] := null;
      curClient := curClient - 1;
      st := PS.CloseClit(st, c);
    }

    /** `close_conn`; its asserts hold and its end points are there because the state is wired. */
    method CloseConn(i: nat)
      requires Valid() && PS.Wired(st) && PS.Occupied(st.conns, i)
      modifies this, clientL, serverL, connL, Recs
      ensures Valid() && PS.Closable(old(st), i) && st == PS.CloseConn(old(st), i)
      ensures Recs == old(Recs)
    {
      assert PS.Closable(st, i);
      PS.CloseAsserts(st, i);
      var delConn := connL[i];
      var servIdx, clitIdx := delConn.servIdx, delConn.clitIdx;
      var serv, clit := serverL[servIdx], clientL[clitIdx];
      assert serv.numClit > 0;
      assert clit.numServ > 0;
      Recount(clitIdx, servIdx, -1);
      if serv.numClit == 0 {
        CloseServ(servIdx);
      }
      if clit.numServ == 0 {
        CloseClit(clitIdx);
      }
      ClearConn(i);
    }

    method ClearConn(i: nat)
      requires Valid() && i < connL.Length
      modifies this`st, this`curConn, connL
      ensures Valid() && st == old(st).(conns := old(st).conns[i := None], curConn := old(st).curConn - 1)
    {
      connL[i] := null;
      curConn := curConn - 1;
      st := st.(conns := st.conns[i := None], curConn := curConn);
    }

    // ---- lookups ----

    /** `client_get_conn`: scans to the high-water mark, with the result of scanning the whole table. */
    method ClientGetConn(fd: int, addr: nat) returns (i: int)
      requires Valid() && PS.Wired(st) && PS.Counted(st, |st.conns|)
      ensures i == PS.FirstConn(st, PS.ByClient(fd, addr), 0, |st.conns|)
    {
      ghost var q := PS.ByClient(fd, addr);
      PS.MarkIsEnough(st, |st.conns|, q);
      i := 0;
      while i <= maxConn
        invariant 0 <= i <= maxConn + 1
        invariant PS.FirstConn(st, q, 0, maxConn + 1) == PS.FirstConn(st, q, i, maxConn + 1)
      {
        var conn := connL[i];
        if conn != null {
          assert PS.Occupied(st.conns, i) && PS.Closable(st, i);
          var server, client := serverL[conn.servIdx], clientL[conn.clitIdx];
          if client.fd == fd && server.addr == addr {
            return;
          }
        }
        i := i + 1;
      }
      i := -1;
    }

    /** `server_get_conn` */
    method ServerGetConn(fd: int) returns (i: int)
      requires Valid() && PS.Wired(st) && PS.Counted(st, |st.conns|)
      ensures i == PS.FirstConn(st, PS.ByServer(fd), 0, |st.conns|)
    {
      ghost var q := PS.ByServer(fd);
      PS.MarkIsEnough(st, |st.conns|, q);
      i := 0;
      while i <= maxConn
        invariant 0 <= i <= maxConn + 1
        invariant PS.FirstConn(st, q, 0, maxConn + 1) == PS.FirstConn(st, q, i, maxConn + 1)
      {
        var conn := connL[i];
        if conn != null {
          assert PS.Occupied(st.conns, i) && PS.Closable(st, i);
          var server := serverL[conn.servIdx];
          if server.fd == fd {
            return;
          }
        }
        i := i + 1;
      }
      i := -1;
    }
  }

  /** How `client2server` comes by its connection to an address: it looks for one, and opens one when there is
    * none.
    */
  method FindOrOpen(p: Pool, clitIdx: nat, sock: int, addr: nat) returns (i: int)
    requires p.Valid() && PS.Wired(p.st) && PS.Counted(p.st, |p.st.conns|)
    requires PS.Occupied(p.st.clients, clitIdx) && PS.FirstFree(p.st.servers, 0) != -1
    modifies p, p.serverL, p.connL, p.Recs
    ensures p.Valid() && fresh(p.Recs - old(p.Recs))
    ensures var s := old(p.st);
            var found := PS.FirstConn(s, PS.ByClient(s.clients[clitIdx].value.fd, addr), 0, |s.conns|);
            (p.st, i) == if found == -1 then PS.Open(s, clitIdx, sock, addr) else (s, found)
  {
    i := p.ClientGetConn(p.clientL[clitIdx].fd, addr);
    if i == -1 {
      i := p.OpenConn(clitIdx, sock, addr);
    }
  }

  // ---- whole runs ----

  /** One step of a run, in place. */
  method Perform(p: Pool, e: PS.Event)
    requires p.Valid() && PS.Wired(p.st) && PS.Enabled(p.st, e)
    modifies p, p.clientL, p.serverL, p.connL, p.Recs
    ensures p.Valid() && p.st == PS.Apply(old(p.st), e)
    ensures fresh(p.Recs - old(p.Recs))
  {
    match e {
      case Accept(fd, addr) =>
        var i := p.AddClient(fd, addr);
      case OpenTo(clit, fd, addr) =>
        var i := p.OpenConn(clit, fd, addr);
      case Close(conn) =>
        p.CloseConn(conn);
    }
  }

  /** Any run from a new pool: the tables in place go through the states of the run, and keep the invariant. */
  method RunPool(size: nat, listenFd: int, events: seq<PS.Event>, ghost states: seq<PS.State>) returns (p: Pool)
    requires PS.IsRun(states, events) && states[0] == PS.Initial(size, listenFd)
    ensures fresh(p) && p.Valid() && p.st == states[|events|] && PS.Inv(p.st, size, listenFd)
  {
    p := new Pool(size, listenFd);
    for n := 0 to |events|
      invariant p.Valid() && p.st == states[n]
      invariant fresh(p) && fresh(p.clientL) && fresh(p.serverL) && fresh(p.connL) && fresh(p.Recs)
    {
      PS.RunKeepsInv(size, listenFd, states, events, n);
      Perform(p, events[n]);
    }
    PS.RunKeepsInv(size, listenFd, states, events, |events|);
  }
}
