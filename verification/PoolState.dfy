/** The proxy's pool of clients, servers and connections as a value: its steps, what every run of them
  * keeps, and what follows.  The class in Pool.dfy is proved to take these steps in place.
  */
module PoolState {
  import opened Options

  datatype Client = Client(fd: int, addr: nat, numServ: int)

  datatype Server = Server(fd: int, addr: nat, numClit: int)

  /** A connection names its server and its client by slot. */
  datatype Conn = Conn(serv: nat, clit: nat)

  type Slots<T> = seq<Option<T>>

  /** Three slot tables, their live counters and high-water marks, and the two fd sets. */
  datatype State = State(
    clients: Slots<Client>, servers: Slots<Server>, conns: Slots<Conn>,
    curClient: int, curServer: int, curConn: int,
    maxClit: int, maxServ: int, maxConn: int,
    readSet: set<int>, writeSet: set<int>, maxfd: int)

  // ---- slot tables ----

  predicate Occupied<T>(xs: Slots<T>, i: int) {
    0 <= i < |xs| && xs[i].Some?
  }

  ghost function Live<T>(xs: Slots<T>): set<int> {
    set i | 0 <= i < |xs| && Occupied(xs, i)
  }

  /** The first free slot at or after `i`, or -1. */
  function FirstFree<T>(xs: Slots<T>, i: nat): (r: int)
    requires i <= |xs|
    ensures if r == -1 then forall j :: i <= j < |xs| ==> Occupied(xs, j)
            else i <= r < |xs| && xs[r] == None && forall j :: i <= j < r ==> Occupied(xs, j)
    decreases |xs| - i
  {
    if i == |xs| then -1 else if xs[i] == None then i else FirstFree(xs, i + 1)
  }

  function Max(a: int, b: int): (m: int)
    ensures m >= a && m >= b && (m == a || m == b)
  {
    if b > a then b else a
  }

  lemma LiveAdded<T>(xs: Slots<T>, i: nat, x: T)
    requires i < |xs| && xs[i] == None
    ensures |Live(xs[i := Some(x)])| == |Live(xs)| + 1
  {
    assert Live(xs[i := Some(x)]) == Live(xs) + {i};
  }

  lemma LiveRemoved<T>(xs: Slots<T>, i: nat)
    requires Occupied(xs, i)
    ensures |Live(xs[i := None])| == |Live(xs)| - 1
  {
    assert Live(xs[i := None]) == Live(xs) - {i};
  }

  lemma LiveUpdated<T>(xs: Slots<T>, i: nat, x: T)
    requires Occupied(xs, i)
    ensures Live(xs[i := Some(x)]) == Live(xs)
  {
  }

  ghost function Range(n: nat): (r: set<int>)
    ensures |r| == n && forall i :: i in r <==> 0 <= i < n
  {
    if n == 0 then {} else Range(n - 1) + {n - 1}
  }

  lemma {:induction false} SubsetSize<T>(a: set<T>, b: set<T>)
    requires a <= b
    ensures |a| <= |b|
  {
    if a != {} {
      var x :| x in a;
      SubsetSize(a - {x}, b - {x});
      assert |a| == |a - {x}| + 1 && |b| == |b - {x}| + 1;
    }
  }

  /** A table is full exactly when it has as many live slots as slots. */
  lemma FullTable<T>(xs: Slots<T>)
    ensures |Live(xs)| <= |xs|
    ensures FirstFree(xs, 0) == -1 <==> |Live(xs)| == |xs|
  {
    SubsetSize(Live(xs), Range(|xs|));
    var f := FirstFree(xs, 0);
    if f == -1 {
      assert Live(xs) == Range(|xs|);
    } else {
      SubsetSize(Live(xs), Range(|xs|) - {f});
    }
  }

  // ---- the steps ----

  /** `init_pool`, for tables of `size` slots. */
  function Initial(size: nat, listenFd: int): State {
    State(seq(size, _ => None), seq(size, _ => None), seq(size, _ => None), 0, 0, 0, -1, -1, -1, {listenFd}, {},
      listenFd)
  }

  function AddClient(s: State, fd: int, addr: nat): (State, int) {
    var i := FirstFree(s.clients, 0);
    if i == -1 then (s, -1)
    else
      (s.(clients := s.clients[i := Some(Client(fd, addr, 0))], curClient := s.curClient + 1,
          readSet := s.readSet + {fd}, writeSet := s.writeSet + {fd},
          maxfd := Max(s.maxfd, fd), maxClit := Max(s.maxClit, i)), i)
  }

  function AddServer(s: State, fd: int, addr: nat): (State, int) {
    var i := FirstFree(s.servers, 0);
    if i == -1 then (s, -1)
    else
      (s.(servers := s.servers[i := Some(Server(fd, addr, 0))], curServer := s.curServer + 1,
          readSet := s.readSet + {fd}, writeSet := s.writeSet + {fd},
          maxfd := Max(s.maxfd, fd), maxServ := Max(s.maxServ, i)), i)
  }

  function Recount(s: State, c: nat, v: nat, d: int): State
    requires Occupied(s.clients, c) && Occupied(s.servers, v)
  {
    var clit, serv := s.clients[c].value, s.servers[v].value;
    s.(clients := s.clients[c := Some(clit.(numServ := clit.numServ + d))],
       servers := s.servers[v := Some(serv.(numClit := serv.numClit + d))])
  }

  /** `add_conn`: the reference counts go up before a slot is looked for. */
  function AddConn(s: State, c: nat, v: nat): (State, int)
    requires Occupied(s.clients, c) && Occupied(s.servers, v)
  {
    var s1 := Recount(s, c, v, 1);
    var i := FirstFree(s1.conns, 0);
    if i == -1 then (s1, -1)
    else
      (s1.(conns := s1.conns[i := Some(Conn(v, c))], curConn := s1.curConn + 1, maxConn := Max(s1.maxConn, i)), i)
  }

  function CloseServ(s: State, v: nat): State
    requires Occupied(s.servers, v)
  {
    var fd := s.servers[v].value.fd;
    s.(servers := s.servers[v := None], curServer := s.curServer - 1, readSet := s.readSet - {fd},
       writeSet := s.writeSet - {fd})
  }

  function CloseClit(s: State, c: nat): State
    requires Occupied(s.clients, c)
  {
    var fd := s.clients[c].value.fd;
    s.(clients := s.clients[c := None], curClient := s.curClient - 1, readSet := s.readSet - {fd},
       writeSet := s.writeSet - {fd})
  }

  /** `close_conn`, whose end points go with it when they have no other connection. */
  function CloseConn(s: State, i: nat): State
    requires Closable(s, i)
  {
    var v, c := s.conns[i].value.serv, s.conns[i].value.clit;
    var s1 := Recount(s, c, v, -1);
    var s2 := if s1.servers[v].value.numClit == 0 then CloseServ(s1, v) else s1;
    var s3 := if s2.clients[c].value.numServ == 0 then CloseClit(s2, c) else s2;
    s3.(conns := s3.conns[i := None], curConn := s3.curConn - 1)
  }

  /** The connection's end points are there: what `close_conn` dereferences. */
  ghost predicate Closable(s: State, i: nat) {
    Occupied(s.conns, i) && Occupied(s.servers, s.conns[i].value.serv) && Occupied(s.clients, s.conns[i].value.clit)
  }

  // ---- what the steps leave ----

  lemma InitialResult(size: nat, listenFd: int)
    ensures var s := Initial(size, listenFd);
            && |s.clients| == |s.servers| == |s.conns| == size
            && (forall k :: 0 <= k < size ==> s.clients[k] == None && s.servers[k] == None && s.conns[k] == None)
            && s.curClient == s.curServer == s.curConn == 0 && s.maxClit == s.maxServ == s.maxConn == -1
            && s.readSet == {listenFd} && s.writeSet == {} && s.maxfd == listenFd
  {
  }

  ghost predicate Full<T>(xs: Slots<T>) {
    forall k :: 0 <= k < |xs| ==> xs[k].Some?
  }

  /** Slot `i` is the first one that is free. */
  ghost predicate FirstOpen<T>(xs: Slots<T>, i: int) {
    0 <= i < |xs| && xs[i] == None && forall k :: 0 <= k < i ==> xs[k].Some?
  }

  lemma FirstFreeMeaning<T>(xs: Slots<T>)
    ensures if Full(xs) then FirstFree(xs, 0) == -1 else FirstOpen(xs, FirstFree(xs, 0))
  {
    forall k | 0 <= k < |xs|
      ensures Occupied(xs, k) <==> xs[k].Some?
    {
    }
    var i := FirstFree(xs, 0);
    if i == -1 {
      assert forall k :: 0 <= k < |xs| ==> Occupied(xs, k);
    } else {
      assert forall k :: 0 <= k < i ==> Occupied(xs, k);
    }
  }

  /** An accepted client gets the first free slot, with its fd and its address, and is watched; a full table
    * stays as it is.
    */
  lemma AddClientResult(s: State, fd: int, addr: nat)
    ensures var (t, i) := AddClient(s, fd, addr);
            if Full(s.clients) then i == -1 && t == s
            else
              && FirstOpen(s.clients, i)
              && t == s.(clients := s.clients[i := Some(Client(fd, addr, 0))], curClient := s.curClient + 1,
                         readSet := s.readSet + {fd}, writeSet := s.writeSet + {fd},
                         maxfd := if fd > s.maxfd then fd else s.maxfd,
                         maxClit := if i > s.maxClit then i else s.maxClit)
  {
    FirstFreeMeaning(s.clients);
  }

  lemma AddServerResult(s: State, fd: int, addr: nat)
    ensures var (t, i) := AddServer(s, fd, addr);
            if Full(s.servers) then i == -1 && t == s
            else
              && FirstOpen(s.servers, i)
              && t == s.(servers := s.servers[i := Some(Server(fd, addr, 0))], curServer := s.curServer + 1,
                         readSet := s.readSet + {fd}, writeSet := s.writeSet + {fd},
                         maxfd := if fd > s.maxfd then fd else s.maxfd,
                         maxServ := if i > s.maxServ then i else s.maxServ)
  {
    FirstFreeMeaning(s.servers);
  }

  /** Both reference counts go up, even when no slot is free. */
  lemma AddConnResult(s: State, c: nat, v: nat)
    requires Occupied(s.clients, c) && Occupied(s.servers, v)
    ensures var (t, i) := AddConn(s, c, v);
            var clit, serv := s.clients[c].value, s.servers[v].value;
            var u := s.(clients := s.clients[c := Some(Client(clit.fd, clit.addr, clit.numServ + 1))],
                        servers := s.servers[v := Some(Server(serv.fd, serv.addr, serv.numClit + 1))]);
            if Full(s.conns) then i == -1 && t == u
            else
              && FirstOpen(s.conns, i)
              && t == u.(conns := s.conns[i := Some(Conn(v, c))], curConn := s.curConn + 1,
                         maxConn := if i > s.maxConn then i else s.maxConn)
  {
    FirstFreeMeaning(s.conns);
  }

  // ---- what every step keeps ----

  ghost function OnServer(conns: Slots<Conn>, v: int): set<int> {
    set i | 0 <= i < |conns| && conns[i].Some? && conns[i].value.serv == v
  }

  ghost function OnClient(conns: Slots<Conn>, c: int): set<int> {
    set i | 0 <= i < |conns| && conns[i].Some? && conns[i].value.clit == c
  }

  /** Connections name live end points, and the reference counts count them; a live server has one. */
  ghost predicate Wired(s: State) {
    && (forall i :: Occupied(s.conns, i) ==> Closable(s, i))
    && (forall v :: Occupied(s.servers, v) ==> s.servers[v].value.numClit == |OnServer(s.conns, v)| == 1)
    && (forall c :: Occupied(s.clients, c) ==> s.clients[c].value.numServ == |OnClient(s.conns, c)|)
  }

  ghost predicate BelowMark<T>(xs: Slots<T>, mark: int) {
    -1 <= mark < |xs| && forall i :: Occupied(xs, i) ==> i <= mark
  }

  /** The tables have `size` slots, the counters count the live ones and the marks bound them. */
  ghost predicate Counted(s: State, size: nat) {
    && |s.clients| == |s.servers| == |s.conns| == size
    && s.curClient == |Live(s.clients)| && s.curServer == |Live(s.servers)| && s.curConn == |Live(s.conns)|
    && s.curConn == s.curServer
    && BelowMark(s.clients, s.maxClit) && BelowMark(s.servers, s.maxServ) && BelowMark(s.conns, s.maxConn)
  }

  /** An end point with an fd: a client slot or a server slot. */
  datatype End = AtClient(i: int) | AtServer(i: int)

  ghost predicate LiveEnd(s: State, e: End) {
    match e case AtClient(i) => Occupied(s.clients, i) case AtServer(i) => Occupied(s.servers, i)
  }

  ghost function FdOf(s: State, e: End): int
    requires LiveEnd(s, e)
  {
    match e case AtClient(i) => s.clients[i].value.fd case AtServer(i) => s.servers[i].value.fd
  }

  ghost predicate InUse(s: State, fd: int) {
    exists e :: LiveEnd(s, e) && FdOf(s, e) == fd
  }

  /** The fd sets hold exactly the fds in use, plus the listening socket for reading; no fd is used twice. */
  ghost predicate Polled(s: State, listenFd: int) {
    && (forall fd :: fd in s.readSet <==> fd == listenFd || InUse(s, fd))
    && (forall fd :: fd in s.writeSet <==> InUse(s, fd))
    && (forall e, f :: LiveEnd(s, e) && LiveEnd(s, f) && FdOf(s, e) == FdOf(s, f) ==> e == f)
    && !InUse(s, listenFd)
    && (forall fd :: fd in s.readSet ==> fd <= s.maxfd)
  }

  ghost predicate Inv(s: State, size: nat, listenFd: int) {
    Wired(s) && Counted(s, size) && Polled(s, listenFd)
  }

  lemma InitialInv(size: nat, listenFd: int)
    ensures Inv(Initial(size, listenFd), size, listenFd)
  {
    var s := Initial(size, listenFd);
    assert Live(s.clients) == {} && Live(s.servers) == {} && Live(s.conns) == {};
  }

  lemma NobodyOnFreeClient(s: State, c: int)
    requires Wired(s) && !Occupied(s.clients, c)
    ensures OnClient(s.conns, c) == {}
  {
    forall k | k in OnClient(s.conns, c)
      ensures false
    {
      assert Occupied(s.conns, k);
    }
  }

  lemma NobodyOnFreeServer(s: State, v: int)
    requires Wired(s) && !Occupied(s.servers, v)
    ensures OnServer(s.conns, v) == {}
  {
    forall k | k in OnServer(s.conns, v)
      ensures false
    {
      assert Occupied(s.conns, k);
    }
  }

  // ---- accepting a client ----

  lemma AddClientWired(s: State, fd: int, addr: nat)
    requires Wired(s)
    ensures Wired(AddClient(s, fd, addr).0)
  {
    var (t, i) := AddClient(s, fd, addr);
    if i != -1 {
      NobodyOnFreeClient(s, i);
      forall k | Occupied(t.conns, k)
        ensures Closable(t, k)
      {
        assert Closable(s, k);
      }
    }
  }

  lemma AddClientCounted(s: State, size: nat, fd: int, addr: nat)
    requires Counted(s, size)
    ensures Counted(AddClient(s, fd, addr).0, size)
  {
    var (t, i) := AddClient(s, fd, addr);
    if i != -1 {
      LiveAdded(s.clients, i, Client(fd, addr, 0));
      assert forall k :: Occupied(t.clients, k) ==> k == i || Occupied(s.clients, k);
    }
  }

  /** Taking a fresh fd into use. */
  lemma NewEnd(s: State, t: State, e: End, listenFd: int)
    requires Polled(s, listenFd) && !LiveEnd(s, e) && LiveEnd(t, e)
    requires forall f :: f != e ==> (LiveEnd(t, f) <==> LiveEnd(s, f)) && (LiveEnd(s, f) ==> FdOf(t, f) == FdOf(s, f))
    requires FdOf(t, e) !in s.readSet
    requires t.readSet == s.readSet + {FdOf(t, e)} && t.writeSet == s.writeSet + {FdOf(t, e)}
    requires t.maxfd == Max(s.maxfd, FdOf(t, e))
    ensures Polled(t, listenFd)
  {
    forall fd
      ensures InUse(t, fd) <==> InUse(s, fd) || fd == FdOf(t, e)
    {
      if InUse(s, fd) {
        var f :| LiveEnd(s, f) && FdOf(s, f) == fd;
        assert LiveEnd(t, f) && FdOf(t, f) == fd;
      }
    }
    forall f, h | LiveEnd(t, f) && LiveEnd(t, h) && FdOf(t, f) == FdOf(t, h)
      ensures f == h
    {
      assert f != e ==> InUse(s, FdOf(s, f));
      assert h != e ==> InUse(s, FdOf(s, h));
    }
  }

  lemma AddClientPolled(s: State, listenFd: int, fd: int, addr: nat)
    requires Polled(s, listenFd) && fd !in s.readSet
    ensures Polled(AddClient(s, fd, addr).0, listenFd)
  {
    var (t, i) := AddClient(s, fd, addr);
    if i != -1 {
      NewEnd(s, t, AtClient(i), listenFd);
    }
  }

  // ---- opening a connection ----

  /** A new server and a new connection from client `c` to it, as the handlers pair them. */
  function Open(s: State, c: nat, fd: int, addr: nat): (State, int)
    requires Occupied(s.clients, c) && FirstFree(s.servers, 0) != -1
  {
    var (s1, v) := AddServer(s, fd, addr);
    AddConn(s1, c, v)
  }

  /** Whenever a server slot is free, so is a connection slot: there are as many of one as of the other. */
  lemma FreeTogether(s: State, size: nat)
    requires Counted(s, size)
    ensures FirstFree(s.servers, 0) != -1 <==> FirstFree(s.conns, 0) != -1
  {
    FullTable(s.servers);
    FullTable(s.conns);
  }

  /** So opening succeeds whenever `add_server` does. */
  lemma OpenResult(s: State, size: nat, c: nat, fd: int, addr: nat)
    requires Counted(s, size) && Occupied(s.clients, c) && FirstFree(s.servers, 0) != -1
    ensures var (t, i) := Open(s, c, fd, addr);
            var v, clit := FirstFree(s.servers, 0), s.clients[c].value;
            && i == FirstFree(s.conns, 0) && i != -1
            && t == s.(servers := s.servers[v := Some(Server(fd, addr, 1))],
                       clients := s.clients[c := Some(clit.(numServ := clit.numServ + 1))],
                       conns := s.conns[i := Some(Conn(v, c))],
                       curServer := s.curServer + 1, curConn := s.curConn + 1,
                       readSet := s.readSet + {fd}, writeSet := s.writeSet + {fd},
                       maxfd := Max(s.maxfd, fd), maxServ := Max(s.maxServ, v), maxConn := Max(s.maxConn, i))
  {
    FreeTogether(s, size);
  }

  lemma OnServerAdded(conns: Slots<Conn>, i: nat, x: Conn, v: int)
    requires i < |conns| && conns[i] == None
    ensures OnServer(conns[i := Some(x)], v) == OnServer(conns, v) + if x.serv == v then {i} else {}
    ensures |OnServer(conns[i := Some(x)], v)| == |OnServer(conns, v)| + if x.serv == v then 1 else 0
  {
    assert OnServer(conns[i := Some(x)], v) == OnServer(conns, v) + if x.serv == v then {i} else {};
  }

  lemma OnClientAdded(conns: Slots<Conn>, i: nat, x: Conn, c: int)
    requires i < |conns| && conns[i] == None
    ensures OnClient(conns[i := Some(x)], c) == OnClient(conns, c) + if x.clit == c then {i} else {}
    ensures |OnClient(conns[i := Some(x)], c)| == |OnClient(conns, c)| + if x.clit == c then 1 else 0
  {
    assert OnClient(conns[i := Some(x)], c) == OnClient(conns, c) + if x.clit == c then {i} else {};
  }

  lemma OpenWired(s: State, size: nat, c: nat, fd: int, addr: nat)
    requires Wired(s) && Counted(s, size) && Occupied(s.clients, c) && FirstFree(s.servers, 0) != -1
    ensures Wired(Open(s, c, fd, addr).0)
  {
    OpenResult(s, size, c, fd, addr);
    var (t, i) := Open(s, c, fd, addr);
    var v := FirstFree(s.servers, 0);
    NobodyOnFreeServer(s, v);
    forall k | Occupied(t.conns, k)
      ensures Closable(t, k)
    {
      assert k != i ==> Closable(s, k);
    }
    forall w | Occupied(t.servers, w)
      ensures t.servers[w].value.numClit == |OnServer(t.conns, w)| == 1
    {
      OnServerAdded(s.conns, i, Conn(v, c), w);
      assert w != v ==> Occupied(s.servers, w);
    }
    forall d | Occupied(t.clients, d)
      ensures t.clients[d].value.numServ == |OnClient(t.conns, d)|
    {
      OnClientAdded(s.conns, i, Conn(v, c), d);
      assert Occupied(s.clients, d);
    }
  }

  lemma OpenCounted(s: State, size: nat, c: nat, fd: int, addr: nat)
    requires Counted(s, size) && Occupied(s.clients, c) && FirstFree(s.servers, 0) != -1
    ensures Counted(Open(s, c, fd, addr).0, size)
  {
    OpenResult(s, size, c, fd, addr);
    var (t, i) := Open(s, c, fd, addr);
    var v := FirstFree(s.servers, 0);
    LiveAdded(s.servers, v, Server(fd, addr, 1));
    LiveAdded(s.conns, i, Conn(v, c));
    LiveUpdated(s.clients, c, t.clients[c].value);
    assert forall k :: Occupied(t.servers, k) ==> k == v || Occupied(s.servers, k);
    assert forall k :: Occupied(t.conns, k) ==> k == i || Occupied(s.conns, k);
    assert forall k :: Occupied(t.clients, k) ==> Occupied(s.clients, k);
  }

  lemma OpenPolled(s: State, size: nat, listenFd: int, c: nat, fd: int, addr: nat)
    requires Counted(s, size) && Polled(s, listenFd) && fd !in s.readSet
    requires Occupied(s.clients, c) && FirstFree(s.servers, 0) != -1
    ensures Polled(Open(s, c, fd, addr).0, listenFd)
  {
    OpenResult(s, size, c, fd, addr);
    NewEnd(s, Open(s, c, fd, addr).0, AtServer(FirstFree(s.servers, 0)), listenFd);
  }

  // ---- closing a connection ----

  lemma OnServerRemoved(conns: Slots<Conn>, i: nat, v: int)
    requires Occupied(conns, i)
    ensures OnServer(conns[i := None], v) == OnServer(conns, v) - {i}
    ensures |OnServer(conns[i := None], v)| == |OnServer(conns, v)| - if conns[i].value.serv == v then 1 else 0
  {
    assert OnServer(conns[i := None], v) == OnServer(conns, v) - {i};
  }

  lemma OnClientRemoved(conns: Slots<Conn>, i: nat, c: int)
    requires Occupied(conns, i)
    ensures OnClient(conns[i := None], c) == OnClient(conns, c) - {i}
    ensures |OnClient(conns[i := None], c)| == |OnClient(conns, c)| - if conns[i].value.clit == c then 1 else 0
  {
    assert OnClient(conns[i := None], c) == OnClient(conns, c) - {i};
  }

  /** The asserts in `close_conn` hold. */
  lemma CloseAsserts(s: State, i: nat)
    requires Wired(s) && Occupied(s.conns, i)
    ensures Closable(s, i)
    ensures s.servers[s.conns[i].value.serv].value.numClit > 0
    ensures s.clients[s.conns[i].value.clit].value.numServ > 0
  {
    assert Closable(s, i);
    assert i in OnClient(s.conns, s.conns[i].value.clit);
  }

  /** In `close_conn` the server always goes with its connection; the client goes
    * exactly when this was its last connection.
    */
  lemma CloseResult(s: State, i: nat)
    requires Wired(s) && Occupied(s.conns, i)
    ensures Closable(s, i)
    ensures var v, c := s.conns[i].value.serv, s.conns[i].value.clit;
            var serv, clit := s.servers[v].value, s.clients[c].value;
            var last := OnClient(s.conns, c) == {i};
            CloseConn(s, i) ==
                 s.(conns := s.conns[i := None], curConn := s.curConn - 1,
                    servers := s.servers[v := None], curServer := s.curServer - 1,
                    clients := s.clients[c := if last then None else Some(clit.(numServ := clit.numServ - 1))],
                    curClient := s.curClient - if last then 1 else 0,
                    readSet := s.readSet - {serv.fd} - if last then {clit.fd} else {},
                    writeSet := s.writeSet - {serv.fd} - if last then {clit.fd} else {})
  {
    var v, c := s.conns[i].value.serv, s.conns[i].value.clit;
    assert Closable(s, i);
    assert i in OnServer(s.conns, v) && i in OnClient(s.conns, c);
    OnlyMember(OnClient(s.conns, c), i);
  }

  lemma OnlyMember(a: set<int>, x: int)
    requires x in a
    ensures a == {x} <==> |a| == 1
  {
    assert a == {x} + (a - {x});
  }

  lemma CloseWired(s: State, i: nat)
    requires Wired(s) && Occupied(s.conns, i)
    ensures Closable(s, i) && Wired(CloseConn(s, i))
  {
    CloseResult(s, i);
    var t := CloseConn(s, i);
    var v, c := s.conns[i].value.serv, s.conns[i].value.clit;
    assert OnServer(s.conns, v) == {i} by {
      assert Occupied(s.servers, v) && i in OnServer(s.conns, v);
      OnlyMember(OnServer(s.conns, v), i);
    }
    forall k | Occupied(t.conns, k)
      ensures Closable(t, k)
    {
      assert Closable(s, k) && k !in OnServer(s.conns, v);
      assert s.conns[k].value.clit == c ==> k in OnClient(s.conns, c);
    }
    forall w | Occupied(t.servers, w)
      ensures t.servers[w].value.numClit == |OnServer(t.conns, w)| == 1
    {
      OnServerRemoved(s.conns, i, w);
      assert Occupied(s.servers, w);
    }
    forall d | Occupied(t.clients, d)
      ensures t.clients[d].value.numServ == |OnClient(t.conns, d)|
    {
      OnClientRemoved(s.conns, i, d);
      assert Occupied(s.clients, d);
    }
  }

  lemma CloseCounted(s: State, size: nat, i: nat)
    requires Wired(s) && Counted(s, size) && Occupied(s.conns, i)
    ensures Closable(s, i) && Counted(CloseConn(s, i), size)
  {
    CloseResult(s, i);
    var t := CloseConn(s, i);
    var v, c := s.conns[i].value.serv, s.conns[i].value.clit;
    LiveRemoved(s.servers, v);
    LiveRemoved(s.conns, i);
    if t.clients[c] == None {
      LiveRemoved(s.clients, c);
    } else {
      LiveUpdated(s.clients, c, t.clients[c].value);
    }
    assert forall k :: Occupied(t.servers, k) ==> Occupied(s.servers, k);
    assert forall k :: Occupied(t.conns, k) ==> Occupied(s.conns, k);
    assert forall k :: Occupied(t.clients, k) ==> Occupied(s.clients, k);
  }

  /** Giving up an fd that nobody else uses. */
  lemma DropEnd(s: State, t: State, e: End, listenFd: int)
    requires Polled(s, listenFd) && LiveEnd(s, e) && !LiveEnd(t, e)
    requires forall f :: f != e ==> (LiveEnd(t, f) <==> LiveEnd(s, f)) && (LiveEnd(s, f) ==> FdOf(t, f) == FdOf(s, f))
    requires t.readSet == s.readSet - {FdOf(s, e)} && t.writeSet == s.writeSet - {FdOf(s, e)} && t.maxfd == s.maxfd
    ensures Polled(t, listenFd)
  {
    assert InUse(s, FdOf(s, e));
    forall fd
      ensures InUse(t, fd) <==> InUse(s, fd) && fd != FdOf(s, e)
    {
      if InUse(s, fd) && fd != FdOf(s, e) {
        var f :| LiveEnd(s, f) && FdOf(s, f) == fd;
        assert LiveEnd(t, f) && FdOf(t, f) == fd;
      }
      if InUse(t, fd) {
        var f :| LiveEnd(t, f) && FdOf(t, f) == fd;
        assert LiveEnd(s, f) && FdOf(s, f) == fd;
      }
    }
  }

  lemma ClosePolled(s: State, listenFd: int, i: nat)
    requires Wired(s) && Polled(s, listenFd) && Occupied(s.conns, i)
    ensures Closable(s, i) && Polled(CloseConn(s, i), listenFd)
  {
    CloseResult(s, i);
    var t := CloseConn(s, i);
    var v, c := s.conns[i].value.serv, s.conns[i].value.clit;
    var fd := s.servers[v].value.fd;
    var mid := s.(servers := t.servers, readSet := s.readSet - {fd}, writeSet := s.writeSet - {fd});
    DropEnd(s, mid, AtServer(v), listenFd);
    if t.clients[c] == None {
      DropEnd(mid, t, AtClient(c), listenFd);
    } else {
      SameEnds(mid, t, listenFd);
    }
  }

  lemma SameEnds(s: State, t: State, listenFd: int)
    requires Polled(s, listenFd)
    requires forall f :: (LiveEnd(t, f) <==> LiveEnd(s, f)) && (LiveEnd(s, f) ==> FdOf(t, f) == FdOf(s, f))
    requires t.readSet == s.readSet && t.writeSet == s.writeSet && t.maxfd == s.maxfd
    ensures Polled(t, listenFd)
  {
    forall fd
      ensures InUse(t, fd) <==> InUse(s, fd)
    {
      if InUse(s, fd) {
        var f :| LiveEnd(s, f) && FdOf(s, f) == fd;
        assert LiveEnd(t, f) && FdOf(t, f) == fd;
      }
    }
  }

  // ---- whole runs ----

  datatype Event = Accept(fd: int, addr: nat) | OpenTo(clit: nat, fd: int, addr: nat) | Close(conn: nat)

  /** What the operating system and the handlers see to: fds come fresh, a connection is opened for a
    * client that is there while a server slot is free, and closed while it is open.
    */
  ghost predicate Enabled(s: State, e: Event) {
    match e
    case Accept(fd, _) => fd !in s.readSet
    case OpenTo(c, fd, _) => Occupied(s.clients, c) && FirstFree(s.servers, 0) != -1 && fd !in s.readSet
    case Close(i) => Occupied(s.conns, i) && Closable(s, i)
  }

  ghost function Apply(s: State, e: Event): State
    requires Enabled(s, e)
  {
    match e
    case Accept(fd, addr) => AddClient(s, fd, addr).0
    case OpenTo(c, fd, addr) => Open(s, c, fd, addr).0
    case Close(i) => CloseConn(s, i)
  }

  ghost predicate IsRun(states: seq<State>, events: seq<Event>) {
    && |states| == |events| + 1
    && forall k :: 0 <= k < |events| ==> Enabled(states[k], events[k]) && states[k + 1] == Apply(states[k], events[k])
  }

  lemma StepKeepsInv(s: State, size: nat, listenFd: int, e: Event)
    requires Inv(s, size, listenFd) && Enabled(s, e)
    ensures Inv(Apply(s, e), size, listenFd)
  {
    match e
    case Accept(fd, addr) =>
      AddClientWired(s, fd, addr);
      AddClientCounted(s, size, fd, addr);
      AddClientPolled(s, listenFd, fd, addr);
    case OpenTo(c, fd, addr) =>
      OpenWired(s, size, c, fd, addr);
      OpenCounted(s, size, c, fd, addr);
      OpenPolled(s, size, listenFd, c, fd, addr);
    case Close(i) =>
      CloseWired(s, i);
      CloseCounted(s, size, i);
      ClosePolled(s, listenFd, i);
  }

  /** Every state of every run from the initial one keeps the invariant. */
  lemma {:induction false} RunKeepsInv(size: nat, listenFd: int, states: seq<State>, events: seq<Event>, k: nat)
    requires IsRun(states, events) && states[0] == Initial(size, listenFd) && k < |states|
    ensures Inv(states[k], size, listenFd)
  {
    if k == 0 {
      InitialInv(size, listenFd);
    } else {
      RunKeepsInv(size, listenFd, states, events, k - 1);
      StepKeepsInv(states[k - 1], size, listenFd, events[k - 1]);
    }
  }

  ghost function Opened(e: Event): int {
    match e case Accept(_, _) => 0 case OpenTo(_, _, _) => 1 case Close(_) => -1
  }

  /** Connections opened less connections closed. */
  ghost function Opens(events: seq<Event>): int {
    if events == [] then 0 else Opens(events[..|events| - 1]) + Opened(events[|events| - 1])
  }

  lemma StepConserves(s: State, size: nat, listenFd: int, e: Event)
    requires Inv(s, size, listenFd) && Enabled(s, e)
    ensures Apply(s, e).curConn == s.curConn + Opened(e)
  {
    if e.OpenTo? {
      OpenResult(s, size, e.clit, e.fd, e.addr);
    } else if e.Close? {
      CloseResult(s, e.conn);
    }
  }

  lemma {:induction false} CounterConserved(size: nat, listenFd: int, states: seq<State>, events: seq<Event>, n: nat)
    requires IsRun(states, events) && states[0] == Initial(size, listenFd) && n <= |events|
    ensures states[n].curConn == Opens(events[..n])
  {
    if n > 0 {
      CounterConserved(size, listenFd, states, events, n - 1);
      RunKeepsInv(size, listenFd, states, events, n - 1);
      StepConserves(states[n - 1], size, listenFd, events[n - 1]);
      assert events[..n][..n - 1] == events[..n - 1];
    }
  }

  /** Connections are conserved: after any part of a run, those that live are those opened and not
    * closed, and there are as many live servers.
    */
  lemma ConnectionsConserved(size: nat, listenFd: int, states: seq<State>, events: seq<Event>, n: nat)
    requires IsRun(states, events) && states[0] == Initial(size, listenFd) && n <= |events|
    ensures |Live(states[n].conns)| == |Live(states[n].servers)| == Opens(events[..n])
  {
    RunKeepsInv(size, listenFd, states, events, n);
    CounterConserved(size, listenFd, states, events, n);
  }

  /** Clients that come and go in one step: one that is accepted while a slot is free, and one whose last
    * connection is closed.
    */
  ghost function ClientsGained(s: State, e: Event): int {
    match e
    case Accept(_, _) => if Full(s.clients) then 0 else 1
    case OpenTo(_, _, _) => 0
    case Close(i) =>
      if Occupied(s.conns, i) && OnClient(s.conns, s.conns[i].value.clit) == {i as int} then -1 else 0
  }

  ghost function Gained(states: seq<State>, events: seq<Event>, n: nat): int
    requires n <= |events| < |states|
  {
    if n == 0 then 0 else Gained(states, events, n - 1) + ClientsGained(states[n - 1], events[n - 1])
  }

  lemma StepCountsClients(s: State, size: nat, listenFd: int, e: Event)
    requires Inv(s, size, listenFd) && Enabled(s, e)
    ensures Apply(s, e).curClient == s.curClient + ClientsGained(s, e)
  {
    if e.Accept? {
      AddClientResult(s, e.fd, e.addr);
    } else if e.OpenTo? {
      OpenResult(s, size, e.clit, e.fd, e.addr);
    } else {
      CloseResult(s, e.conn);
    }
  }

  lemma {:induction false} ClientCounter(size: nat, listenFd: int, states: seq<State>, events: seq<Event>, n: nat)
    requires IsRun(states, events) && states[0] == Initial(size, listenFd) && n <= |events|
    ensures states[n].curClient == Gained(states, events, n)
  {
    if n > 0 {
      ClientCounter(size, listenFd, states, events, n - 1);
      RunKeepsInv(size, listenFd, states, events, n - 1);
      StepCountsClients(states[n - 1], size, listenFd, events[n - 1]);
    }
  }

  /** Clients are conserved: those that live are those accepted while there was room less those that left with
    * their last connection.
    */
  lemma ClientsConserved(size: nat, listenFd: int, states: seq<State>, events: seq<Event>, n: nat)
    requires IsRun(states, events) && states[0] == Initial(size, listenFd) && n <= |events|
    ensures |Live(states[n].clients)| == Gained(states, events, n)
  {
    RunKeepsInv(size, listenFd, states, events, n);
    ClientCounter(size, listenFd, states, events, n);
  }

  /** Slot `c` holds a client with this fd and address. */
  ghost predicate ClientAt(s: State, c: int, fd: int, addr: nat) {
    Occupied(s.clients, c) && s.clients[c].value.fd == fd && s.clients[c].value.addr == addr
  }

  ghost predicate ServerAt(s: State, v: int, fd: int, addr: nat) {
    Occupied(s.servers, v) && s.servers[v].value.fd == fd && s.servers[v].value.addr == addr
  }

  /** A client is as it was when the step began, or has just been accepted. */
  lemma StepKeepsClients(s: State, size: nat, listenFd: int, e: Event, c: int)
    requires Inv(s, size, listenFd) && Enabled(s, e) && Occupied(Apply(s, e).clients, c)
    ensures var x := Apply(s, e).clients[c].value;
            if Occupied(s.clients, c) then ClientAt(s, c, x.fd, x.addr)
            else e == Accept(x.fd, x.addr) && FirstOpen(s.clients, c)
  {
    if e.Accept? {
      AddClientResult(s, e.fd, e.addr);
    } else if e.OpenTo? {
      OpenResult(s, size, e.clit, e.fd, e.addr);
    } else {
      CloseResult(s, e.conn);
    }
  }

  lemma StepKeepsServers(s: State, size: nat, listenFd: int, e: Event, v: int)
    requires Inv(s, size, listenFd) && Enabled(s, e) && Occupied(Apply(s, e).servers, v)
    ensures var x := Apply(s, e).servers[v].value;
            if Occupied(s.servers, v) then ServerAt(s, v, x.fd, x.addr)
            else e.OpenTo? && e.fd == x.fd && e.addr == x.addr && FirstOpen(s.servers, v)
  {
    if e.Accept? {
      AddClientResult(s, e.fd, e.addr);
    } else if e.OpenTo? {
      OpenResult(s, size, e.clit, e.fd, e.addr);
    } else {
      CloseResult(s, e.conn);
    }
  }

  /** The client in slot `c` was accepted by event `k` and is there in every state since, up to the `n`th. */
  ghost predicate AcceptedBy(states: seq<State>, events: seq<Event>, n: nat, c: int, k: nat, fd: int, addr: nat)
    requires n < |states| && n <= |events|
  {
    && k < n && events[k] == Accept(fd, addr) && FirstOpen(states[k].clients, c)
    && forall m :: k < m <= n ==> ClientAt(states[m], c, fd, addr)
  }

  /** Every live client was accepted with its fd and address, into the first free slot, and has been there since. */
  lemma {:induction false} ClientsAsAccepted(size: nat, listenFd: int, states: seq<State>, events: seq<Event>, n: nat,
                                             c: int, fd: int, addr: nat) returns (k: nat)
    requires IsRun(states, events) && states[0] == Initial(size, listenFd) && n <= |events|
    requires ClientAt(states[n], c, fd, addr)
    ensures AcceptedBy(states, events, n, c, k, fd, addr)
  {
    if n == 0 {
      InitialResult(size, listenFd);
      assert false;
    } else {
      RunKeepsInv(size, listenFd, states, events, n - 1);
      StepKeepsClients(states[n - 1], size, listenFd, events[n - 1], c);
      if Occupied(states[n - 1].clients, c) {
        k := ClientsAsAccepted(size, listenFd, states, events, n - 1, c, fd, addr);
      } else {
        k := n - 1;
      }
    }
  }

  ghost predicate OpenedBy(states: seq<State>, events: seq<Event>, n: nat, v: int, k: nat, fd: int, addr: nat)
    requires n < |states| && n <= |events|
  {
    && k < n && events[k].OpenTo? && events[k].fd == fd && events[k].addr == addr && FirstOpen(states[k].servers, v)
    && forall m :: k < m <= n ==> ServerAt(states[m], v, fd, addr)
  }

  /** And every live server was connected to with its fd and address. */
  lemma {:induction false} ServersAsOpened(size: nat, listenFd: int, states: seq<State>, events: seq<Event>, n: nat,
                                           v: int, fd: int, addr: nat) returns (k: nat)
    requires IsRun(states, events) && states[0] == Initial(size, listenFd) && n <= |events|
    requires ServerAt(states[n], v, fd, addr)
    ensures OpenedBy(states, events, n, v, k, fd, addr)
  {
    if n == 0 {
      InitialResult(size, listenFd);
      assert false;
    } else {
      RunKeepsInv(size, listenFd, states, events, n - 1);
      StepKeepsServers(states[n - 1], size, listenFd, events[n - 1], v);
      if Occupied(states[n - 1].servers, v) {
        k := ServersAsOpened(size, listenFd, states, events, n - 1, v, fd, addr);
      } else {
        k := n - 1;
      }
    }
  }

  // ---- what follows ----

  /** Live servers and live connections correspond one to one. */
  lemma ServersMatchConnections(s: State, size: nat, listenFd: int)
    requires Inv(s, size, listenFd)
    ensures forall v :: Occupied(s.servers, v) ==> exists i :: Occupied(s.conns, i) && s.conns[i].value.serv == v
    ensures forall i, j ::
              Occupied(s.conns, i) && Occupied(s.conns, j) && s.conns[i].value.serv == s.conns[j].value.serv ==> i == j
  {
    forall v | Occupied(s.servers, v)
      ensures exists i :: Occupied(s.conns, i) && s.conns[i].value.serv == v
    {
      var i :| i in OnServer(s.conns, v);
      assert Occupied(s.conns, i);
    }
    forall i, j | Occupied(s.conns, i) && Occupied(s.conns, j) && s.conns[i].value.serv == s.conns[j].value.serv
      ensures i == j
    {
      var on := OnServer(s.conns, s.conns[i].value.serv);
      assert Closable(s, i) && i in on && j in on;
      OnlyMember(on, i);
    }
  }

  /** Closing a connection leaves every other one, and the end points of those. */
  lemma CloseLeavesOthers(s: State, size: nat, listenFd: int, i: nat, k: nat)
    requires Inv(s, size, listenFd) && Occupied(s.conns, i) && Occupied(s.conns, k) && i != k
    ensures Closable(s, i)
    ensures var t, x := CloseConn(s, i), s.conns[k].value;
            && t.conns[k] == Some(x)
            && t.servers[x.serv] == s.servers[x.serv] && t.servers[x.serv].Some?
            && t.clients[x.clit].Some? && t.clients[x.clit].value.fd == s.clients[x.clit].value.fd
  {
    CloseResult(s, i);
    CloseWired(s, i);
    ServersMatchConnections(s, size, listenFd);
    var t := CloseConn(s, i);
    assert Occupied(t.conns, k) && Closable(t, k);
  }

  /** Closing a connection right after opening it restores everything but the marks; a client that had no
    * connection before goes too.
    */
  lemma CloseUndoesOpen(s: State, size: nat, listenFd: int, c: nat, fd: int, addr: nat)
    requires Inv(s, size, listenFd) && Enabled(s, OpenTo(c, fd, addr))
    ensures var (t, i) := Open(s, c, fd, addr);
            var back := s.(maxfd := t.maxfd, maxServ := t.maxServ, maxConn := t.maxConn);
            && i >= 0 && Closable(t, i)
            && CloseConn(t, i) == if s.clients[c].value.numServ == 0 then CloseClit(back, c) else back
  {
    OpenResult(s, size, c, fd, addr);
    OpenWired(s, size, c, fd, addr);
    var (t, i) := Open(s, c, fd, addr);
    CloseResult(t, i);
    AddedAndRemoved(s, listenFd, fd);
    CloseAfterOpen(s, t, c, fd, i);
  }

  lemma CloseAfterOpen(s: State, t: State, c: nat, fd: int, i: nat)
    requires Wired(s) && Occupied(s.clients, c) && Occupied(t.conns, i) && Closable(t, i) && i < |s.conns| &&
             s.conns[i] == None
    requires t.conns == s.conns[i := Some(t.conns[i].value)] && t.conns[i].value.clit == c
    requires t.clients == s.clients[c := Some(s.clients[c].value.(numServ := s.clients[c].value.numServ + 1))]
    ensures OnClient(t.conns, c) == {i} <==> s.clients[c].value.numServ == 0
    ensures t.conns[i := None] == s.conns
    ensures t.clients[c := s.clients[c]] == s.clients && t.clients[c := None] == s.clients[c := None]
  {
    OnClientAdded(s.conns, i, t.conns[i].value, c);
    OnlyMember(OnClient(t.conns, c), i);
  }

  lemma AddedAndRemoved(s: State, listenFd: int, fd: int)
    requires Polled(s, listenFd) && fd !in s.readSet
    ensures s.readSet + {fd} - {fd} == s.readSet && s.writeSet + {fd} - {fd} == s.writeSet
  {
  }

  // ---- lookups ----

  datatype Query = ByClient(fd: int, addr: nat) | ByServer(fd: int)

  ghost predicate Matches(s: State, q: Query, i: nat)
    requires Closable(s, i)
  {
    var x := s.conns[i].value;
    match q
    case ByClient(fd, addr) => s.clients[x.clit].value.fd == fd && s.servers[x.serv].value.addr == addr
    case ByServer(fd) => s.servers[x.serv].value.fd == fd
  }

  /** The first matching connection in slots `i` to `n - 1`, or -1. */
  ghost function FirstConn(s: State, q: Query, i: nat, n: nat): (r: int)
    requires Wired(s) && n <= |s.conns|
    ensures -1 <= r < |s.conns|
    ensures r != -1 ==> i <= r < n && Closable(s, r) && Matches(s, q, r)
    ensures forall j :: i <= j < n && (r == -1 || j < r) && Occupied(s.conns, j) ==> !Matches(s, q, j)
    decreases n - i
  {
    if i >= n then -1 else if Occupied(s.conns, i) && Matches(s, q, i) then i else FirstConn(s, q, i + 1, n)
  }

  /** Scanning up to the high-water mark finds what scanning the whole table finds. */
  lemma MarkIsEnough(s: State, size: nat, q: Query)
    requires Wired(s) && Counted(s, size)
    ensures FirstConn(s, q, 0, s.maxConn + 1) == FirstConn(s, q, 0, size)
  {
    var near, far := FirstConn(s, q, 0, s.maxConn + 1), FirstConn(s, q, 0, size);
    assert far != -1 ==> Occupied(s.conns, far) && far <= s.maxConn;
  }

  /** The connection of a live server is always found: the error branch of `server2client` is dead. */
  lemma ServerIsFound(s: State, size: nat, listenFd: int, v: nat)
    requires Inv(s, size, listenFd) && Occupied(s.servers, v)
    ensures var r := FirstConn(s, ByServer(s.servers[v].value.fd), 0, size);
            r != -1 && s.conns[r].value.serv == v
  {
    ServersMatchConnections(s, size, listenFd);
    var fd := s.servers[v].value.fd;
    var i :| Occupied(s.conns, i) && s.conns[i].value.serv == v;
    var r := FirstConn(s, ByServer(fd), 0, size);
    assert Closable(s, i) && Matches(s, ByServer(fd), i);
    var w := s.conns[r].value.serv;
    assert LiveEnd(s, AtServer(v)) && LiveEnd(s, AtServer(w)) && FdOf(s, AtServer(v)) == FdOf(s, AtServer(w));
  }

  /** A client's lookup by address finds one of its own connections, and finds one whenever there is one. */
  lemma ClientIsFound(s: State, size: nat, listenFd: int, c: nat, addr: nat)
    requires Inv(s, size, listenFd) && Occupied(s.clients, c)
    ensures var r := FirstConn(s, ByClient(s.clients[c].value.fd, addr), 0, size);
            && (r != -1 ==> s.conns[r].value.clit == c && s.servers[s.conns[r].value.serv].value.addr == addr)
            && (r == -1 <==> forall i :: Occupied(s.conns, i) && s.conns[i].value.clit == c ==>
                  s.servers[s.conns[i].value.serv].value.addr != addr)
  {
    var q := ByClient(s.clients[c].value.fd, addr);
    var r := FirstConn(s, q, 0, size);
    if r != -1 {
      var d := s.conns[r].value.clit;
      assert LiveEnd(s, AtClient(c)) && LiveEnd(s, AtClient(d)) && FdOf(s, AtClient(c)) == FdOf(s, AtClient(d));
    } else {
      forall i | Occupied(s.conns, i) && s.conns[i].value.clit == c
        ensures s.servers[s.conns[i].value.serv].value.addr != addr
      {
        assert Closable(s, i) && !Matches(s, q, i);
      }
    }
  }

  // ---- one connection per address ----

  ghost function AddrOf(s: State, i: int): nat
    requires Wired(s) && Occupied(s.conns, i)
  {
    assert Closable(s, i);
    s.servers[s.conns[i].value.serv].value.addr
  }

  /** No client has two connections to one address. */
  ghost predicate OnePerAddress(s: State)
    requires Wired(s)
  {
    forall i, j :: Occupied(s.conns, i) && Occupied(s.conns, j) && i != j ==>
      s.conns[i].value.clit != s.conns[j].value.clit || AddrOf(s, i) != AddrOf(s, j)
  }

  lemma AcceptKeepsOnePerAddress(s: State, fd: int, addr: nat)
    requires Wired(s) && OnePerAddress(s)
    ensures Wired(AddClient(s, fd, addr).0) && OnePerAddress(AddClient(s, fd, addr).0)
  {
    AddClientWired(s, fd, addr);
  }

  lemma CloseKeepsOnePerAddress(s: State, size: nat, listenFd: int, i: nat)
    requires Inv(s, size, listenFd) && Occupied(s.conns, i) && OnePerAddress(s)
    ensures Closable(s, i) && Wired(CloseConn(s, i)) && OnePerAddress(CloseConn(s, i))
  {
    CloseResult(s, i);
    CloseWired(s, i);
    var t := CloseConn(s, i);
    forall k | Occupied(t.conns, k)
      ensures Occupied(s.conns, k) && t.conns[k] == s.conns[k] && AddrOf(t, k) == AddrOf(s, k)
    {
      CloseLeavesOthers(s, size, listenFd, i, k);
    }
  }

  /** An open keeps it exactly when the lookup that `client2server` makes first finds no connection;
    * `ask_for_nolist` opens without looking.
    */
  lemma OpenKeepsOnePerAddressExactly(s: State, size: nat, listenFd: int, c: nat, fd: int, addr: nat)
    requires Inv(s, size, listenFd) && Enabled(s, OpenTo(c, fd, addr)) && OnePerAddress(s)
    ensures Wired(Open(s, c, fd, addr).0)
    ensures OnePerAddress(Open(s, c, fd, addr).0) <==>
            FirstConn(s, ByClient(s.clients[c].value.fd, addr), 0, size) == -1
  {
    OpenResult(s, size, c, fd, addr);
    OpenWired(s, size, c, fd, addr);
    ClientIsFound(s, size, listenFd, c, addr);
    var (t, n) := Open(s, c, fd, addr);
    assert AddrOf(t, n) == addr && t.conns[n].value.clit == c;
    forall k | Occupied(s.conns, k)
      ensures Occupied(t.conns, k) && k != n && t.conns[k] == s.conns[k] && AddrOf(t, k) == AddrOf(s, k)
    {
      assert Closable(s, k);
    }
    var r := FirstConn(s, ByClient(s.clients[c].value.fd, addr), 0, size);
    if r != -1 {
      assert Occupied(t.conns, r) && AddrOf(t, r) == addr && t.conns[r].value.clit == c;
    } else {
      forall i, j | Occupied(t.conns, i) && Occupied(t.conns, j) && i != j &&
        t.conns[i].value.clit == t.conns[j].value.clit
        ensures AddrOf(t, i) != AddrOf(t, j)
      {
        assert i != n ==> Occupied(s.conns, i) && AddrOf(t, i) == AddrOf(s, i);
        assert j != n ==> Occupied(s.conns, j) && AddrOf(t, j) == AddrOf(s, j);
      }
    }
  }

  /** Every open of the run comes after a lookup that found nothing. */
  ghost predicate LooksFirst(states: seq<State>, events: seq<Event>, size: nat)
    requires IsRun(states, events)
  {
    forall k :: 0 <= k < |events| && events[k].OpenTo? && Wired(states[k]) && |states[k].conns| == size ==>
      FirstConn(states[k], ByClient(states[k].clients[events[k].clit].value.fd, events[k].addr), 0, size) == -1
  }

  /** In runs that look before they open, no client ever has two connections to one address. */
  lemma {:induction false} RunKeepsOnePerAddress(size: nat, listenFd: int, states: seq<State>, events: seq<Event>,
      k: nat)
    requires IsRun(states, events) && states[0] == Initial(size, listenFd) && k < |states| &&
             LooksFirst(states, events, size)
    ensures Wired(states[k]) && OnePerAddress(states[k])
  {
    RunKeepsInv(size, listenFd, states, events, k);
    if k > 0 {
      RunKeepsOnePerAddress(size, listenFd, states, events, k - 1);
      RunKeepsInv(size, listenFd, states, events, k - 1);
      var s := states[k - 1];
      match events[k - 1]
      case Accept(fd, addr) => AcceptKeepsOnePerAddress(s, fd, addr);
      case OpenTo(c, fd, addr) => OpenKeepsOnePerAddressExactly(s, size, listenFd, c, fd, addr);
      case Close(i) => CloseKeepsOnePerAddress(s, size, listenFd, i);
    }
  }
}
