# VideoCDN: verified models of routing, pooling, DNS and bitrate adaptation

VideoCDN is an HTTP proxy that adapts the bitrate of the video segments its clients ask for, and a DNS
name server that spreads those clients over video servers. This project models the parts of both that
work in memory and proves what they promise.

| files | what they model |
|---|---|
| `MList.dfy`, `MQueue.dfy` | the doubly linked list and the deque, on the heap |
| `Options.dfy`, `Seqs.dfy` | optional values, and sequences without repetitions |
| `Search.dfy`, `Bfs.dfy` | breadth-first search for the nearest server: as a function on a graph, and as nested loops over heap nodes and the heap deque |
| `Topology.dfy`, `Routes.dfy`, `RoundRobin.dfy`, `Ospf.dfy` | the server list and the link-state adverts, the routing table, `route` in both modes |
| `PoolState.dfy`, `Pool.dfy` | the proxy's slot tables, reference counts, marks and fd sets: as a value with steps and runs, and as a class over arrays |
| `DnsName.dfy`, `DnsMessage.dfy`, `DnsBuffers.dfy`, `NameServer.dfy` | names and messages as byte sequences, the functions that read and write them in buffers, one request from bytes to bytes |
| `Throughput.dfy`, `Bitrate.dfy`, `MediaPath.dfy` | the moving average, the choice of a bitrate, the rewriting of a path |

C code that updates state is a class or a method over arrays, and each such method is proved to compute a
specification function; the laws are lemmas about those functions.

The main results:

- Whatever the graph, the search ends, with a nearest server if the client can reach one and at
  `assert(0)` if not. This needs "clients are never servers", and fails for every client that is one.
- After any server list and adverts each node has the number and neighbours of its newest advert. The
  graph is the same for every permutation of the lines if and only if lines that tie for the largest
  number of a node agree; then no answer of `route` depends on the order either.
- In every state reached, what is on `servs`, `clits` and the lists of neighbours are cells of the list of
  nodes, and comparing cells is comparing names.
- With k different servers (fewer than 2^32), any k round-robin answers in a row, also with rejected
  requests in between, name all k of them if and only if the 32-bit counter does not wrap among them or k divides 2^32.
- In every run of accept, open and close steps the reference counts, live counters, marks and fd sets
  are right; servers and connections correspond one to one; closing never leaves a dangling index. Clients
  are conserved, and every live one has the fd and address it was accepted with. The class over arrays takes
  these runs in place, from its construction on.
- No client has two connections to one address as long as every open comes after a lookup; an open breaks
  this if and only if the lookup would have found a connection.
- A client that resolves the reference host through start-up, query, `serve`, and reply gets the address of
  a nearest server. Another host is accepted if and only if its labels before the first empty one are
  those of the reference host (so `video.cs.cmu.edu.` is). The client takes an answer exactly if it is to a
  query with its own identifier and name.
- The average stays within its samples and decays geometrically to a constant sample. It rests up to
  1/alpha below it, and a positive average exactly there; an average of 0 rests for samples below 1. In any
  run of the table each pair of addresses has the average of its own samples.

Some expectations hold only in part. Each has its exact condition, for all inputs, and an input that fails it:

- rewriting twice equals rewriting once only when "/vod/" precedes "Seg" or there is no "Seg":
  `MediaPaths.OverwritesExactly`, and `/Seg-Frag/vod/` in `MediaPaths.OverwriteCanFail`;
- `isVideo` keeps its answer only if the replaced piece did not hold the only "Frag":
  `MediaPaths.IsVideoKeptExactly`, and `/vod/FragSeg1` in `MediaPaths.IsVideoCanChange`;
- the graph is independent of the order of adverts only if lines that tie at the top agree:
  `Topologies.OrderIrrelevantExactlyWhenTiesAgree`, and two lines in both orders in `Topologies.OrderCanMatter`;
- round robin stays fair past the wrap of its counter for good only if the number of servers divides 2^32,
  and in the second round only where that round comes out even: `RoundRobin.FairForever`,
  `RoundRobin.FairExactly`, and 2^32 + 1 queries to three servers in `RoundRobin.ThreeServersUnfair`;
- the server accepts only its reference host, but for hosts with an empty label behind it (or one of a
  length divisible by 256): `DnsMessages.AcceptsExactly`, and `DnsMessages.TrailingDotAccepted`.

What stands for the outside world: parsed server and advert lines, fresh file descriptors, the DNS
identifier, elapsed times, the value in RCODE, the text-to-address conversion, and the bytes behind a
message in a buffer are all parameters, and the results hold for every value of them. The list of
nodes and the queue of the search are chains of cells on the heap; `servs`, `clits`, the lists of
neighbours and the routing table are sequences, the first three of cells of the list of nodes. Where the C
program would follow NULL, divide by zero or fail an assertion, the model has an explicit result (`None`,
`ok == false`).

`header_t` is laid out for a little-endian machine, where its bytes are those of section 4.1.1 of RFC 1035.

## Model

| member | source | states |
|---|---|---|
| MLists.Last | src/mlib/mlist.c:133-140 | from any cell, the walk ends at the chain's last cell |
| MLists.Get | src/mlib/mlist.c:85-90 | the nth cell, or NULL past the end |
| MLists.GetData | src/mlib/mlist.c:92-97 | the nth item, found exactly when n is below the length |
| MLists.FindCustom | src/mlib/mlist.c:109-118 | the first cell whose item satisfies the test, NULL when none does |
| MLists.Find | src/mlib/mlist.c:99-107 | the first cell holding the item, NULL when none does |
| MLists.Length | src/mlib/mlist.c:142-150 | the number of cells |
| MLists.Append | src/mlib/mlist.c:14-32 | from any cell of the chain, one fresh cell goes behind the last one and the chain stays doubly linked |
| MLists.Prepend | src/mlib/mlist.c:34-50 | one fresh cell goes in front of the given one, also in mid-chain, and the chain stays doubly linked |
| MLists.Insert | src/mlib/mlist.c:61-82 | the item ends up at the position, or at the end when that is negative or past the end |
| MLists.InsertedAtMeaning | src/mlib/mlist.c:61-82 | where the item is afterwards, also for a negative position and one past the end, and that all else stays |
| MLists.LinkBefore | src/mlib/mlist.c:74-81 | linking in front of an inner cell inserts there |
| MLists.ChainInserted | src/mlib/mlist.c:74-79 | the four pointer writes restore mutual links |
| MLists.RemoveLink | src/mlib/mlist.c:208-232 | exactly the given cell leaves; the "corrupted" messages are unreachable |
| MLists.ChainDropped | src/mlib/mlist.c:212-223 | bypassing a cell leaves the others mutually linked |
| MLists.Remove | src/mlib/mlist.c:164-179 | the first match goes and nothing else |
| MLists.DroppedAtMeaning | src/mlib/mlist.c:164-179 | putting the item back where it was restores the list |
| MLists.Relink | src/mlib/mlist.c:189-196 | the bypass step of the sweep, and the head it leaves |
| MLists.RemoveAll | src/mlib/mlist.c:182-203 | all matches go, in one pass; the remaining cells are old cells |
| MLists.WithoutKeepsTheRest | src/mlib/mlist.c:182-203 | removal keeps every other item as often as it occurred |
| MLists.WithoutConcat | src/mlib/mlist.c:182-203 | removal works piece by piece, so the rest keeps its order |
| MLists.WithoutIdempotent | src/mlib/mlist.c:182-203 | removing all twice is removing all once |
| MQueues.MQueue.EmptyMeansEmpty | src/mlib/mqueue.c:15-17 | head is NULL iff tail is, iff the length is 0, iff the queue holds nothing |
| MQueues.MQueue.IsEmpty | src/mlib/mqueue.c:15-17 | true exactly of a queue that holds nothing |
| MQueues.MQueue.PushHead | src/mlib/mqueue.c:51-58 | puts the item in front and keeps head, tail, length and links consistent |
| MQueues.MQueue.PushTail | src/mlib/mqueue.c:60-69 | puts the item at the end, although `mlist_append` returns the old tail |
| MQueues.MQueue.PopHead | src/mlib/mqueue.c:71-90 | takes the front item; nothing exactly when empty |
| MQueues.MQueue.PopTail | src/mlib/mqueue.c:92-110 | takes the last item; nothing exactly when empty |
| MQueues.RunScript | src/mlib/mqueue.c:51-110 | any interleaving of operations on the heap returns what a sequence would |
| MQueues.FirstInFirstOut | src/mlib/mqueue.c:60-90 | what is pushed at the tail comes out of the head in order, behind what was there |
| Searches.ShortPathsAreMarked | src/ospf.c:94-114 | with all nearer nodes settled, short paths from the client stay among marked nodes |
| Searches.FoundIsNearest | src/ospf.c:106-110 | the first server met is reachable and none is fewer hops away |
| Searches.ExhaustedMeansUnreachable | src/ospf.c:115-116 | an empty queue means that no server is reachable |
| Searches.TakeFront | src/ospf.c:96-97 | the queue is in order of distance, so its front may be expanded |
| Searches.Push | src/ospf.c:111-112 | marking at push time keeps levels and order, with the iterator where it was |
| Searches.MarkingShrinks | src/ospf.c:111-113 | the push branch, which does not advance the iterator, uses up an unmarked node: why the search ends on every graph |
| Searches.SearchInside | src/ospf.c:98-113 | the search is right from any state inside the inner loop |
| Searches.SearchBetween | src/ospf.c:95-96 | the search is right from any state of the outer loop |
| Searches.NearestIsCorrect | src/ospf.c:81-117 | for every graph and client that is not a server: a nearest server, or none exactly when none is reachable |
| Searches.CorrectExactlyForNonServers | src/ospf.c:81-117 | the search is right if and only if the client is not a server |
| Searches.FirstServerListed | src/ospf.c:97-110 | of servers that are neighbours of the client the one listed first is found |
| Bfs.UnmarkAll | src/ospf.c:84 | the walk over the list clears every mark, whatever malloc left there |
| Bfs.LookAt | src/ospf.c:99-112 | passes a marked neighbour, stops at a server (found by its cell), otherwise pushes and marks |
| Bfs.Turn | src/ospf.c:98-113 | one turn of the inner loop: the iterator stays exactly when a node was pushed, and then an unmarked node is used up |
| Bfs.Scan | src/ospf.c:97-113 | the inner loop on the heap takes the steps of the search and ends |
| Bfs.Visit | src/ospf.c:95-114 | one turn of the outer loop, with progress in unmarked or queued nodes |
| Bfs.FindServer | src/ospf.c:84-116 | the nested loops over heap nodes and heap queue find what the search finds |
| Topologies.ApplyAdvertKeeps | src/ospf.c:162-190 | an advert keeps names unique, lists free of duplicates, everything mentioned a node, clients neither servers nor routers |
| Topologies.AddNeighborsEffect | src/ospf.c:185-190 | the inner loop gives the node its neighbours without repetitions and leaves all else recorded alone |
| Topologies.ApplyAdvertEffect | src/ospf.c:161-191 | an advert replaces what is recorded of its node exactly when newer, and lists a client |
| Seqs.DedupMeaning | src/ospf.c:213-221 | neighbours are listed once, and all are listed |
| Seqs.DedupGrows | src/ospf.c:213-221 | they are listed in the order of their first mention |
| Topologies.LoadedIsNewest | src/ospf.c:161-191 | after any adverts each node has the number and neighbours of the first line with the largest number, and exactly the announced non-servers that are no routers are clients |
| Topologies.RecordedIsMaximum | src/ospf.c:179-180 | the recorded number is the maximum of -1 and those announced; without a newer one there are no neighbours |
| Topologies.RouterMeaning | src/ospf.c:241-245 | a router is whoever is called "router" and something |
| Topologies.EdgesAreNewest | src/ospf.c:161-191 | the edges of a node are the names on the line that counts for it, in the order of their first mention |
| Topologies.OrderDoesNotMatter | src/ospf.c:161-191 | permuting or repeating lines leaves graph, records and clients as they are if top ties agree |
| Topologies.OrderMattersOtherwise | src/ospf.c:179-190 | if they do not, some permutation of the same lines changes the graph |
| Topologies.OrderCanMatter | src/ospf.c:179-190 | two lines for `router1` with number 1, in both orders: the neighbours are those of the line read first |
| Topologies.OrderIrrelevantExactlyWhenTiesAgree | src/ospf.c:161-191 | the condition is exact: every permutation of the lines gives the same graph if and only if top ties agree |
| Topologies.RepetitionIrrelevantExactlyWhenTiesAgree | src/ospf.c:161-191 | the same condition is exact for permutation and repetition together |
| Topologies.ServersAreListed | src/ospf.c:134-140 | the server list is the file's lines, in order |
| Routes.RoutedToNearest | src/ospf.c:45-56 | from the lines to the answer: exactly announced clients are answered, each with a nearest server of the list |
| Routes.FirstMentionedNeighbor | src/ospf.c:97-110 | a client whose advert mentions servers is sent to the first of them |
| Routes.ServedExactlyWhenReachable | src/ospf.c:37 | start-up passes all assertions if and only if every client reaches a server |
| Routes.AnswersIndependentOfOrder | src/ospf.c:45-56 | reordering adverts changes no answer, not even between equally near servers |
| Routes.ServersInTurn | src/ospf.c:27-32 | in round-robin mode the nodes are the listed servers, each once |
| Routes.InTurnMeaning | src/ospf.c:47-51 | the nth query goes to server n modulo their number, in the order of the list, and afresh after 2^32 |
| Routes.ConsecutiveAnswersDiffer | src/ospf.c:47-51 | k consecutive answers name k different servers, with the exact condition, for any number of servers |
| RoundRobin.ConsecutiveQueriesDiffer | src/ospf.c:47-51 | k consecutive turns differ if and only if the counter does not wrap among them or k divides 2^32 |
| RoundRobin.RepeatAcrossWrap | src/ospf.c:47-51 | which two turns coincide otherwise |
| RoundRobin.AnsweredQueriesDiffer | src/ospf.c:47-51 | k answers go to k different servers also with unanswered requests in between, under the same exact condition |
| RoundRobin.ThreeServersRepeat | src/ospf.c:49-50 | with three servers, the query before the wrap and the one after go to the same server |
| RoundRobin.TurnMeaning | src/ospf.c:49-50 | the turns go round in order and start afresh after 2^32 queries |
| RoundRobin.SharesBeforeWrap | src/ospf.c:47-51 | up to 2^32 queries each server has its even share |
| RoundRobin.FairBeforeWrap | src/ospf.c:47-51 | up to 2^32 queries no two loads differ by more than one |
| RoundRobin.SharesAfterWrap | src/ospf.c:47-51 | each full round of the counter adds the same shares again |
| RoundRobin.UnfairAfterTwoRounds | src/ospf.c:47-51 | from two rounds on the loads differ by two or more when k does not divide 2^32 |
| RoundRobin.FairExactly | src/ospf.c:47-51 | for every number of queries, whether the loads are within one of each other: k divides 2^32, or no wrap yet, or a second round that comes out even |
| RoundRobin.FairForever | src/ospf.c:47-51 | loads stay within one for ever if and only if k divides 2^32 |
| RoundRobin.RunFairExactly | src/ospf.c:47-51 | with unanswered requests in between, the loads are within one of each other exactly as the number of answers says |
| RoundRobin.ThreeServersUnfair | src/ospf.c:47-51 | three servers: fair after 2^32 queries, unfair after one more |
| Ospf.LinkState.CellsAreNames | src/ospf.c:168 | finding a cell of the list of nodes in another list, as `mlist_find` does, is finding its name |
| Ospf.LinkState.NamesAreUnique | src/ospf.c:198-211 | different cells of the list hold different nodes with different names |
| Ospf.LinkState.ListsHoldCells | src/ospf.c:120-123 | whatever is on `servs`, `clits` or a list of neighbours is a cell of `nodes`, so `unmark` reaches its node |
| Ospf.LinkState.FindNodeByName | src/ospf.c:201 | the cell of the node with the name, NULL when there is none |
| Ospf.LinkState.AppendNode | src/ospf.c:203-207 | a bare node in a fresh cell at the end of the list; the cells on all other lists stay valid |
| Ospf.LinkState.AddNewNode | src/ospf.c:198-211 | a name has one node, whose cell is returned; a new one starts bare |
| Ospf.LinkState.AddNewNeighbor | src/ospf.c:213-221 | the pointer test adds each neighbour once |
| Ospf.LinkState.ParseServ | src/ospf.c:134-140 | one server line, its last character dropped |
| Ospf.LinkState.ParseServs | src/ospf.c:126-143 | the state after any server list |
| Ospf.Chopped | src/ospf.c:137 | a name with the line's last character behind it is the line |
| Ospf.LinkState.ReadNeighbors | src/ospf.c:185-190 | the inner loop, with nodes created as it goes |
| Ospf.LinkState.NoteClient | src/ospf.c:168-177 | lists a client by the three tests |
| Ospf.LinkState.RestartNode | src/ospf.c:180-183 | records the number and forgets the neighbours, of this node only |
| Ospf.LinkState.ParseAdvert | src/ospf.c:162-190 | one advert line, in place |
| Ospf.LinkState.ParseLsa | src/ospf.c:146-194 | the state after any adverts |
| Ospf.LinkState.StateSpellsGraph | src/ospf.c:97-106 | the heap state spells out the graph of the newest adverts, all of whose nodes `unmark` reaches |
| Ospf.LinkState.ShortestPath | src/ospf.c:81-117 | appends an entry with what the search finds for the client; fails exactly when it finds nothing |
| Ospf.LinkState.BuildTable | src/ospf.c:37 | one entry per client, in order, unless some client reaches no server |
| Ospf.LinkState.OspfInit | src/ospf.c:27-42 | start-up in both modes, from lines to table |
| Ospf.LinkState.Route | src/ospf.c:45-58 | the next server in turn, or the one routed to; None for a division by zero or NULL; counter and length wrap at 2^32 |
| Ospf.LinkState.RouteNearest | src/ospf.c:53-55 | the table lookup answers as the routes say |
| PoolState.FullTable | src/conn.c:70-90 | a table has no free slot exactly when its live slots are as many as its slots |
| PoolState.InitialInv | src/pool.c:16-49 | the pool starts out right |
| PoolState.InitialResult | src/pool.c:16-49 | what a new pool holds |
| PoolState.AddClientResult | src/pool.c:144-174 | the client gets the first free slot, with its fd and address, and is watched; a full table stays as it is |
| PoolState.AddServerResult | src/pool.c:178-209 | the same of a server |
| PoolState.AddConnResult | src/conn.c:60-91 | the connection gets the first free slot with its end points; the counts go up even in a full table |
| PoolState.AddClientWired | src/pool.c:144-174 | accepting a client keeps references and counts |
| PoolState.AddClientCounted | src/pool.c:144-174 | accepting a client keeps counters and marks |
| PoolState.AddClientPolled | src/pool.c:160-164 | accepting a client keeps the fd sets |
| PoolState.FreeTogether | src/proxy.c:273-275 | a server slot is free exactly when a connection slot is |
| PoolState.OpenResult | src/proxy.c:271-277 | so opening succeeds whenever `add_server` does, and what it leaves |
| PoolState.OpenWired | src/proxy.c:913-917 | opening keeps references and counts |
| PoolState.OpenCounted | src/proxy.c:284-290 | opening keeps counters and marks |
| PoolState.OpenPolled | src/pool.c:195-199 | opening keeps the fd sets |
| PoolState.CloseAsserts | src/conn.c:121-122 | the asserts in `close_conn` hold |
| PoolState.CloseResult | src/conn.c:114-136 | the server goes with its connection, the client exactly with its last one |
| PoolState.CloseWired | src/conn.c:114-136 | closing keeps references and counts |
| PoolState.CloseCounted | src/conn.c:114-136 | closing keeps counters and marks |
| PoolState.ClosePolled | src/pool.c:275-295 | closing keeps the fd sets: no other live slot used the cleared fds |
| PoolState.StepKeepsInv | src/proxy.c:271-302 | every step keeps the whole invariant |
| PoolState.RunKeepsInv | src/proxy.c:112-163 | every state of every run has it |
| PoolState.ConnectionsConserved | src/conn.c:81-133 | in every run live connections and live servers both number those opened less those closed |
| PoolState.ClientsConserved | src/pool.c:144-174 | in every run live clients number those accepted while a slot was free less those that left with their last connection |
| PoolState.ClientsAsAccepted | src/pool.c:149-174 | every live client was accepted with its fd and address and has been in its slot since |
| PoolState.ServersAsOpened | src/pool.c:183-209 | every live server was connected to with its fd and address and has been in its slot since |
| PoolState.ServersMatchConnections | src/proxy.c:405-416 | live servers and live connections correspond one to one |
| PoolState.CloseLeavesOthers | src/conn.c:114-136 | closing a connection leaves every other one with its end points |
| PoolState.CloseUndoesOpen | src/conn.c:60-136 | closing right after opening restores all but the high-water marks, and drops a client that had nothing else |
| PoolState.MarkIsEnough | src/conn.c:22-53 | scanning to the mark finds what scanning the table finds |
| PoolState.ServerIsFound | src/proxy.c:408-413 | a live server's lookup finds its own connection: the -1 branch is unreachable |
| PoolState.ClientIsFound | src/proxy.c:271-284 | a client's lookup finds one of its own connections to the address, and fails only if it has none |
| PoolState.AcceptKeepsOnePerAddress | src/pool.c:144-174 | accepting a client leaves each client with one connection per address |
| PoolState.CloseKeepsOnePerAddress | src/conn.c:114-136 | so does closing a connection |
| PoolState.OpenKeepsOnePerAddressExactly | src/proxy.c:271-277 | an open does if and only if the lookup finds nothing (`ask_for_nolist` does not look first) |
| PoolState.RunKeepsOnePerAddress | src/proxy.c:271-290 | in every run that looks before it opens no client has two connections to one address |
| Pools.Pool.constructor | src/pool.c:16-49 | the tables in place are fresh and in the initial state |
| Pools.Pool.AddClient | src/pool.c:144-174 | in place, the accept step |
| Pools.Pool.AddServer | src/pool.c:178-209 | in place, first free slot, counter, mark and fd sets |
| Pools.Pool.AddConn | src/conn.c:60-91 | in place, with a fresh record at its starting values; the reference counts go up even when no slot is free |
| Pools.Pool.OpenConn | src/proxy.c:272-275 | in place, the open step |
| Pools.Pool.CloseServ | src/pool.c:286-295 | in place, one server slot |
| Pools.Pool.CloseClit | src/pool.c:275-284 | in place, one client slot |
| Pools.Pool.CloseConn | src/conn.c:114-136 | in place, the close step, with the source's asserts proved |
| Pools.Pool.ClientGetConn | src/conn.c:17-32 | the first matching slot of the whole table |
| Pools.Pool.ServerGetConn | src/conn.c:39-53 | the first matching slot of the whole table |
| Pools.FindOrOpen | src/proxy.c:271-277 | looks for a connection to the address and opens one exactly when there is none |
| Pools.Perform | src/proxy.c:112-163 | one step of a run, in place |
| Pools.RunPool | src/proxy.c:112-163 | any run on a new pool: the tables in place end in the run's last state and have the whole invariant |
| DnsNames.LabelsMeaning | src/mydns.c:230-231 | the labels are the dot-free parts between the dots |
| DnsNames.DottedInjective | src/mydns.c:230-231 | and the only ones |
| DnsNames.ConvertedLength | src/mydns.c:148 | two bytes more than the host, for any host: the allocation is exact |
| DnsNames.FirstLabel | src/mydns.c:230-237 | the labels of a host, taken off one by one |
| DnsNames.EncodeCons | src/mydns.c:232-235 | a label is written behind its length, modulo 256 |
| DnsNames.DecodeEncode | src/mydns.c:222-240 | a decoder of length-prefixed labels (in section 3.1 of RFC 1035 those up to 63 bytes) reads labels of 1 to 255 bytes back, whatever follows |
| DnsNames.ConvertedDecodes | src/mydns.c:222-240 | so it reads the labels of a host back from what is written |
| DnsNames.ConvertedPrefixFree | src/mydns.c:222-240 | no two names have encodings of which one starts the other |
| DnsNames.GoodNamesAreWhole | src/mydns.c:252 | their only zero is the last byte, so `strlen` sees the whole name |
| DnsNames.CStrEncode | src/mydns.c:252 | otherwise it sees the labels before the first with length byte 0 |
| DnsNames.EncodeInjective | src/mydns.c:222-240 | labels shorter than 256 bytes, empty ones too, are determined by their encoding |
| DnsNames.TrailingDotIsCut | src/mydns.c:230-238 | the empty label behind a trailing dot leaves no trace in the C string |
| DnsMessages.AnsweredHeader | src/nameserver.c:172-174 | the byte writes set QR, AA and ANCOUNT of the header and nothing else |
| DnsMessages.HeaderReadsBack | src/mydns.h:57-74 | the header's bytes, read bit by bit as in section 4.1.1 of RFC 1035, give its fields |
| DnsMessages.QueryReadsBack | src/mydns.c:143-183 | a reader of sections 4.1.1 and 4.1.2 of RFC 1035 finds one question, type 1, class 1, no flag, and the host's labels |
| DnsMessages.AnyQueryReadsBack | src/mydns.c:242-274 | every byte of the query for any host |
| DnsMessages.AnsweredMeaning | src/mydns.c:198-200 | on any message: two flag bits and the answer count change, no other bit |
| DnsMessages.QueryInBuffer | src/nameserver.c:152-158 | the server measures a query right, whatever lies behind it in the buffer |
| DnsMessages.AnswerRoundTrip | src/nameserver.c:168-198 | for every host, identifier and address the client reads back the address that the server wrote |
| DnsMessages.TakesOwnAnswersOnly | src/mydns.c:202-205 | of all answers to queries the client takes exactly those with its identifier and name, and refuses every other |
| DnsMessages.ErrorRejected | src/nameserver.c:160-166 | the client rejects every error reply, whatever its code |
| DnsMessages.ErrorReplyMeaning | src/nameserver.c:160-166 | an error is the request with another value in four bits, and nothing else changed |
| DnsMessages.AcceptsSameCString | src/nameserver.c:200-207 | accepted exactly when the names agree up to the first zero |
| DnsMessages.AcceptsMeaning | src/nameserver.c:200-207 | on any buffer: every byte from the third to the reference's last is compared |
| DnsMessages.OtherQueriesRefused | src/nameserver.c:200-207 | a query with RD set, or for another type, is refused |
| DnsMessages.AcceptsExactly | src/nameserver.c:200-207 | for any host: accepted exactly when its labels before the first cut are the reference host's |
| DnsMessages.AcceptsOnlyReference | src/nameserver.c:200-207 | among well-formed hosts exactly the reference host is accepted |
| DnsMessages.TrailingDotAccepted | src/nameserver.c:200-207 | the reference host with a dot behind it is accepted too |
| DnsMessages.ResolveExactly | src/mydns.c:109-131 | the whole exchange: the address for the reference host, an error otherwise |
| DnsMessages.ReferenceHostIsGood | src/nameserver.c:10 | the server's reference host is well-formed |
| DnsMessages.ReferenceHostBytes | src/nameserver.c:10 | its characters, and its bytes on the wire |
| DnsMessages.ReplyHeader | src/nameserver.c:169-174 | the reply is an authoritative response with one answer and echoes the question |
| DnsMessages.ReplyRecord | src/nameserver.c:176-196 | a reader of section 4.1.3 of RFC 1035 finds an address record for the host behind it |
| DnsBuffers.ConvertName | src/mydns.c:222-240 | the moving pointer writes the encoded labels and the zero, and nothing behind |
| DnsBuffers.PutLabel | src/mydns.c:232-235 | one label behind its length byte |
| DnsBuffers.MakeQuery | src/mydns.c:143-183 | the packet stands for the query's bytes |
| DnsBuffers.PacketToBuffer | src/mydns.c:242-275 | writes those bytes and nothing behind them |
| DnsBuffers.ParseResponse | src/mydns.c:191-214 | compares, locates and reads in the buffers, and marks the request as answered |
| DnsBuffers.LengthOf | src/nameserver.c:152-158 | the query's length in the buffer |
| DnsBuffers.GenErr | src/nameserver.c:160-166 | changes only the four bits of RCODE |
| DnsBuffers.GenRes | src/nameserver.c:168-198 | writes the reply and nothing behind it |
| DnsBuffers.Parse | src/nameserver.c:200-207 | 0 exactly for a buffer that agrees with the reference from the third byte |
| NameServer.Answer | src/nameserver.c:136-141 | the response branch: the routed server's address; in round-robin mode an answer uses up one turn |
| NameServer.Serve | src/nameserver.c:126-143 | one request: error or answer, from bytes to bytes; an error uses up no turn |
| NameServer.ServeAll | src/nameserver.c:61-78 | any run of requests: each gets the response for the server whose turn it is, counting accepted requests only |
| NameServer.RunNamesAllServers | src/nameserver.c:115-150 | k accepted requests, rejected ones in between, go to the k different servers, under the exact condition |
| NameServer.LoadsFairExactly | src/nameserver.c:115-150 | after any requests, accepted and rejected, exactly when the servers' loads are within one of each other |
| NameServer.ResolvesToNearest | src/mydns.c:79-136 | files to address: the client gets a nearest server's address for the reference host and an error for others |
| NameServer.ResolvesInTurn | src/nameserver.c:126-143 | by round robin the client gets the address of the server whose turn it is |
| Throughputs.AverageBounded | src/conn.c:150-161 | over any run the average lies between the floor of the smallest sample and the largest |
| Throughputs.SampleMeaning | src/conn.c:150 | every full thousand of bytes is eight kilobits |
| Throughputs.WholeThroughput | src/conn.c:150-151 | the whole number stored as the connection's throughput |
| Throughputs.TruncMeaning | src/conn.c:159 | the conversion to int cuts towards zero |
| Throughputs.UpdateMeaning | src/conn.c:156-159 | the whole part of alpha of the sample and the rest of the old average; after 0, of the sample |
| Throughputs.ConstantIsAverages | src/conn.c:150-161 | repeating an update is a run of equal samples |
| Throughputs.PowersMultiply | src/conn.c:157 | the powers of 1-alpha in the bound are powers |
| Throughputs.ErrorDecays | src/conn.c:150-161 | in a run of equal samples the error falls by 1-alpha per update, down to 1/alpha, despite truncation and restart |
| Throughputs.RestsExactly | src/conn.c:156-159 | when an update changes nothing: a positive average at most s and less than 1/alpha below it, or 0 with s below 1 |
| Throughputs.MovesTowards | src/conn.c:156-159 | until then it moves towards the sample and never past it (its floor, from above) |
| Throughputs.ComesToRest | src/conn.c:150-161 | from any start it comes to rest, after at most as many updates as it is away from the sample's floor |
| Throughputs.ThruTable.GetThruByAddrs | src/conn.c:165-178 | the pair's first slot, or -1 |
| Throughputs.ThruTable.AddThru | src/conn.c:180-201 | a pair goes to the next slot, with a fresh record and average 0, -1 when full; no pair has two slots as long as only new ones are added |
| Throughputs.ThruTable.FindOrAddThru | src/proxy.c:314-317 | the lookup before adding keeps every pair to one slot |
| Throughputs.ThruTable.UpdateThruput | src/conn.c:140-162 | one update of one pair's average, the others stay; what is stored as the connection's throughput, in bits and seconds |
| Throughputs.AveragesAfterChunk | src/conn.c:140-162 | a chunk moves the average of its own pair and no other |
| Throughputs.NoSamplesUnasked | src/proxy.c:314-317 | a pair that was never asked for has no samples, so it starts from 0 |
| Throughputs.RunTable | src/proxy.c:509-515 | any run of requests and chunks on a new table: one entry per pair, holding the average of that pair's own samples in order; it breaks off exactly at a chunk of an unknown pair or a full table |
| Bitrates.Choose | src/proxy.c:326-343 | the largest offer that takes at most two thirds of the throughput, otherwise the minimum of 100 and the offers |
| Bitrates.BudgetMeaning | src/proxy.c:328 | a rate is within the truncated budget if and only if three times it is at most twice the throughput |
| Bitrates.ChoiceIsLargestWithin | src/proxy.c:326-343 | the choice, without the budget |
| Bitrates.ChoiceUnique | src/proxy.c:326-343 | that determines the choice |
| Bitrates.ChoiceIgnoresOrder | src/proxy.c:331-340 | order and repetition of the offers do not matter |
| Bitrates.ChoiceMonotone | src/proxy.c:328-343 | a higher average never lowers the rate |
| Bitrates.ChoiceOfferedExactly | src/proxy.c:329-343 | when the choice is itself an offer |
| Bitrates.ChoiceWithinThroughput | src/proxy.c:328-332 | a fitting rate is at most two thirds of the throughput |
| MediaPaths.RewrittenParts | src/media.c:102-117 | prefix through "/vod/" and suffix from "Seg" stay, the rate's decimal stands between, and they are again the first ones |
| MediaPaths.RateReadable | src/media.c:113-114 | the rate can be read back |
| MediaPaths.DecimalMeaning | src/media.c:113 | the decimal has the rate's value, no leading zero, and digits only behind a sign |
| MediaPaths.ValueOfMore | src/media.c:113 | its digits are read in base ten |
| MediaPaths.ModiPathMeaning | src/media.c:102-117 | on any path: what stands between the first "/vod/" and the first "Seg", wherever they are |
| MediaPaths.ModiPathOther | src/media.c:109 | a path without "Seg" stays |
| MediaPaths.IsVideoMeaning | src/media.c:124-130 | both "Seg" and "Frag" occur, in whatever places |
| MediaPaths.RewriteOverwrites | src/media.c:93-122 | rewriting again replaces the rate |
| MediaPaths.RewriteGrows | src/media.c:93-122 | with "Seg" first, the path grows instead |
| MediaPaths.OverwritesExactly | src/media.c:93-122 | the exact condition under which the second rewriting makes the first invisible |
| MediaPaths.OverwriteCanFail | src/media.c:93-122 | a video's path in which both rates remain, and the path that results |
| MediaPaths.BothRatesRemain | src/media.c:93-122 | with "Seg" first, the path after two rewritings, both rates in it |
| MediaPaths.IsVideoRewritten | src/media.c:124-130 | what `isVideo` says of a rewritten path |
| MediaPaths.IsVideoKeptExactly | src/media.c:124-130 | when it keeps its answer: no "Frag" before, or one outside the replaced piece |
| MediaPaths.IsVideoKeptInOtherOrder | src/media.c:124-130 | always when "Seg" does not come after "/vod/" |
| MediaPaths.IsVideoCanChange | src/media.c:124-130 | an input whose answer changes |
| MediaPaths.IndexOf | src/media.c:102-104 | the first occurrence, or none |
| MediaPaths.RewriteInPlace | src/media.c:93-122 | the path's buffer and the connection's file both hold the rewritten path; without "Seg" nothing changes |

## Left out

- Sockets, `select`, sending and receiving, files, logs, header and URI parsing, error pages: input and output around the modelled state; they would add no hard property.
- libxml2 and src/parse_xml.c: the list of bitrates is an input.
- Tokenizing of file lines: lines come parsed; a missing file is an empty list. Lines that `sscanf` reads only in part, lines over 99 characters and names over the fixed buffer are not modelled.
- Memory: `malloc` never fails, `free` and leaks are not modelled, and buffers are required to be long enough for what is written.
- Ospf.LinkState.Route: the table is required to be built, since start-up ends at an assertion otherwise.
- Ospf.LinkState.AddNewNeighbor: the chains of `servs`, `clits`, the lists of neighbours and the routing table are sequences here; the operations on such chains are those of `MLists`, proved apart.
- PoolState.OpenResult: requires a free server slot, since a full table makes `add_server` return -1, which the caller then uses as an index.
- PoolState.RunKeepsInv: fds come fresh from the operating system, and FD_SETSIZE as a limit on their values is not modelled.
- Pools.Pool.AddConn: `start`, `end`, `cur_file` and `cur_size` of a connection, and the buffers' sizes of clients and servers, are not fields of the model.
- `update_conn`, `update_client`, `update_server`, `get_client`, `get_server` and the server list of src/media.c: unused by the running program.
- DnsMessages.ErrorRejected: does not say which code an error carries; `htonl(3)` in four bits is 0 on little-endian machines.
- DnsBuffers.PacketToBuffer: the response branch of `pkt2buf` and of `hostToNet`, which no caller takes, is not modelled.
- DnsBuffers.GenRes: the text-to-address conversion of `inet_pton` is a parameter of `NameServer.Serve`; a text that is no address is not modelled.
- Throughputs.ErrorDecays: computed over the reals; floating-point rounding and the width of `int` are not modelled.
- Throughputs.ThruTable.AddThru: the caller's use of -1 as an index when the table is full is not modelled.
- MediaPaths.RewriteInPlace: a path with "Seg" but without "/vod/", on which the C code subtracts from NULL, is excluded.
