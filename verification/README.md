# Lars: a model with proofs

Lars is a service-discovery and load-balancing system. A DNS service keeps the hosts of
each module, a pair (modid, cmdid), and pushes changes to the agents that asked for it. An
agent balances calls over the hosts of a module and pulls them from the DNS service. Both
sit on an epoll reactor with length-prefixed framing and a pooled buffer allocator. This
project models these four parts in Dafny and proves what they keep over whole runs.

The reactor, the balancer, the route table and the subscription list are classes with the
fields, loops and branches of the source. Each method is proved against a function on
values, and the properties of whole runs are lemmas about those functions.

| file | content |
|---|---|
| `Words.dfy` | packed 64-bit keys, header fields, shard index |
| `Framing.dfy`, `Transmission.dfy` | the wire format, any chunking, a sender and a receiver over whole runs |
| `IoBuf.dfy`, `BufPool.dfy`, `ReactorBuf.dfy` | buffers, the pool of linked free lists, the buffer of a connection |
| `EventLoop.dfy`, `TcpConn.dfy`, `Conns.dfy`, `ThreadQueue.dfy` | registrations, one connection, several on one loop and pool, the queue between threads |
| `LbSpec.dfy`, `LbRuns.dfy`, `LbLoss.dfy`, `LbHistory.dfy`, `Schedule.dfy`, `LoadBalance.dfy` | the balancer as values, its runs, dropped hosts, the history of one host, its schedule, its objects |
| `RouteLb.dfy`, `Agent.dfy` | pull discipline, a route table over balancer objects, the three ports |
| `DnsSpec.dfy`, `DnsRuns.dfy`, `Subscribe.dfy`, `RouteData.dfy` | subscriptions and pushes, whole runs, the loops, the double-buffered table |
| `Client.dfy`, `EndToEnd.dfy` | reply matching in the client, a host from its row to its caller and back |

## Where the code does not do what it is for

The model follows the code. In these places a property that the code is evidently for does
not hold, and the project proves exactly when it does.

- `load_balance::update` frees the hosts a response drops and leaves their map entries.
  `RunPartitionIff`: the hosts stay partitioned into the two queues over a run if and only
  if no response drops a managed host.
- The entry left behind points to freed memory. The next response that still omits the host
  reads it and frees it again, a report about it and a request for all hosts read it.
  `RunDefinedIff`: a run is free of this, and of an empty front, if and only if no event
  touches a host that an earlier response dropped and no choice comes when every host has
  been dropped and the counter is at its limit. `SecondFree` is the ordinary case: one host
  replaces another and the same response arrives once more. `StepLostIff`, `RunLostIff`: in
  a defined run a dropped host stays lost, and listing it again does not help.
- After a drop `choice_one_host` can take the front of an empty list. `EmptyFrontIff`:
  exactly when the counter is at its limit and every host ever listed has been dropped.
  `EmptyFrontReached` is such a run: two hosts replaced in turn. `Update` is the same code
  with the entries erased; with it every run is defined (`RunKeepsPartition`).
- The limits of a host hold over every defined run if and only if rates are nonnegative and streak
  limits positive (`WithinIff`).
- An empty body whose frame ends a read makes the receiver fail an assertion after the
  dispatch. `ChunkingTheorem`: it happens if and only if a read stops exactly there.
- A failed body in `send_message` pops eight bytes from the front of the buffer.
  `RollbackIff` and `NextAbortsIff`: the buffer is restored if and only if it was empty or
  too full for the header; otherwise the next send or write fails an assertion.
  `FullBufferAborts`: 128 messages of the largest size without a write lead there.
- `read_data` asks for 4096 bytes when the socket reported none. `ReadData` and `DoRead`: it
  writes past the buffer if and only if the connection holds a buffer that is too small for
  what arrives. `OverrunReached`: every open connection without input gets there with two
  reads. When fewer bytes arrive than were reported, an assertion fails.
- `add_io_event` stores only the read callback when both bits are given, and keeps an entry
  that the kernel refused. `AddIoEvent` states when the tables stay in step.
- `clear_subscribe` leaves pending pushes. `StepOnTargetIff`: pushes stay on target under
  every event except a connection on a descriptor with pushes pending. `ReuseMisses` is such
  a run: the push goes to a connection that never asked for it.
- `load_changes` asks for the new version and later. `PublishedAllIff`: everything changed
  since the last version seen is published if and only if every module changed at a version
  in between was changed again at the new version or later. `SkippedStaysStale` is a run in
  which a module changed in between never reaches the connection that asked for it.
- The reload every ten seconds changes the table and pushes nothing. `StepFreshIff` says
  when a new table leaves every connection current, and `UnannouncedStaysStale` is a run in
  which a reload leaves one stale.
- A push takes a module key apart into signed halves. `RepackIff`, `NegativeIdStaysStale`:
  it arrives if and only if the command id is not negative.
- `(modid + cmdid) % 3` is computed in 32 bits and keeps the sign of the sum.
  `ShardIndexIff` says for which ids it is a subscript; `ShardIndexOverflows` shows two
  positive ids for which it is -2.
- A UDP server serves whatever arrives at its port, while an answer goes to the table its
  ids select. `RunShardedIff`: every module lives in the table its ids select if and only if
  no request was sent to another port. `StrayStaysEmpty`: a balancer created at a wrong port
  never gets a host.
- `get_host` on an empty module never pulls, even after a reconnection (`EmptyNeverPulls`).
- The client's request counter wraps at 2^32. `SkipsLateReplyIff` says which late replies the
  receive loop still skips, and `WrapLosesReply` is a run in which call number 2^32 ends in
  an error although its own reply is queued.
- `get_route` takes the first datagram on a socket it shares with `get_host`. `ReplyMatching`:
  a host call ends in an error if and only if a route reply left behind comes first.
  `RouteReplyLeft` is a run in which that happens.

## Model

| member | source | states |
|---|---|---|
| Words.PackInjective | lars_dns/src/dns_route.cpp:99-100 | packing is injective on all pairs of 32-bit integers, so a module key names one pair |
| Words.UnpackModuleIff | lars_dns/src/subscribe.cpp:102-103 | taking a module key apart recovers the pair if and only if the low field is nonnegative |
| Words.HostKeyTripIff | lars_dns/src/dns_service.cpp:47-57 | a host key survives packing, unpacking into signed fields and repacking if and only if the port is nonnegative |
| Words.ShardIndexIff | lars_lb_agent/src/dns_client.cpp:11 | for which 32-bit ids the shard index is in range, with the sum wrapped to 32 bits |
| Words.ShardIndexMeans | api/cpp/lars_api/lars_api.cpp:80 | the index is the one number between -2 and 2 that is congruent to the 32-bit sum modulo three and not of the opposite sign |
| Words.ShardIndexSpreads | api/cpp/lars_api/lars_api.cpp:80 | neighbouring command ids use different ports, and three in a row use all three |
| Words.ShardIndexOverflows | lars_lb_agent/src/dns_client.cpp:11 | two positive ids whose index is -2 |
| Framing.FrameLayout | lars_reactor/src/tcp_conn.cpp:144-185 | where the message id, the length and the body stand on the wire, byte by byte |
| Framing.DecodeSplits | lars_reactor/src/tcp_conn.cpp:79-110 | decoding splits any bytes into whole frames within the limit and a remainder that starts none |
| Framing.DecodeUnique | lars_reactor/src/tcp_conn.cpp:79-110 | that split is the only one |
| Framing.DecodeResumes | lars_reactor/src/tcp_conn.cpp:79-112 | decoding can stop after any prefix and resume from what was left over |
| Framing.DrainMeetsDecode | lars_reactor/src/tcp_conn.cpp:79-110 | the receive loop dispatches exactly the reference decoding, closes on a bad header, and aborts if and only if its bytes end in an empty frame |
| Framing.DrainBound | lars_reactor/src/tcp_conn.cpp:79-112 | at most 65534 bytes are left over after a read |
| Framing.ChunkingTheorem | lars_reactor/src/tcp_conn.cpp:58-113 | for every stream and every cut into reads: abort if and only if a read stops behind an empty frame, otherwise the state is the decoding of the whole stream |
| Framing.RoundTrip | lars_reactor/src/tcp_conn.cpp:144-185 | whatever has arrived of a sent stream, exactly the complete messages are dispatched in order and a proper prefix of the next frame is left |
| Framing.SafeUnderEveryChunkingIff | lars_reactor/src/tcp_conn.cpp:98-109 | a stream is safe under every chunking if and only if it has no empty body |
| Framing.OversizeStops | lars_reactor/src/tcp_conn.cpp:83-88 | a message over the limit closes the receiver after exactly the messages before it |
| Framing.RollbackIff | lars_reactor/src/tcp_conn.cpp:161-177 | a send is accepted if and only if the whole frame fits; a failed one restores the buffer if and only if it was empty or too full for the header |
| Transmission.RunConserves | lars_reactor/src/tcp_conn.cpp:58-185 | over every allowed run, accepted bytes are dispatched, left over, in flight or buffered, in this order |
| Transmission.Delivery | lars_reactor/src/tcp_conn.cpp:58-185 | the peer has always dispatched a prefix of the accepted messages, and all of them once nothing is under way |
| Transmission.Progress | lars_reactor/src/tcp_conn.cpp:58-185 | from every state of every allowed run one write and enough reads deliver every accepted message |
| Transmission.NextAbortsIff | lars_reactor/src/reactor_buf.cpp:157-159 | after a send, the next send or write aborts if and only if only the header fitted |
| Transmission.FullBufferAborts | lars_reactor/src/tcp_conn.cpp:161-177 | an allowed run of 128 sends after which one more send and any send or write abort the process |
| IoBuf.Buffer.Adjust | lars_reactor/src/io_buf.cpp:34-45 | moving the window to the front over itself keeps the bytes |
| IoBuf.Buffer.Copy | lars_reactor/src/io_buf.cpp:48-53 | the other buffer's unprocessed bytes, at the front |
| IoBuf.Buffer.Pop | lars_reactor/src/io_buf.cpp:27-31 | drops processed bytes from the front |
| BufPool.SizeClass | lars_reactor/src/buf_pool.cpp:63-94 | the least size class that holds the request |
| BufPool.Pool.constructor | lars_reactor/src/buf_pool.cpp:46-55 | the seven lists are valid and nothing is handed out |
| BufPool.Pool.MakeList | lars_reactor/src/buf_pool.cpp:14-43 | a new acyclic list of distinct reset buffers, counted in the memory total |
| BufPool.Pool.Alloc | lars_reactor/src/buf_pool.cpp:58-124 | the pool invariant is kept; the buffer had no holder, is reset and of the least class; refusal and exit exactly when the source refuses or exits |
| BufPool.Pool.Revert | lars_reactor/src/buf_pool.cpp:132-151 | the pool invariant is kept and the buffer heads its own list, reset |
| BufPool.Books.RevertBalanced | lars_reactor/src/buf_pool.cpp:132-151 | returning a held buffer keeps free and held buffers a partition of all buffers made |
| BufPool.Books.TakeBalanced | lars_reactor/src/buf_pool.cpp:118-123 | taking a free buffer keeps the partition, and it was held by nobody |
| ReactorBuf.ConnBuf.Pop | lars_reactor/src/reactor_buf.cpp:21-32 | exactly when the assertion holds, and the buffer goes back when it becomes empty |
| ReactorBuf.ConnBuf.EnsureRoom | lars_reactor/src/reactor_buf.cpp:72-105 | contents survive the move to a larger buffer; no buffer, exit at the memory limit and the new capacity exactly as the free lists and the memory in use decide |
| ReactorBuf.ConnBuf.ReadData | lars_reactor/src/reactor_buf.cpp:59-134 | the bytes read are appended; failure, exit, failed assertion on a short read and the write past the buffer each exactly when the source has them |
| ReactorBuf.ConnBuf.SendData | lars_reactor/src/reactor_buf.cpp:184-227 | the bytes are appended, or nothing changes; refusal and exit exactly when the source has them |
| ReactorBuf.ConnBuf.WriteToFd | lars_reactor/src/reactor_buf.cpp:157-181 | as many bytes as the socket takes leave the buffer and the rest moves to the front |
| ReactorBuf.ConnBuf.Apart | lars_reactor/src/reactor_buf.cpp:59-227 | an operation on one connection's buffer touches no other holder's buffer |
| EventLoop.Loop.AddIoEvent | lars_reactor/src/event_loop.cpp:79-129 | which callback the new one replaces, what stays, and that the three tables stay in step with a callback for each bit if and only if the stated condition holds |
| EventLoop.Loop.DelIoEvent | lars_reactor/src/event_loop.cpp:132-142 | the descriptor leaves all three tables |
| EventLoop.Loop.DelIoEventMask | lars_reactor/src/event_loop.cpp:145-173 | the bits are dropped, and the descriptor with its last bit |
| EventLoop.FiresServed | lars_reactor/src/event_loop.cpp:28-70 | an event that was asked for runs the callback of its kind, reading before writing, and only an error without callbacks drops the descriptor |
| TcpConn.TakeFrame | lars_reactor/src/tcp_conn.cpp:79-110 | one turn of the framing loop on the heap buffer |
| TcpConn.DispatchAll | lars_reactor/src/tcp_conn.cpp:79-110 | the framing loop dispatches what the specification says |
| TcpConn.Conn.constructor | lars_reactor/src/tcp_conn.cpp:31-55 | a connection starts valid and watched for reading |
| TcpConn.Conn.HandlersRun | lars_reactor/src/tcp_conn.cpp:18-28 | a readable descriptor of an open connection runs its read handler, a writable one with something to write its write handler |
| TcpConn.Conn.DoRead | lars_reactor/src/tcp_conn.cpp:58-113 | which of the six ways a readable event ends in, exactly; it is one step of the receiver; the leftover is bounded, the window at the front, the output side untouched, other holders of the pool and other descriptors undisturbed |
| TcpConn.Conn.SendMessage | lars_reactor/src/tcp_conn.cpp:144-185 | the output buffer changes as specified, the write event is armed exactly while it is nonempty, accepted bytes are conserved; the assertion fails and the process exits at the memory limit exactly when stated |
| TcpConn.Conn.DoWrite | lars_reactor/src/tcp_conn.cpp:116-141 | for every script of partial writes exactly the bytes taken before an error or a full socket go to the wire, all of them if it takes enough; the write event is dropped exactly when nothing is left, and the connection is closed exactly when an error stops it |
| TcpConn.Conn.CleanConn | lars_reactor/src/tcp_conn.cpp:188-206 | the descriptor is forgotten and both buffers are back in the pool |
| Conns.Handle | lars_reactor/src/tcp_conn.cpp:58-185 | exactly when the process lives through an event at one connection; then the event has its effect, and every other connection on the same loop and pool stays valid with its contents, registration and history, and they still share nothing |
| Conns.OverrunReached | lars_reactor/src/reactor_buf.cpp:107-121 | on every open connection without input, two reads that end past the buffer |
| ThreadQueue.Queue.Send | lars_reactor/include/thread_queue.h:33-48 | sent messages are received batches followed by the queue, and the descriptor is readable exactly while the queue is nonempty |
| ThreadQueue.Queue.Recv | lars_reactor/include/thread_queue.h:51-70 | the same, and the batch is the whole queue |
| ThreadQueue.SendTask | lars_reactor/src/thread_pool.cpp:128-146 | every queue gets the task exactly once |
| LbRuns.ReportHostWithin | lars_lb_agent/src/load_balance.cpp:195-324 | a report leaves the host within the rate and streak limits of the state it ends in |
| LbRuns.ReportHostTallied | lars_lb_agent/src/load_balance.cpp:195-215 | the deciding counts are the initial counts plus the reported ones, and a change of state resets them |
| LbRuns.ReportHostWindow | lars_lb_agent/src/load_balance.cpp:294-324 | after a report the time in the present window is below its timeout |
| LbRuns.ReportTransitions | lars_lb_agent/src/load_balance.cpp:195-324 | everything a report does to its host, on the counts before it: when the state changes, when the counts start anew and with which, and that they otherwise count the call |
| LbRuns.ReportKeepsQueued | lars_lb_agent/src/load_balance.cpp:182-325 | a report reads freed memory if and only if its host is lost; otherwise it keeps the queues sound and loses or brings back nobody |
| LbRuns.ReportKeepsPartition | lars_lb_agent/src/load_balance.cpp:182-325 | a report keeps the partition of the hosts into the two queues |
| LbRuns.ReportMoves | lars_lb_agent/src/load_balance.cpp:237-323 | a report leaves the order and the counts of all other hosts as they were, and its host goes to the tail of the other queue exactly when its state changes |
| LbRuns.ChooseKeepsQueued | lars_lb_agent/src/load_balance.cpp:101-167 | a choice keeps the queues sound, returns a queued host, keeps the counter in range, and takes an empty front if and only if the counter is at its limit and every host is lost |
| LbRuns.ChooseKeepsPartition | lars_lb_agent/src/load_balance.cpp:117-167 | on a partition it never takes an empty front when there are hosts |
| LbRuns.MergeReplaces | lars_lb_agent/src/load_balance.cpp:23-98 | update as written, on every state with sound queues: it frees a host twice if and only if the response omits a lost one; otherwise the map grows by the response, survivors keep state, queue and order, exactly the unknown hosts join the idle tail with initial counters in the order of the response, and lost are those lost before and those dropped |
| LbRuns.MergeEmptiesIff | lars_lb_agent/src/load_balance.cpp:44-90 | a response leaves no host on a queue if and only if it lists only hosts lost before |
| LbRuns.UpdateReplaces | lars_lb_agent/src/load_balance.cpp:23-98 | with dropped entries erased, the map is exactly the response and nothing else differs from update as written |
| LbRuns.MergePartitionIff | lars_lb_agent/src/load_balance.cpp:61-90 | as written, the partition survives if and only if no managed host is dropped |
| LbRuns.RunKeepsQueued | lars_lb_agent/src/load_balance.cpp:23-325 | over every defined run as written: sound queues, counter range, and exactly when the next choice takes an empty front |
| LbRuns.RunPartitionIff | lars_lb_agent/src/load_balance.cpp:61-90 | over a run as written the hosts stay partitioned if and only if no response drops a managed host |
| LbRuns.RunKeepsPartition | lars_lb_agent/src/load_balance.cpp:23-325 | with dropped entries erased every run is defined and keeps the partition; and it is the run as written as long as nothing is dropped |
| LbRuns.RunKeepsWithin | lars_lb_agent/src/load_balance.cpp:182-325 | over every defined run, as written or erasing, every host is within the limits of its state |
| LbRuns.RunKeepsTally | lars_lb_agent/src/host_info.cpp:4-27 | over every defined run, as written or erasing, the counts of every host stay in step |
| LbLoss.StepLostIff | lars_lb_agent/src/load_balance.cpp:72-90 | one defined event as written: a host is lost afterwards if and only if it was lost before or is dropped |
| LbLoss.RunLostIff | lars_lb_agent/src/load_balance.cpp:34-90 | over every defined run the map holds exactly the hosts any response listed, and lost are exactly those some later response dropped |
| LbLoss.NextFaultIff | lars_lb_agent/src/load_balance.cpp:44-193 | after a defined run the next event uses freed memory if and only if it touches a host that an earlier response dropped, and takes an empty front if and only if it is a choice at the limit with every host dropped |
| LbLoss.RunDefinedIff | lars_lb_agent/src/load_balance.cpp:72-193 | a run as written is defined if and only if no event of its history does either |
| LbLoss.SecondFree | lars_lb_agent/src/load_balance.cpp:76-89 | after one host replaced another, the same response again, any other without the first host, a report about it and a request for all hosts each use freed memory |
| LbLoss.EmptyFrontIff | lars_lb_agent/src/load_balance.cpp:101-137 | the choice after a defined run takes an empty front if and only if the counter is at its limit and every host ever listed was dropped |
| LbLoss.EmptyFrontReached | lars_lb_agent/src/load_balance.cpp:104 | for all settings and any two hosts, a run that touches no freed host and takes an empty front with two hosts in the map |
| LbLoss.WithinIff | lars_lb_agent/src/main_server.cpp:16-25 | every defined run from creation keeps the limits if and only if rates are nonnegative and streak limits positive |
| LbHistory.CountsSince | lars_lb_agent/src/load_balance.cpp:195-324 | the counts and streaks of a host are exactly the calls since they last started anew, on top of the initial counts of its state |
| LbHistory.FirstOverload | lars_lb_agent/src/load_balance.cpp:218-253 | at which report a new host first turns overloaded within its first window, as a condition on the calls alone |
| LbHistory.TenthFailure | lars_lb_agent/src/main_server.cpp:16-25 | under the default settings it stays idle through nine failures and turns overloaded at the tenth |
| LbHistory.RunRecords | lars_lb_agent/src/load_balance.cpp:23-325 | over every defined run the record of a host is what the reports about it since its first listing make of a new host |
| Schedule.ExactSchedule | lars_lb_agent/src/load_balance.cpp:101-167 | which host the k-th choice returns, for every k, with overloaded hosts present |
| Schedule.RoundRobin | lars_lb_agent/src/load_balance.cpp:141-146 | without overloaded hosts the choices go round the idle queue |
| Schedule.EachOnce | lars_lb_agent/src/load_balance.cpp:141-146 | as many choices in a row as there are hosts return each exactly once, wherever they start |
| LoadBalance.Judge | lars_lb_agent/src/load_balance.cpp:195-324 | the branches of a report on a host object |
| LoadBalance.HostInfo.SetIdle | lars_lb_agent/src/host_info.cpp:16-27 | the fields of a host that turns idle |
| LoadBalance.HostInfo.SetOverload | lars_lb_agent/src/host_info.cpp:4-15 | the fields of a host that turns overloaded |
| LoadBalance.Balancer.Choose | lars_lb_agent/src/load_balance.cpp:117-167 | the objects move as the specification says; exactly when the front is empty |
| LoadBalance.Balancer.Report | lars_lb_agent/src/load_balance.cpp:182-325 | the same for a report; it faults if and only if its host object was deleted |
| LoadBalance.Balancer.Merge | lars_lb_agent/src/load_balance.cpp:23-98 | the three loops of update compute the specification and delete exactly the dropped host objects; they fault if and only if one of these was deleted before; no host object of another balancer enters |
| LoadBalance.Balancer.GetAllHosts | lars_lb_agent/src/load_balance.cpp:171-178 | every host of the map; it faults if and only if one was deleted |
| LoadBalance.Balancer.Update | lars_lb_agent/src/load_balance.cpp:23-98 | the same for update with the dropped entries erased |
| LoadBalance.Balancer.Commit | lars_lb_agent/src/load_balance.cpp:329-376 | nothing for a balancer without hosts; otherwise one line per queued host, idle ones first, each with its address, its successes, its errors and its queue, and none for a lost one |
| LoadBalance.CommitCounts | lars_lb_agent/src/load_balance.cpp:344-372 | over every defined run a line counts the successful and the failed calls reported about its host since its counts last started anew |
| LoadBalance.ResultsCover | lars_lb_agent/src/load_balance.cpp:344-372 | the lines are those of the queued hosts, in the order of the queues, and no other |
| RouteLb.ServeKeeps | lars_lb_agent/src/route_lb.cpp:12-199 | every request keeps the balancer's invariants, and if it does not fault only a response loses hosts, exactly those it drops |
| RouteLb.LifeIsRun | lars_lb_agent/src/route_lb.cpp:12-199 | a life in the route table is sound if and only if the run of its balancer is defined, and they agree on hosts, queues and counter |
| RouteLb.LifeKeeps | lars_lb_agent/src/route_lb.cpp:12-199 | over every sound life the queues are sound, lost are exactly the hosts some response dropped, and exactly when the next host request takes an empty front |
| RouteLb.ServeStatus | lars_lb_agent/src/route_lb.cpp:56-72 | a request pulls if and only if it may and the balancer is new and past its timeout; and what it does to the status |
| RouteLb.PullsIff | lars_lb_agent/src/route_lb.cpp:69-72 | when a pull is sent, on the history of a life: a route request, or a host request after some host was listed, with no pull under way and the last answer or the creation more than the update timeout ago |
| RouteLb.PullsAnswered | lars_lb_agent/src/route_lb.cpp:41-97 | over every life of a balancer, pulls are at most answers plus one while a pull is under way |
| RouteLb.PullsSpaced | lars_lb_agent/src/route_lb.cpp:69-72 | two pulls without a reconnection between them are more than the update timeout apart, and none is sent while one is under way |
| RouteLb.PullsApart | lars_lb_agent/src/route_lb.cpp:174-178 | the same from the pull of creation on |
| RouteLb.EmptyNeverPulls | lars_lb_agent/src/route_lb.cpp:56-60 | an empty balancer never pulls again on host requests, reports and reconnections |
| RouteLb.HandedOutIsFound | lars_lb_agent/src/load_balance.cpp:182-193 | the address a managed host is handed out with leads a report to its entry |
| RouteLb.TableServes | lars_lb_agent/src/route_lb.cpp:12-199 | what a request does to a table: other modules untouched, an unknown module created empty and pulling, an empty answer removes |
| RouteLb.Table.GetHost | lars_lb_agent/src/route_lb.cpp:41-97 | the table of balancer objects after a host request, its code, whether it pulled, and exactly when the choice is undefined |
| RouteLb.Table.GetRoute | lars_lb_agent/src/route_lb.cpp:144-199 | the table after a route request and all hosts of the module; it faults if and only if one of them was freed |
| RouteLb.Table.UpdateHost | lars_lb_agent/src/route_lb.cpp:12-38 | the table after an answer, with update as written; an empty one deletes the module; it faults if and only if the answer omits a freed host |
| RouteLb.Table.ReportHost | lars_lb_agent/src/route_lb.cpp:100-126 | the table after a report, and the results that are committed; it faults if and only if the host was freed |
| RouteLb.Table.ResetStatus | lars_lb_agent/src/route_lb.cpp:129-141 | every balancer may pull again and nothing else changes |
| Agent.ApiServes | lars_lb_agent/src/agent_udp_server.cpp:68-87 | a request is served by the table of its port, nothing else changes, and a pull is added exactly when it pulls |
| Agent.ReportReachesHost | lars_lb_agent/src/agent_udp_server.cpp:3-13 | a report changes the record of the host it names and no other |
| Agent.ReconnectResets | lars_lb_agent/src/dns_client.cpp:42-50 | after a reconnection every balancer may pull again and nothing else changes |
| Agent.RunLedger | lars_lb_agent/src/route_lb.cpp:75-92 | over every run every balancer has pulled, a birth names one balancer, and what stands where a pull came from is its sender or a later one |
| Agent.StepShardedIff | lars_lb_agent/src/agent_udp_server.cpp:68-87 | a message keeps every module in the table its ids select if and only if it is not a host or route request at another port |
| Agent.RunShardedIff | lars_lb_agent/src/agent_udp_server.cpp:68-87 | over every run: modules and pulls are at the port their ids select if and only if no request was misrouted |
| Agent.OneBalancer | lars_lb_agent/src/route_lb.cpp:75-92 | without misrouted requests no module ever has two balancers |
| Agent.TwoBalancers | lars_lb_agent/src/agent_udp_server.cpp:80-87 | a module asked for at two ports has two |
| Agent.AnswerReachesPuller | lars_lb_agent/src/dns_client.cpp:3-15 | the answer to a pull goes to the balancer that sent it if that still exists, otherwise to a later one of the module or to none, and to nothing else; and exactly when it frees a host twice |
| Agent.StrayStaysEmpty | lars_lb_agent/src/dns_client.cpp:11-14 | over every run a balancer at a port its ids do not select has no host |
| DnsSpec.PublishMeans | lars_dns/src/subscribe.cpp:142-165 | a publication adds to a descriptor's pending set exactly the changed modules it reads |
| DnsSpec.RepackIff | lars_dns/src/subscribe.cpp:102-112 | a push names the module it was made for if and only if the command id is nonnegative |
| DnsRuns.RunMirrored | lars_dns/src/dns_service.cpp:12-88 | over every run a descriptor is booked for a module exactly when its open connection asked for it, and no entry is empty |
| DnsRuns.ConnHistory | lars_dns/src/dns_service.cpp:12-88 | over every run a connection is open exactly when an event opened it and none closed it since, it belongs to the loop that event named and carries exactly the modules asked for since |
| DnsRuns.PushesConserved | lars_dns/src/subscribe.cpp:47-172 | over every run a pair was sent as often as it was made pending, less one while it waits |
| DnsRuns.TasksConserved | lars_reactor/src/thread_pool.cpp:138-145 | over every run the tasks run at a loop and the ones waiting there are the publications so far |
| DnsRuns.StepOnTargetIff | lars_dns/src/subscribe.cpp:28-44 | every event keeps pushes on target except the reuse of a descriptor with pushes pending |
| DnsRuns.RunOnTarget | lars_dns/src/subscribe.cpp:78-138 | over every run without such reuse, what is pending for an open connection was asked for by it and has a task waiting |
| DnsRuns.RunDelivers | lars_dns/src/subscribe.cpp:47-138 | over every run without such reuse, whatever is sent at any step was asked for by that open connection, and once its loop's tasks have run every pair was sent as often as it was made pending |
| DnsRuns.ReuseMisses | lars_dns/src/subscribe.cpp:28-44 | a run in which a push goes to a connection that never asked for the module |
| DnsRuns.StepFreshIff | lars_dns/src/dns_route.cpp:186-235 | every event keeps connections current except a table that changes a module unannounced |
| DnsRuns.RunFresh | lars_dns/src/dns_route.cpp:186-235 | over every announced run each connection holds the present hosts of each module it asked for, or the correcting push is pending |
| DnsRuns.NegativeIdStaysStale | lars_dns/src/subscribe.cpp:102-132 | for every negative command id there is an announced run that leaves a connection stale |
| DnsRuns.UnannouncedStaysStale | lars_dns/src/dns_route.cpp:217-230 | a run in which a reload, or a publication that does not name the module, leaves a connection stale with nothing pending |
| Subscribe.SubscribeList.Subscribe | lars_dns/src/subscribe.cpp:17-25 | the descriptor is booked for the module |
| Subscribe.SubscribeList.Unsubscribe | lars_dns/src/subscribe.cpp:28-44 | the descriptor leaves the entry, and the entry goes with its last reader |
| Subscribe.SubscribeList.Publish | lars_dns/src/subscribe.cpp:142-172 | the nested loops compute the specified pending sets |
| Subscribe.SubscribeList.MakePublishMap | lars_dns/src/subscribe.cpp:47-75 | exactly the pending modules of the online descriptors |
| Subscribe.NoticeOf | lars_dns/src/subscribe.cpp:101-122 | a push names the repacked module and carries the hosts found under it |
| Subscribe.SubscribeList.PushChangeTask | lars_dns/src/subscribe.cpp:78-138 | for every pending pair of the loop's descriptors exactly one notice is sent, and no other |
| Subscribe.Service.CreateSubscribe | lars_dns/src/dns_service.cpp:66-70 | a new connection carries no module |
| Subscribe.Service.GetRoute | lars_dns/src/dns_service.cpp:12-62 | a first request books the module in both indexes, and every request is answered from the table |
| Subscribe.Service.ClearSubscribe | lars_dns/src/dns_service.cpp:73-88 | a closing connection leaves both indexes, and its pending pushes stay |
| RouteData.InsertRepresents | lars_dns/src/dns_route.cpp:142-147 | inserting a row keeps lookup by key equal to the query over the rows, for all pairs of ids |
| RouteData.RouteMap.Fill | lars_dns/src/dns_route.cpp:133-148 | the row loop refines that query |
| RouteData.Route.GetHosts | lars_dns/src/dns_route.cpp:153-171 | exactly the packed hosts of the last loaded rows with these ids |
| RouteData.Route.LoadRouteData | lars_dns/src/dns_route.cpp:108-150 | the present table is untouched while the other one is loaded |
| RouteData.Route.Swap | lars_dns/src/dns_route.cpp:174-183 | the two tables change places and stay distinct |
| RouteData.Route.Check | lars_dns/src/dns_route.cpp:191-233 | when a turn reloads and publishes, and what |
| RouteData.PublishedAllIff | lars_dns/src/dns_route.cpp:310-347 | all changes since the last version seen are published if and only if each module changed in between was changed again at the new version or later |
| RouteData.PublicationAnnounced | lars_dns/src/dns_route.cpp:198-214 | a complete change list without skipped versions keeps connections current |
| RouteData.SkippedStaysStale | lars_dns/src/dns_route.cpp:310-347 | a run in which a change at a version in between is not published and a connection stays stale |
| Client.AwaitIff | api/cpp/lars_api/lars_api.cpp:93-123 | the loop blocks exactly when all datagrams are earlier replies; otherwise the first that is not decides |
| Client.LarsClient.GetHost | api/cpp/lars_api/lars_api.cpp:59-137 | the call is one step of the run over three sockets and one counter, for all ids |
| Client.LarsClient.GetRoute | api/cpp/lars_api/lars_api.cpp:178-257 | the same for a route call, which takes one datagram of its socket |
| Client.ReplyMatching | api/cpp/lars_api/lars_api.cpp:59-137 | over every run of host and route calls, for every host call among the first 2^32 and whatever sockets they use: a code exactly when its own reply comes first behind earlier ones, an error exactly when a route reply does, and otherwise it blocks |
| Client.RouteCallIff | api/cpp/lars_api/lars_api.cpp:205-256 | a route call gets its route exactly when its reply is the first datagram on its socket; it takes one and does not count |
| Client.NumbersInOrder | api/cpp/lars_api/lars_api.cpp:61 | host calls are numbered in order over every run, and route calls are not |
| Client.RouteReplyLeft | api/cpp/lars_api/lars_api.cpp:205-237 | a run in which a route call leaves its reply behind and the next host call ends in an error with its own reply queued |
| Client.SkipsLateReplyIff | api/cpp/lars_api/lars_api.cpp:93-123 | the receive loop skips a late reply if and only if no wrap of the counter lies between, and otherwise ends in an error |
| Client.WrapLosesReply | api/cpp/lars_api/lars_api.cpp:61-123 | a run of 2^32 + 1 calls whose last ends in an error although its own reply is queued |
| EndToEnd.RemoteIsRelation | lars_lb_agent/src/load_balance.cpp:34-42 | the agent reads from a response exactly the keys the service packed |
| EndToEnd.HandsOutTheRows | lars_lb_agent/src/load_balance.cpp:23-167 | a response uses freed memory if and only if a lost host is not among the module's rows; otherwise the hosts on the queues are exactly the rows that were not lost, only those are handed out, and they are found again by their address |

## Left out

- Threads: every operation under a lock is one atomic step. In particular a push task takes
  its snapshot, sends and erases as one step, although `subscribe.cpp` line 135 erases
  outside the lock, and one turn of the refresh loop reloads and publishes as one step.
- Time: each operation reads the clock once, as a parameter.
- Counters of hosts are unbounded where the source has 32 bits, and rates are real numbers
  where it has floating point.
- Sockets, epoll, MySQL and protobuf: reads, writes, query results and messages are
  parameters, and a kernel table stands for epoll. A read is retried inside the kernel call.
- Callbacks of the message router: a dispatch is recorded; what a handler sends is a send.
- TcpConn.Conn.DoRead: nothing is promised about the state once the process has exited at
  the memory limit, aborted, or written past a buffer.
- `TcpConn.Conn`: hooks of the connection and the server's connection table are not part of it.
- Freed hosts: nothing is promised once a freed host was read or freed again, or the front
  of an empty list was taken.
- LbRuns.UpdateReplaces: is about the update that erases dropped entries, which the source
  does not do; `MergeReplaces` is about the source's own.
- LbRuns.RunKeepsPartition: is about runs of the update that erases; `RunKeepsQueued` and
  `RunPartitionIff` are about runs of the code as written.
- LoadBalance.Balancer.Update: erases the entries of dropped hosts, which the source does
  not; `Merge` is the source's own, and the route table uses it.
- Client.ReplyMatching: a blocked call never returns, so later calls of such a run do not
  happen; the statement holds for them all the same.
- `thread_pool::get_thread`, `deal_task` and `execute_ready_tasks`: which loop owns a
  connection is an input and a push task is one event; the turn-taking between threads and
  the draining of a task list are not modelled.
- `tcp_client`, the UDP server and client, `config_file`, the reporter and the web front
  end: their framing repeats `tcp_conn`, or they only pass data on.
