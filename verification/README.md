# A verified model of https_dns_proxy

`https_dns_proxy` answers DNS requests that arrive over UDP and TCP by fetching the answers over
HTTPS. It runs on one thread around an event loop. This project models its stateful parts in Dafny and
proves what every run keeps. Sockets, libcurl, c-ares and libev appear as step inputs: the bytes
received, the outcome of a send, a finished transfer, an answer given inside a library call.

| file | models |
|---|---|
| `Framing.dfy` | length-prefixed messages on a TCP stream; what a connection delivers however the stream is cut |
| `TcpClient.dfy` | one client's growing input buffer, split in place (`src/dns_server_tcp.c`) |
| `TcpServer.dfy` | the client list, the client limit, replies under partial sends (`src/dns_server_tcp.c`) |
| `Truncation.dfy` | EDNS size and the halving search that truncates UDP responses (`src/dns_server.c`) |
| `Ledger.dfy` | requests, in-flight fetches, callbacks and replies, and how they balance |
| `Machine.dfy` | the whole proxy as a deterministic state machine: what each event does |
| `Invariants.dfy` | what every event and every run of the machine keeps |
| `Requests.dfy` | which requests are submitted and how long each is in flight, over whole runs |
| `Replies.dfy` | which requests are answered, and with which bytes, over whole runs |
| `Streams.dfy` | one TCP client in the middle of a run of the whole proxy |
| `Proxy.dfy` | the proxy's code over its mutable state, each callback proved to do what the machine says (`src/https_client.c`, `src/main.c`) |
| `AddressLists.dfy` | printing a lookup result into 1024 characters (`src/dns_poller.c`) |
| `Pinning.dfy` | comparing address lists and keeping or replacing the pin (`src/main.c`) |
| `Poller.dfy` | the bootstrap timer (`src/dns_poller.c`) |
| `SlotTable.dfy` | the watcher tables and the socket cap (`src/https_client.c`, `src/dns_poller.c`) |
| `RingBuffer.dfy` | the flight recorder (`src/ring_buffer.c`) |

`dafny verify dfyconfig.toml` checks everything.

## Main results

- **Chunking does not matter.** For every stream whose declared lengths stay within 61436 and every cut
  into reads of 1 to 4096 bytes, a client is handed exactly the one-shot parse of its stream, and is never
  dropped for size (`ChunkingDoesNotMatter`; for the buffer code itself, `ServeStream`). 61436 is exact: a
  message is safe from every cut if and only if it is no longer (`ThresholdIsTight`).
- **The same inside the whole proxy.** In every run of events of every kind, for every registered TCP client,
  the buffer holds exactly the unparsed tail of what the client sent, and the requests submitted for it are
  those of the one-shot parse, less exactly the ones that were complete before the first pin and were
  discarded (`ClientInStep`), although fetches that fail at once re-enter the client code from within its
  splitting loop. A client leaves the list if and only if its connection closed, failed or idled, it sent a
  message under 12 bytes, a reply could not be sent whole, the server stopped, or too much was pending
  (`LeavesExactly`); with declared lengths within 61436 the last never happens (`LeavesOnlyFor`).
- **Lengths of 65534 and 65535 wrap.** The sum at `src/dns_server_tcp.c:112` has 16 bits. The splitting loop
  ends and agrees with the parse if and only if no look, the stale byte behind a lone one included, wraps
  (`SplittingAgreesIff`, `ReadCb`); with 65534 it never ends (`LoopsForever`). A run of the proxy is followed
  up to the first such look and stands still from there on, and no run gets there unless some client declares
  a length with a high byte of 0xFF (`WrapNeedsLongLength`).
- **Truncation** keeps the first count of `n, k0, k0/2, ..., 0` that gets under the limit, in at most 18
  writes, where `k0` is the one count with `k0 * old <= (limit - 12) * n < (k0 + 1) * old`, or 1 below that
  (`FirstGuess`, `GuessUnique`), and is within a factor of two of the best count up to `k0` (`Shrink`,
  `FewTries`, `WithinFactorTwo`). A datagram is within the requester's size if and only if the response already
  was, or it parses, the writer does not fail first, and its header and question are (`DnsServerRespond`); what
  the bytes of a cut response are is spelled out (`CutResponse`).
- **Exactly one callback** for every request over every run of events, and none outstanding at the end of a
  life (`NextBooks`, `LifeSettles`). A request is in flight exactly as long as no event settles it: a report for
  its transfer, the reset timer, a lookup that does not cover the pin, or an add that aborts all
  (`InFlightExactly`). The code refines the machine that these are proved of, event by event:
  `HandleEvent`, `Run`, `Shutdown` and `Lifetime` give the whole new state.
- **Reply safety over runs.** A reply answers one earlier request by transport, peer and the two bytes that both
  start with, no other reply does, curl reported its transfer done with success, status 200 and no wrong
  Content-Type, and its bytes, at least 12, are exactly the pieces of body that were accepted for that request
  over the run, one behind the other (`ReplyIsSafe`). What a TCP client has read is a sequence of whole frames
  holding replies to requests from its address (`NextPeers`).
- **Every request that can be answered is.** Over every run a callback leads to a reply if and only if those
  conditions hold of what it was told and what was received (`AnsweredIff`); the first good report for a request
  in flight is answered with the pieces received (`ReplyIsSent`), and over TCP the reply arrives at the end of
  what the first client with that address was sent, or that client is removed (`ReplyReachesClient`). A datagram
  of 12 to 4096 bytes is submitted whenever the poller is off or a lookup has come (`UdpSubmitted`).
- **Re-entrancy is harmless.** A fetch that fails inside the TCP splitting loop, even one that resets the
  whole client, leaves the list and the buffer as a one-shot parse would (`TcpReadCb`); aborting what is
  left at exit does not use the freed TCP server (`Shutdown`).
- **Pins** list addresses of the latest lookup after every poll, nothing is fetched before the first pin,
  and everything in flight was started with the current one (`PinsAreCurrent`, `NextPins`, `InvAlways`). The
  comparison behind it is characterised exactly (`CoveredExactly`), and after every run a lookup keeps the pin
  and the fetches exactly by that condition (`LookUpExactly`).
- **Polling**: over every run the lookups started, and the lists handed over, one for each successful answer
  with nodes, are counted exactly (`Poller.Run`, `ListedInOrder`).

## Where the code differs from its comments

- `src/dns_poller.h` says the address list holds at least 64 IPv4 addresses. Addresses are all listed if and
  only if their lengths plus one each sum to at most 1023 (`AllListedIff`): 63 always fit, and 64 of at most 15
  characters do exactly when one of them is shorter (`ListingCapacity`, `SixtyFourFitIff`).
- `addr_list_reduced` stands for a subset test and is not one: it looks at the first occurrence only, so a
  longer address in front hides a shorter one (`IncludedYetNotCovered`). It reports "not reduced" if and
  only if, for each old address, it is under 50 characters and the first new address containing it is it
  (`CoveredExactly`). This errs on the safe side: the pin is then replaced.
- The comment in the poller's timer callback says that c-ares need not answer at all and that cancelling
  deals with this. The cancelling branch is reached only when no lookup is under way. While one is under way,
  another is started if and only if an answer comes before a later firing (`NextLookupNeedsAnswer`), so one
  that is never answered stops all others, although the timer goes on firing.
- The first timer has delay 0; from the first callback on every delay is between 0.1 s and the larger of
  5 s and the polling interval (`Poller.Alive`).

## Model

| member | source | states |
|---|---|---|
| `Framing.ParseExact` | src/dns_server_tcp.c:108-126 | the splitter's result is the one decomposition of a stream into frames of at least 12 bytes and an unfinished or too short rest |
| `Framing.ParseAppend` | src/dns_server_tcp.c:182-196 | parsing what is left of a stream followed by more bytes continues the parse of the whole |
| `Framing.RoundTrip` | src/dns_server_tcp.c:366-380 | splitting gives back the messages that framing put on the wire |
| `Framing.FrameBytes` | src/dns_server_tcp.c:366-380 | a frame is the length in network order and then the message |
| `Framing.ChunkingDoesNotMatter` | src/dns_server_tcp.c:128-201 | for every cut into reads, delivered requests, kept bytes and removal are those of the one-shot parse; never dropped for size |
| `Framing.ChunkedRoundTrip` | src/dns_server_tcp.c:128-201 | messages of 12 to 61436 bytes survive framing and any cut |
| `Framing.UnfinishedIsShort` | src/dns_server_tcp.c:150-162 | the bytes kept are at most one short of the longest declared frame |
| `Framing.BoundedIsWrapFree` | src/dns_server_tcp.c:111-113 | streams whose declared lengths have no high byte of 0xFF never make the 16-bit sum wrap, whatever stale byte lies behind |
| `Framing.LeftoverLengths` | src/dns_server_tcp.c:122-124 | what is kept of a stream, with more behind it, declares no longer lengths than the stream |
| `Framing.FinishingRead` | src/dns_server_tcp.c:148-162 | the read that finishes a frame delivers it, or drops the client, by the number of bytes pending alone |
| `Framing.AlwaysDelivered` | src/dns_server_tcp.c:134-162 | a message of at most 61436 bytes is delivered first under every cut |
| `Framing.TwoCuts` | src/dns_server_tcp.c:134-162 | for a longer message one cut delivers it and another drops the client |
| `Framing.ThresholdIsTight` | src/dns_server_tcp.c:134-162 | every cut delivers the message if and only if it has at most 61436 bytes |
| `TcpClients.TcpClient.constructor` | src/dns_server_tcp.c:236-245 | a new client holds no bytes |
| `TcpClients.TcpClient.Grow` | src/dns_server_tcp.c:164-178 | the new size is the least 64 * 2^k that fits, larger than before, at most 65536, contents kept; the abort is unreachable |
| `TcpClients.TcpClient.GetDnsRequest` | src/dns_server_tcp.c:108-126 | follows the 16-bit sum: a request is taken exactly when a whole frame is in use, nothing when one is not, and a sum that wraps within the bytes in use is reported |
| `TcpClients.TcpClient.MoveDown` | src/dns_server_tcp.c:122-124 | the rest moves to the front; with nothing left the old front bytes stay |
| `TcpClients.TcpClient.Append` | src/dns_server_tcp.c:155-180 | received bytes follow those in use, after growth to the least fitting size if needed |
| `TcpClients.TcpClient.SplitRequests` | src/dns_server_tcp.c:182-196 | hands on the one-shot parse of the buffer and keeps its unparsed rest; a wrap is met exactly when the look after the last whole request wraps |
| `TcpClients.TcpClient.ReadCb` | src/dns_server_tcp.c:128-201 | every outcome of a read, with requests, kept bytes and buffer size as the one-step specification says, and exactly when a length wraps |
| `TcpClients.SplittingAgreesIff` | src/dns_server_tcp.c:182-196 | the loop on the raw buffer ends and agrees with the parse if and only if no length looked at, the stale second byte included, is 65534 or 65535 |
| `TcpClients.LoopsForever` | src/dns_server_tcp.c:108-126 | with a declared length of 65534 every round takes nothing and the loop never ends |
| `TcpClients.ServeStream` | src/dns_server_tcp.c:128-201 | the buffer code fed any cut of a stream delivers the one-shot parse |
| `TcpServers.TcpServer.constructor` | src/dns_server_tcp.c:311-333 | starts empty and accepting |
| `TcpServers.TcpServer.AcceptCb` | src/dns_server_tcp.c:210-259 | adds a client with the next id in front, also when accept would block; accepting stays on exactly below the limit |
| `TcpServers.TcpServer.Unlink` | src/dns_server_tcp.c:91-103 | walking the list takes out exactly this client |
| `TcpServers.TcpServer.RemoveClient` | src/dns_server_tcp.c:72-106 | exactly this client leaves; counter, limit and order of ids stay consistent |
| `TcpServers.TcpServer.Receive` | src/dns_server_tcp.c:148-180 | appends or, with more than 65533 bytes pending, drops the client |
| `TcpServers.TcpServer.NextRequest` | src/dns_server_tcp.c:108-126 | takes the front frame off one client's buffer and nothing else, or reports that the 16-bit sum wraps |
| `TcpServers.TcpServer.FindClient` | src/dns_server_tcp.c:345-352 | the first client with the peer address |
| `TcpServers.TcpServer.SendBody` | src/dns_server_tcp.c:375-400 | succeeds exactly when the socket takes all bytes within 50 attempts and before an error |
| `TcpServers.TcpServer.Respond` | src/dns_server_tcp.c:335-403 | a registered client's socket has taken whole frames only, whatever the sends return; a client that could not take one is removed |
| `TcpServers.RespondedExactly` | src/dns_server_tcp.c:335-403 | a response reaches the first client with the address, at the end of what it was answered, or that client goes; no other changes |
| `TcpServers.TcpServer.Stop` | src/dns_server_tcp.c:405-410 | ends with no clients, count 0 and accepting off |
| `Truncation.SizeIsLength` | src/dns_server.c:153-159 | the writer's length is header, question and the sum of the kept answers; the ID is kept |
| `Truncation.SetTc` | src/dns_server.c:118-118 | the TC bit is set and the other seven bits stay |
| `Truncation.Estimate` | src/dns_server.c:144-147 | the first guess is the count given by two inequalities, or one |
| `Truncation.GuessUnique` | src/dns_server.c:144-147 | the inequalities have one solution |
| `Truncation.GuessInRange` | src/dns_server.c:144-147 | it is at least one and at most the number of answers |
| `Truncation.HalvingsStep` | src/dns_server.c:181-181 | each further target is half the one before, down to none |
| `Truncation.FewTries` | src/dns_server.c:144-152 | at most log2(k0) + 3, hence 18, writes; the product fits 32 bits |
| `Truncation.StripSections` | src/dns_server.c:130-142 | authority and additional records are gone, all else is kept |
| `Truncation.DropAnswers` | src/dns_server.c:172-180 | the answers left are a prefix in the original order |
| `Truncation.Shrink` | src/dns_server.c:144-182 | keeps the first count, of all, the guess given by the inequalities and its halvings, that gets under the limit, or none, unless the writer fails before; the guard of 255 never ends the search |
| `Truncation.CutResponse` | src/dns_server.c:153-190 | the bytes of a cut response: ID, flags with TC, question count, kept answers, no later section, question and the first answers |
| `Truncation.WithinFactorTwo` | src/dns_server.c:144-182 | twice the kept count reaches any fitting count up to the guess given by the inequalities |
| `Truncation.TruncateDnsResponse` | src/dns_server.c:116-196 | the buffer holds the written prefix with TC set, or, if it does not parse, shrink or get written, the original with TC set |
| `Truncation.GetEdnsUdpSize` | src/dns_server.c:88-114 | the size of the first OPT record, never under 512; 512 without one |
| `Truncation.AcceptedSizeUnique` | src/dns_server.c:96-113 | a request determines the size |
| `Truncation.DnsServerRespond` | src/dns_server.c:198-219 | untouched when accepted; else TC, the prefix of the answers that the search finds and nothing behind; within the limit if and only if the search gets written and header and question are |
| `Truncation.OneQuestionFits` | src/dns_server.c:198-219 | with one question header and question take at most 271 bytes, under every limit |
| `Ledgers.SubmitKeeps` | src/https_client.c:280-287 | a new fetch keeps the exactly-once balance |
| `Ledgers.CompleteKeeps` | src/https_client.c:508-539 | ending a fetch keeps it |
| `Ledgers.SettleKeeps` | src/https_client.c:516-538 | ending a fetch adds its own reply, if any, and no other |
| `Ledgers.AllSettled` | src/https_client.c:716-719 | with an empty list every request has had exactly one callback |
| `Ledgers.EachReplyIsOwed` | src/main.c:92-122 | a reply matches one request by transport, peer and ID and stems from its callback, whose transfer was acceptable and whose body it is |
| `Ledgers.NoSecondReply` | src/main.c:92-122 | no request gets two replies |
| `Ledgers.RepliedIff` | src/main.c:92-122 | a callback leads to a reply under its ticket if and only if its own outcome and body call for one |
| `Ledgers.DeliveredReaders` | src/dns_server_tcp.c:335-403 | sending a reply adds no client and touches no input buffer |
| `Ledgers.OwedDelivered` | src/main.c:107-113 | what a TCP client is sent are replies to requests from its address |
| `Machines.AfterConcat` | src/main.c:439-458 | two runs one after the other are one run |
| `Machines.ArriveAllTouches` | src/dns_server_tcp.c:186-196 | the requests of one read are submitted in order, all or, before the first pin, none; clients, pins and replies stay |
| `Machines.AbortFirst` | src/https_client.c:716-719 | aborting fetches one by one from the head is aborting all, with no reply and no effect on a client |
| `Invariants.NextBooks` | src/https_client.c:508-561 | every event keeps that a request is in flight once or called back once, and that the replies are those the callbacks call for |
| `Invariants.NextPeers` | src/dns_server_tcp.c:72-106 | every event keeps the clients within the limit, in order, sent whole frames only, and these only replies to requests from their address |
| `Invariants.NextPins` | src/main.c:209-241 | every event keeps that nothing is fetched before the first pin, all in flight uses the current pin, and the pin is included in the latest lookup |
| `Invariants.InvAlways` | src/main.c:439-440 | every run keeps all of these |
| `Invariants.LookUpExactly` | src/main.c:209-241 | after every run a lookup keeps pin and fetches if and only if every pinned address is short and the first listed address containing it is it; else the new list is pinned and all is aborted |
| `Invariants.ReadTouches` | src/dns_server_tcp.c:128-201 | a read changes one client only, and no reply and no pin |
| `Invariants.DataRead` | src/dns_server_tcp.c:128-201 | what a read of data does to the clients, the requests and the wrap |
| `Invariants.LifeSettles` | src/main.c:439-467 | over a whole life every request gets exactly one callback, none is left in flight, and the replies are exactly those called for |
| `Invariants.NextGrows` | src/main.c:439-440 | requests, callbacks and replies are never taken back; replies come with finished transfers only, requests with transport data only; a pin is never lost, an id never reused |
| `Invariants.AfterGrows` | src/main.c:439-440 | the same over runs |
| `Requests.RequestsAreGenuine` | src/main.c:124-129 | in every run every submitted request has at least 12 bytes and its ID is its first two bytes in network order |
| `Requests.FlagsAre` | src/main.c:135-139 | in every run there is a pin exactly once a lookup has come, and the TCP server is stopped exactly once it was told to |
| `Requests.UdpSubmitted` | src/dns_server.c:42-73 | in every run a datagram of 12 to 4096 bytes is submitted as it came if the poller is off or a lookup has come; any other is dropped |
| `Requests.NewInFlight` | src/https_client.c:275-338 | of the requests of one read those are in flight that could be added with no later one aborting all |
| `Requests.NextEnds` | src/https_client.c:508-561 | one event settles a request in flight exactly for the listed reasons |
| `Requests.InFlightExactly` | src/https_client.c:508-561 | over every run a request is still in flight if and only if none of these reasons has come up |
| `Requests.FirstReportCounts` | src/https_client.c:541-561 | the first report for a transfer in flight is what its callback is told |
| `Requests.MessagesOneByOne` | src/https_client.c:541-561 | messages read together do what they do one after another |
| `Replies.OneMorePiece` | src/https_client.c:58-77 | a piece goes behind those accepted before, and is accepted while their lengths sum to at most 65535 |
| `Replies.BodiesAlways` | src/https_client.c:58-77 | in every run every body in flight, and every body handed to a callback, is the accepted pieces one behind the other |
| `Replies.ArriveAborts` | src/https_client.c:709-719 | what the arrival of a request settles at once is settled as aborted |
| `Replies.OutcomesAreReported` | src/https_client.c:541-561 | in every run every callback was told of an abort, or what curl reported for its own transfer |
| `Replies.AnsweredIff` | src/main.c:92-122 | in every run a callback leads to a reply if and only if curl succeeded, status is 200, the Content-Type is unread or starts as asked, and at least 12 bytes were received that start with the two bytes of the request |
| `Replies.ReplyIsSafe` | src/main.c:92-122 | in every run a reply matches one earlier request by transport, peer and first two bytes, is its only one, stems from a transfer reported good, and its bytes are exactly the accepted pieces, at least 12 in all |
| `Replies.ReplyReachesClient` | src/main.c:107-113 | after every run a reply over TCP reaches the first client with its address, behind what that was answered before, or that client goes; else no client changes |
| `Replies.ReplyIsSent` | src/https_client.c:508-561 | after every run the first good report for a request in flight is answered with the pieces received, when these fit |
| `Proxies.ProcessResponse` | src/https_client.c:340-413 | faulty unless curl succeeded, status is 200 and the Content-Type, if readable, starts as asked |
| `Proxies.Proxy.HttpsRespCb` | src/main.c:92-122 | hands over exactly the fitting response; with a NULL buffer it touches no transport |
| `Proxies.Proxy.FetchCtxCleanup` | src/https_client.c:508-539 | the whole new state: one callback with the body of this fetch, the reply it calls for, the list without it; no TCP effect unless acceptable |
| `Proxies.Proxy.Cleanup` | src/https_client.c:709-723 | the whole new state: every fetch is aborted once, in order, with no reply and no TCP effect |
| `Proxies.Proxy.DnsServerCb` | src/main.c:124-159 | the whole new state: discarded before bootstrapping, else submitted; a failed add settles it, an aborted one settles all, neither with a reply or a TCP effect |
| `Proxies.Proxy.WriteBuffer` | src/https_client.c:58-77 | appends to one body up to 65535 bytes or refuses |
| `Proxies.Proxy.FindFetch` | src/https_client.c:546-555 | the fetch with this handle, or none has it |
| `Proxies.Proxy.HandleDone` | src/https_client.c:545-556 | the whole new state: exactly the finished fetch is settled, with its body and what curl reported, and its reply sent |
| `Proxies.Proxy.CheckMultiInfo` | src/https_client.c:541-561 | the whole new state: the messages settle their fetches in order; other fetches keep body and pin |
| `Proxies.Proxy.Covered` | src/main.c:223-233 | whether the pin may stay |
| `Proxies.Proxy.DnsPollCb` | src/main.c:209-241 | the whole new state for every list: the pin stays when covered, else is replaced and everything in flight aborted |
| `Proxies.SplittingGoesOn` | src/dns_server_tcp.c:186-196 | one more round, callback included, leaves what has arrived and what is left in step with the parse of the pending bytes |
| `Proxies.SplittingEnds` | src/dns_server_tcp.c:186-196 | the round that ends the loop leaves exactly what the one-shot parse calls for, a wrapped look included |
| `Proxies.Proxy.SplitOne` | src/dns_server_tcp.c:186-196 | the whole new state of one round: a wrap, no whole request, a removal, or one arrival; only this client's buffer is touched |
| `Proxies.Proxy.SplitRequests` | src/dns_server_tcp.c:182-196 | the re-entered loop, whatever each fetch does at once: the one-shot parse arrives message by message and its rest stays |
| `Proxies.Proxy.TcpReadCb` | src/dns_server_tcp.c:128-201 | the whole new state of a read, fetches, clients and a wrap included |
| `Proxies.Proxy.UdpReadCb` | src/dns_server.c:42-73 | datagrams of 12 to 4096 bytes are submitted, others dropped |
| `Proxies.Proxy.BodyCb` | src/https_client.c:58-77 | a piece reaches the one fetch with this handle, or none |
| `Proxies.Proxy.TcpServerCb` | src/dns_server_tcp.c:203-259 | accepting, idling and stopping change the client list as the machine says and nothing else |
| `Proxies.Proxy.HandleEvent` | src/main.c:439-439 | the code refines the machine: the new state is the machine's, for every event |
| `Proxies.Proxy.Run` | src/main.c:439-440 | so for every run of events |
| `Proxies.Proxy.Shutdown` | src/main.c:442-467 | stop, run on, free the server, abort the rest without using it: the state the machine gives |
| `Proxies.Lifetime` | src/main.c:359-470 | a whole life ends in the state of the machine, with every request settled exactly once and the replies those called for |
| `Streams.NextKeepsReader` | src/dns_server_tcp.c:36-53 | no event but a read touches a client's input |
| `Streams.ReadKeepsStep` | src/dns_server_tcp.c:182-196 | a read continues the parse of the client's stream and submits what it adds, or, before the first pin, discards it |
| `Streams.FutureIdIsSilent` | src/dns_server_tcp.c:230-241 | client ids are not reused |
| `Streams.ClientInStep` | src/dns_server_tcp.c:128-201 | in every run a registered client's buffer is the unparsed tail of its stream, and its submitted requests carry, in order and with its address, the messages of the one-shot parse less those complete before the first pin |
| `Streams.WrapNeedsLongLength` | src/dns_server_tcp.c:111-113 | no run meets a wrap unless some client declares a length with a high byte of 0xFF |
| `Streams.WrapsExactly` | src/dns_server_tcp.c:111-113 | after every run a read wraps exactly when the parse of the stream is left with a declared length of 65534 or more; with one byte left only if that is 0xFF |
| `Streams.NextRemoves` | src/dns_server_tcp.c:72-106 | one event takes a client off the list exactly for the listed reasons |
| `Streams.EntersExactly` | src/dns_server_tcp.c:210-259 | a client enters the list if and only if a connection is accepted, or would block after all, below the limit and before the stop, in front, with the next id, its address and an empty buffer |
| `Streams.LeavesExactly` | src/dns_server_tcp.c:72-106 | over every run a client is still registered if and only if none of these reasons has come up |
| `Streams.LeavesOnlyFor` | src/dns_server_tcp.c:148-192 | with declared lengths within 61436 a client leaves only by a message under 12 bytes, a closed or failed socket, idling, a reply not sent whole, or the stop |
| `AddressLists.Kept` | src/dns_poller.c:56-94 | the longest prefix whose lengths plus one each sum to at most the room |
| `AddressLists.KeptUnique` | src/dns_poller.c:56-94 | only one prefix is that |
| `AddressLists.HandledInOrder` | src/dns_poller.c:68-79 | IPv4 and IPv6 nodes alike are handled, each in its place, and no other |
| `AddressLists.FillListing` | src/dns_poller.c:52-94 | the buffer holds that prefix, a comma behind each; the no-room-for-comma branch is unreachable |
| `AddressLists.GetAddrListing` | src/dns_poller.c:47-105 | the comma-join of the longest fitting prefix of the handled addresses, or no list |
| `AddressLists.AllListedIff` | src/dns_poller.c:56-94 | all addresses are listed if and only if their lengths plus one each sum to at most 1023 |
| `AddressLists.AlwaysFit` | src/dns_poller.h:14-15 | a number of addresses times (length + 1) within 1023 always fits |
| `AddressLists.ListingCapacity` | src/dns_poller.h:14-15 | 63 IPv4 or 25 IPv6 addresses always fit |
| `AddressLists.SixtyFourDoNotFit` | src/dns_poller.h:14-15 | of 64 or more IPv4 addresses of full length 63 are listed |
| `AddressLists.SixtyFourFitIff` | src/dns_poller.h:14-15 | 64 IPv4 addresses are all listed if and only if one is shorter than 15 characters |
| `Pinning.AddrListReduced` | src/main.c:182-207 | reduced exactly when some old address is too long or its first occurrence is not a whole entry |
| `Pinning.TokensOfJoin` | src/main.c:183-204 | walking a joined list visits its addresses |
| `Pinning.OccursInJoin` | src/main.c:196-199 | an address occurs inside one entry, never across a comma |
| `Pinning.WholeMatchExact` | src/main.c:196-202 | the match test holds if and only if the first entry containing the address is the address |
| `Pinning.CoveredExactly` | src/main.c:182-207 | when an old list counts as covered, in terms of the two lists |
| `Pinning.CoveredMeansIncluded` | src/main.c:182-207 | covered implies included; equivalent when no new address properly contains an old one and old ones are short |
| `Pinning.IncludedYetNotCovered` | src/main.c:196-202 | an included list that is not counted as covered |
| `Pinning.PinTextNotCut` | src/main.c:212-219 | the pin text is uncut if and only if host and list have at most 1277 characters, which a listing meets |
| `Pinning.CutOutPutIn` | src/main.c:224-226 | the list cut out of a pin is the one put in |
| `Pinning.ListingsCanBePinned` | src/main.c:209-219 | every listing of the poller meets what a pin needs |
| `Pinning.PollStep` | src/main.c:220-240 | a poll keeps a pin included in the new list, or pins the new list |
| `Pinning.PinsAreCurrent` | src/main.c:209-241 | after any run of polls the pin is a list included in the latest lookup |
| `Pollers.Poller.constructor` | src/dns_poller.c:239-249 | the timer is armed at once |
| `Pollers.Poller.AresCb` | src/dns_poller.c:107-129 | a successful answer with nodes adds the join of the longest fitting prefix and sets the polling interval; any other adds nothing and sets 5 s; destroyed, the timer stays |
| `Pollers.Poller.Answers` | src/dns_poller.c:107-129 | any answers inside a library call leave the timer armed within bounds |
| `Pollers.Poller.GetTimeout` | src/dns_poller.c:161-168 | between 0.1 s and 5 s |
| `Pollers.Poller.TimerCb` | src/dns_poller.c:170-208 | the timer is armed again however c-ares answers; a lookup starts exactly when none was under way |
| `Pollers.Poller.SockCb` | src/dns_poller.c:8-13 | the timer stays armed |
| `Pollers.Poller.Dispatch` | src/dns_poller.c:170-208 | one event, with the answers of the calls it leads to |
| `Pollers.Poller.Run` | src/dns_poller.c:170-208 | polling never goes silent; over every run the lookups started are the firings that find none under way, and one list is handed over for each successful answer with nodes |
| `Pollers.ListedInOrder` | src/dns_poller.c:113-119 | each successful answer with nodes has its own list, in the place that its number among them gives |
| `Pollers.NextLookupNeedsAnswer` | src/dns_poller.c:170-208 | with a lookup under way another is started if and only if an answer comes before a later firing |
| `Pollers.Unanswered` | src/dns_poller.c:170-208 | a lookup that is never answered stays under way, and nothing is started or handed over |
| `Pollers.AnsweredAtOnce` | src/dns_poller.c:170-208 | when every lookup is answered at once every firing starts one |
| `Pollers.Poller.Cleanup` | src/dns_poller.c:268-273 | the timer is stopped |
| `SlotTables.ReleaseSlot` | src/https_client.c:619-625 | freeing a slot removes its descriptor from the map |
| `SlotTables.ReserveSlot` | src/https_client.c:629-641 | filling a free slot adds one descriptor to the map, descriptor 0 none |
| `SlotTables.ManyDescriptors` | src/https_client.c:595-602 | full tables of distinct descriptors need as many open sockets |
| `SlotTables.RoomForOpen` | src/https_client.c:613-643 | while no more sockets are open than there are slots, the others never keep an open one out |
| `SlotTables.SlotTable.constructor` | src/dns_poller.c:258-265 | an empty table is the empty map |
| `SlotTables.SlotTable.GetIoEvent` | src/https_client.c:595-602 | a slot with this descriptor, or none has it |
| `SlotTables.SlotTable.Release` | src/dns_poller.c:26-32 | the descriptor leaves the map; descriptor 0 changes nothing |
| `SlotTables.SlotTable.Reserve` | src/dns_poller.c:36-44 | the descriptor enters the map unless every slot is taken; descriptor 0 takes no slot |
| `SlotTables.SlotTable.Update` | src/https_client.c:613-643 | for every descriptor the table changes as the map from descriptor to latest interest; it fails exactly when all slots hold other descriptors |
| `SlotTables.HttpsSockets.OpenSocket` | src/https_client.c:79-119 | at most 12 sockets are counted open, whatever numbers they have |
| `SlotTables.HttpsSockets.CloseSocket` | src/https_client.c:121-143 | the count goes down exactly on success, whatever is closed |
| `SlotTables.HttpsSockets.Watch` | src/https_client.c:613-643 | fails exactly when all slots hold other descriptors, which never happens while the library closes only open, unwatched sockets and watches open ones |
| `RingBuffers.RingBuffer.Init` | src/ring_buffer.c:18-37 | no recorder for size 0, else an empty one |
| `RingBuffers.RingBuffer.PushBack` | src/ring_buffer.c:80-104 | the entry joins the history and the ring goes on mirroring its end |
| `RingBuffers.RecentIs` | src/ring_buffer.c:80-104 | the lines are the beginnings of the last entries, each of up to 8192 characters |
| `RingBuffers.RingBuffer.Dump` | src/ring_buffer.c:55-78 | prints exactly the last min(pushes, size) entries, oldest first, each cut to 8192 characters |

## Left out

- TcpClients.TcpClient.GetDnsRequest: a sum that wraps is reported as `Wraps`, since the copy that follows it involves bytes that are not the client's input.
- Proxies.Proxy.TcpReadCb: after a wrap (declared length 65534 or 65535) the run is not followed; the state stays as it was at the look that wrapped.
- TcpServers.TcpServer.NextRequest: the server's list holds client values with the buffered bytes, and the byte behind a lone one is an input; that the array code does the same to its buffer is stated by TcpClients.TcpClient.ReadCb, so aliasing between clients is not modelled.
- TcpServers.TcpServer.AcceptCb: the 64-bit client id is unbounded here.
- Truncation.TruncateDnsResponse: library deletes succeed (a failing delete of an additional record would repeat for ever), and the parser's reading of a buffer is an input.
- Proxies.Proxy.DnsPollCb: takes a list; the NULL of a lookup without handled addresses, which the code passes to `%s` and `strstr`, has no defined behaviour.
- Pollers.Poller.AresCb: records that NULL as a listing handed over.
- Invariants.NextPins: that the pin is included in the latest lookup (and `Invariants.LookUpExactly`) is stated for lists that the poller can make (`Pinning.ListingsCanBePinned`) and host names without a colon.
- Proxies.Proxy.HttpsRespCb: a UDP reply is recorded as handed to the UDP server; how that one shortens it is `Truncation`.
- RingBuffers.RingBuffer.PushBack: allocation succeeds.
- Proxies.Proxy.HandleEvent: the client's reset timer is an event that may come at any time; when it is started and stopped is not modelled.
- Allocation failures and fatal log exits end a run and are not modelled, except where a property says that one is unreachable.
- Socket creation, options, privilege drop, daemon mode, signals and systemd notification: operating-system calls without logic of their own.
- curl option setting, debug output, logging and statistics.
- `src/options.c`: independent range checks.
- `hostname_from_url` and the proxy scheme test: thin wrappers over libcurl and string comparison.
