# A Dafny model of the FQ client for Go

The client talks to FQ servers over TCP: length-prefixed frames, a HELLO handshake on every
connection, bounded retry, a pool of connections, and a sharded client that presents several
servers as one database. This project models those parts and proves what they promise.
`dafny verify dfyconfig.toml` checks all of it.

## How it is built

| file | what it models |
|---|---|
| `Text.dfy` | splitting, joining, decimal numbers (what is used of `bytes`, `strings`, `strconv`) |
| `Replies.dfy` | reply parsers (response.go) |
| `Commands.dfy` | command writers over a mutable buffer (client.go) |
| `Framing.dfy` | frames as bytes |
| `Wire.dfy` | one connection seen from outside: requests, answers, chunks, handshake |
| `BytesPool.dfy`, `Network.dfy`, `TcpClient.dfy` | classes for the buffer pool, the sockets and `TCPClient` |
| `Retry.dfy` | the retry loops |
| `ConnPool.dfy` | the connection pool as interleaved steps, and as an object whose methods take them |
| `StreamMerge.dfy` | `streamEvents` as interleaved steps |
| `ShardedClient.dfy`, `ShardedStore.dfy` | routing, `MDel`, fan-out; refinement of a single store |
| `ShardedScan.dfy`, `ShardedWalk.dfy` | the composite scan cursor and walks over all shards; what a walk lists of the store |

The network is an adversary. A connection carries what the server means to answer to each
request, cut at a byte of the adversary's choice (`Framing.EveryStreamIsCutFrames`: every input
arises this way); any call may fail, with a failure that matches `ErrConnClosed` or with another
one; writes may be split anywhere. Every failed call is recorded with its kind, so that the errors
reported can be held against it. What a context says when it is asked, whether a pool's dial
succeeds and what a stream handler answers are parameters, and the results hold for all of them.

The pool and the stream merge are concurrent, so they are machines over atomic steps, and the
results speak of every interleaving of any number of goroutines or shards.

A shard is any state with any step function. For the refinement it is a map from the routed name
to whatever the server keeps under it, and a command is any function of that one cell. The
sharding function is deterministic, as it must be for the client to be of use. `int` has 64 bits.

## What the code does not do

Promises one might expect that do not hold of the code. The first six have their exact condition,
and what breaks it.

- A connection given back after a failed send may be out of step: the next request on it can read
  the answer to the one before (`Retry.StaleReply`, `Retry.StaleAfterHello`). It is in step exactly
  when that send did nothing or was answered in full (`Wire.StepAfterAttempt`, and the contract of
  `Retry.SendWithReconnect` for its exits). A failed send is the last event of a call not only when
  the context ends or the error is not a closed connection, but also when the last of the 16
  attempts fails in its send. After a success the connection is in step, after a failed reconnect
  it is dead.
- A stream whose handler stops leaves a connection in step exactly when the handler was given the
  whole answer (`Wire.StepAfterExchange`); otherwise the next request can read the next event
  (`Retry.StaleEvent`).
- A send that failed inside its payload leaves a half-written request, which a next frame that is
  long enough completes to one nobody made (`Retry.GarbledRequest`). Such a connection is not in
  step: the condition is that of the first point.
- `GetConnection` may run into `Close`. The pool is safe exactly when no Get stands between its
  check of the closed flag and the wait group as the wait of `Close` ends, and none passes the flag
  between then and the moment it is set (`ConnPool.DisciplineIsExact`). Any other run could, right
  after its first step out of line and without another, have gone on to hand out nil or to lose a
  live connection, and there are runs that do (`ConnPool.OverlapHappens`).
- `Close` may never return: within that discipline it still can exactly when no more connections
  are alive than the size (`ConnPool.CloseReturnsExactly`). Unless somebody starts another Get it stands still exactly when
  every use it waits for is a release that waits for room in a full channel
  (`ConnPool.CloseHangsExactly`). One use more than the size is enough (`ConnPool.CloseCanHang`), no
  more than the size never is (`ConnPool.NeverStuckWithinSize`).
- A client whose server has announced too small a size cannot reconnect, to that server or to any
  other (`TcpClient.TCPClient.Reconnect`, `TcpClient.AnyRun`): exactly when HELLO is longer than the
  size, or the size is below the nine bytes of the shortest welcome (`TcpClient.LockedOutExactly`).
  Servers can announce such sizes (`TcpClient.Announces`). Any other client does reconnect when
  nothing fails and the first frame it gets is a welcome within the size.
- `New` leaves the connections it has made open when a later dial fails (`ConnPool.Prefill`).
- A call is read back from its bytes exactly when no name, key or id has a space
  (`Commands.DecodeOfPrint`, `Commands.SpaceIsAmbiguous`).

## Model

| member | source | states |
|---|---|---|
| `Text.SplitOfJoin` | response.go:415 | splitting undoes joining exactly when no part hides a delimiter; otherwise not even the number of parts is right |
| `Text.JoinOfSplit` | response.go:415 | joining undoes splitting, for every input |
| `Text.ParseOfFormat` | response.go:139-147 | a printed number parses back exactly when it fits the bit width asked for |
| `Text.ParseUintExactly` | response.go:139-147 | exactly what is accepted as which number: its digits behind any number of zeros, within the width |
| `Text.AtoiOfFormat` | sharded_client.go:422 | the same for the signed 64-bit parser of the scan cursor |
| `Text.AtoiExactly` | sharded_client.go:422 | the same with an optional sign, from minus 2 to the 63 |
| `Replies.ErrorRoundTrip` | response.go:78-90 | a server error comes back exactly when its code is at most 9999, separators in the message included |
| `Replies.ServerErrorExactly` | response.go:78-90 | exactly which carried errors are readable, and with which code and message |
| `Replies.OpenExactly` | response.go:227-248 | a reply is a success, an error or broken exactly by the word before its first bar |
| `Replies.RespDataToValues` | response.go:250-284 | the hand-written loop accepts what split-then-parse accepts, with the same values, one more than there are delimiters |
| `Replies.ParseMultiResponse` | response.go:227-248 | status, values and every error case agree with the reference reading |
| `Replies.MultiRoundTrip` | response.go:227-284 | a printed value list comes back exactly when all values have 64 bits |
| `Replies.ValuesToBools` | client.go:926-933 | the loop says yes exactly where the number is 1 |
| `Replies.HelloOf` | response.go:134-160 | an accepted size is positive and below 2 to the 31 |
| `Replies.HelloRoundTrip` | response.go:124-166 | a printed handshake answer comes back exactly when its fields fit and the role has no `;` |
| `Replies.HelloExactly` | response.go:124-166 | exactly which answers are accepted, and as what |
| `Replies.HelloIsLong` | response.go:124-166 | no accepted handshake answer is shorter than nine bytes |
| `Replies.ParseQuotaInfoResponse` | response.go:405-468 | the method agrees with the reference reading in every case |
| `Replies.ParseQuotaInfoFields` | response.go:415-462 | the loop reads three fields a client, all indices in range, or refuses |
| `Replies.QuotaInfoRoundTrip` | response.go:405-468 | any number of clients comes back exactly when no id has a `;` |
| `Replies.QuotaInfoAcceptedIsStable` | response.go:405-468 | what is accepted fits its Go fields, so narrowing loses nothing, and is a fixed point of print and parse |
| `Replies.ParseScanResponse` | response.go:476-518 | the method agrees with the reference reading in every case |
| `Replies.ParseScanFields` | response.go:486-512 | the loop reads a cursor and two fields a key, or refuses |
| `Replies.ScanRoundTrip` | response.go:476-518 | any number of keys comes back exactly when neither cursor nor key has a `;` |
| `Replies.ScanAcceptedIsStable` | response.go:476-518 | the same fixed point and width result for pages |
| `Commands.WriteCommand` | client.go:726-734 | appends the words of the command, one space between two |
| `Commands.WriteMultiCommand` | client.go:736-751 | the loop over the keys appends the words of MDEL, the empty list with its trailing space |
| `Commands.WriteRLimitWindowCommand` | client.go:753-766 | appends algorithm, key, limit, window |
| `Commands.WriteRLimitTokenBucketCommand` | client.go:768-784 | appends key, capacity, refill amount, window |
| `Commands.WriteQuotaAcquireCommand` | client.go:786-808 | appends name, amount, id and the first TTL if there is one |
| `Commands.WriteQuotaAcquireLeaseCommand` | client.go:810-836 | appends name, limit, amount, id and the first TTL if there is one |
| `Commands.WriteQuotaAcquireNCommand` | client.go:838-855 | appends name, id and the first TTL if there is one |
| `Commands.WriteQuotaSetCommand` | client.go:857-865 | appends name and limit |
| `Commands.WriteQuotaSetNCommand` | client.go:867-878 | appends name, limit, clients |
| `Commands.WriteQuotaReleaseCommand` | client.go:880-886 | appends name and id |
| `Commands.WriteQuotaDeleteCommand` | client.go:888-892 | appends the name |
| `Commands.WriteQuotaInfoCommand` | client.go:894-898 | appends the name |
| `Commands.WriteScanCommand` | client.go:900-910 | appends cursor, "0" for an empty one, and count |
| `Commands.WritePScanCommand` | client.go:912-924 | appends prefix, cursor, "0" for an empty one, and count |
| `Commands.DecodeOfPrint` | client.go:726-924 | the call comes back from its bytes exactly when no argument has a space |
| `Commands.PrintUnambiguous` | client.go:726-924 | different calls print different bytes, up to the first TTL and the empty cursor |
| `Commands.SpaceIsAmbiguous` | client.go:786-808 | two different calls, one with a space in the id, print the same |
| `Framing.ReadOfFrame` | tcp_client.go:315-356 | a written frame reads back and leaves what follows |
| `Framing.PrefixIsNoMessage` | tcp_client.go:315-341 | no proper prefix of a frame is a message, under any limit |
| `Framing.HeaderIsBigEndian` | tcp_client.go:348-349 | the header is the length, most significant byte first |
| `Framing.ReadOfOversizeFrame` | tcp_client.go:335-338 | a frame above the limit is refused by its header, whatever follows |
| `Framing.DecodeOfFrames` | tcp_client.go:315-373 | under any limit, any list of payloads within it decodes to that list and leaves the tail untouched |
| `Framing.CutStreamDecodesToPrefix` | tcp_client.go:315-373 | under any limit, a stream cut at any byte decodes to a prefix of what was sent; uncut, to all of it exactly when all of it is within the limit |
| `Framing.EveryStreamIsCutFrames` | tcp_client.go:315-341 | every byte stream is a cut stream of frames |
| `BytesPool.Pool.Get` | bytes_pool.go:19-21 | a buffer of the pool's size, all zero, no longer pooled, counted as out |
| `BytesPool.Pool.Put` | bytes_pool.go:23-26 | the loop wipes all of a buffer of the pool before pooling it |
| `Network.WriteAll` | tcp_client.go:358-373 | a prefix of the data is out, all of it on success, however writes split; it fails only if a write failed or moved nothing |
| `Network.WriteFrame` | tcp_client.go:343-356 | a prefix of the frame is out, all of it on success; a payload beyond 32 bits is refused unsent; any other failure is the network's |
| `Network.ReadFrameInto` | tcp_client.go:315-341 | reads exactly one frame within the limit into a buffer that has room for it; without a network failure it fails only on a header above the limit |
| `TcpClient.TCPClient.Transmit` | tcp_client.go:139-150 | too long a request sends nothing and is not a closed connection; a dead connection is; success means the whole frame is out; one deadline is set; an error is that of the call that failed |
| `TcpClient.TCPClient.Receive` | tcp_client.go:152-163 | one frame read; the result is a fresh array, never a pooled buffer; fails only by the network or on an oversize header; the buffer is back in the pool on every exit |
| `TcpClient.TCPClient.Send` | tcp_client.go:139-164 | success is one whole exchange, and without a network failure only too long a request or an oversize header prevents it; all invariants are kept either way; it logs itself with its outcome; its error is a closed connection exactly when a failed call was one |
| `TcpClient.TCPClient.Stream` | tcp_client.go:166-199 | frames are handed on once, in order, none skipped, until the handler refuses the first one, the network fails or a header is oversize; a stopped handler leaves the connection in step exactly when it got the whole answer; a deadline for the request and for each frame; errors as for `Send` |
| `TcpClient.TCPClient.ReadChunks` | tcp_client.go:217-249 | the loop stops at the first terminal frame and returns what the frames gather to |
| `TcpClient.TCPClient.SendChunked` | tcp_client.go:201-250 | success is one exchange of a whole chunk list; without a network failure only too long a request, a malformed list or an oversize header prevents it; a deadline for the request and for each frame; errors as for `Send` |
| `TcpClient.JoinStatusAndData` | tcp_client.go:252-259 | status, bar, data in a fresh array |
| `TcpClient.TCPClient.SetMaxMessageSizeUnsafe` | tcp_client.go:290-293 | size and pool change together |
| `TcpClient.Judge` | tcp_client.go:99-116 | agreement exactly on an `ok` of version 1, with a 31-bit size |
| `TcpClient.JudgeOfWelcome` | tcp_client.go:94-116 | every well-formed announcement is settled on as announced, or refused for its version |
| `TcpClient.JudgeOfRefusal` | tcp_client.go:99-107 | every refusal arrives with its code and message, a rejected token told from the others |
| `TcpClient.JudgeOfGarbage` | tcp_client.go:99-102 | anything that is neither an `ok` nor an `err` is a bad reply |
| `TcpClient.TCPClient.Hello` | tcp_client.go:83-119 | success leaves a usable connection and the size its server announced; failure leaves the size alone and, without a network failure, is the refusal the server sent, or a HELLO or answer over the size; a locked out client always fails |
| `TcpClient.AgreementOpens` | tcp_client.go:83-119 | after an agreement the connection is open, the size is the one in its first incoming frame, and it is in step if the server gave HELLO one frame |
| `TcpClient.LockedOutExactly` | tcp_client.go:139-142 | the condition for never reconnecting: HELLO does not fit, or no welcome of any server does |
| `TcpClient.NotWelcomed` | tcp_client.go:83-119 | a handshake that failed without a network failure, HELLO fitting, was not given a welcome within the size |
| `TcpClient.Announces` | response.go:139-147 | every positive size below 2 to the 31 can be announced, and is settled on |
| `TcpClient.TCPClient.Connect` | tcp_client.go:63-81 | one dial; at most one new connection, sent nothing but HELLO; dead after a failure, which is certain for a locked out client and for any other needs a network failure or a first frame that is no welcome within the size; after a success it has the size its own server announced, and is in step if HELLO got one frame; a failed dial and a failed call are reported as what they are |
| `TcpClient.TCPClient.Reconnect` | tcp_client.go:295-299 | the old connection is closed, the new one as `Connect` leaves it, with the same certain failure and the same certain success; it logs itself |
| `TcpClient.NewTCPClient` | tcp_client.go:36-61 | a valid client on its first connection, which says HELLO with the token, or an error; certain failure and certain success as for `Connect` |
| `TcpClient.AnyRun` | tcp_client.go:63-199 | over every run every connection carries HELLO first, more only once an `ok` of version 1 has been read; a live connection has the size its own server announced; pooled buffers are wiped and of the current size; a locked out client never has a connection again once it has lost one; the first request of every connection reads back as version 1 with the client's token; no buffer stays out |
| `Wire.UseKeepsHandshake` | tcp_client.go:139-164 | any use of a usable connection keeps the handshake invariants |
| `Wire.HelloAnswered` | tcp_client.go:83-119 | an answered HELLO makes a fresh connection usable |
| `Wire.HelloReads` | tcp_client.go:83-92 | a server reads version 1 and the client's own token in the request, whatever is in the token |
| `Wire.HelloWords` | tcp_client.go:83-92 | the words of the request, and that no two tokens give the same |
| `Wire.HelloFirstSays` | tcp_client.go:83-119 | the first request on any connection says version 1 and the token, and a usable open connection has one |
| `Wire.ChunkInvariance` | tcp_client.go:217-249 | however a body is cut, gathering gives the uncut reply; an error frame discards the body |
| `Wire.ChunkExactly` | tcp_client.go:228-247 | exactly which frames are next, last and error chunks, and with which data |
| `Wire.GatherStops` | tcp_client.go:237-248 | no whole chunk list is the start of another |
| `Wire.PairsRequestAndReply` | tcp_client.go:139-164 | on a connection in step, the frames read are the server's answer to this request, and it is in step again |
| `Wire.AttemptDelivers` | tcp_client.go:343-356 | only a wholly written request reaches the server |
| `Wire.StepAfterAttempt` | tcp_client.go:139-164 | a send, failed or not, leaves a connection in step exactly when nothing went out, or the request went out whole and just its answer was read |
| `Wire.StepAfterExchange` | tcp_client.go:166-199 | reading frames after a request and stopping leaves it in step exactly when the frames are the answer to that request |
| `Retry.Attempt` | client.go:945-965 | one round: one dial, reconnect and send, what it leaves on every connection; the calls it logged are the events it reports |
| `Retry.SendAgain` | client.go:944-967 | the loop: the same about the rounds after a first send that was lost, the calls it logged and the checks of the context included |
| `Retry.SendWithReconnect` | client.go:935-968 | the calls made on the client, as they logged themselves, and the dials on the network: the context was alive before each reconnect; its end is the result exactly if it has ended before the next of at most 16, and running out of attempts exactly after 16; at most 17 sends and 16 reconnects, all sends but the last lost to a closed connection, another error stops at once, which result for which course; on a connection found without a half-written request the server has had this one at most 17 times, and at least once after a success, and on the connections the call opened the counts hold whatever it found; the reply is the whole answer to the copy sent on the connection in use, which is in step; after a failed send it is in step exactly when that send did nothing or was answered in full; too long a request is never sent nor retried |
| `Retry.SendOnce` | inspect.go:196-229 | the same loop serves chunked replies: the bytes returned are those the frames gather to; exactly one command is logged, with its outcome |
| `Retry.BoundedDelivery` | client.go:935-968 | on a connection found without a half-written request, what a call leaves holds the request at most 17 times, and at least once when it is delivered on the connection in use; on the connections the call opened, at most 16 times and at least once when delivered on one of them, whatever it found |
| `Retry.StaleReply` | client.go:946-948 | on every connection in step whose next answer arrives, past its HELLO, the send of any request may fail so that any request after it is given the answer to it |
| `Retry.GarbledRequest` | tcp_client.go:343-356 | on every connection in step past its HELLO, the send of a request may fail inside its payload so that a next frame that is long enough completes it to a request nobody made |
| `Retry.StaleAfterHello` | client.go:946-948 | with any token, any welcome and any answer there is such a connection straight after HELLO |
| `Retry.StaleEvent` | tcp_client.go:195-197 | whenever a handler stops before the end of an answer, the next request can be given the next event |
| `ConnPool.StepKeepsInv` | conn_pool.go:27-69 | every atomic step keeps ownership, liveness, counts and the phases of `Close` |
| `ConnPool.RunKeepsInv` | conn_pool.go:27-69 | so does every run |
| `ConnPool.OwnedOnce` | conn_pool.go:27-59 | no connection is held twice, held and idle, closed or nil |
| `ConnPool.GroupCountsHolders` | conn_pool.go:36-58 | the wait group counts what is out |
| `ConnPool.ReleaseNeverBlocks` | conn_pool.go:52-59 | a release never sends on a closed channel, and has room while users stay within the size |
| `ConnPool.LiveWithinPeak` | conn_pool.go:34-47 | live connections never exceed the most in use or being created at once |
| `ConnPool.CloseClosesEverythingOnce` | conn_pool.go:61-69 | a finished `Close` has closed every connection ever made, once |
| `ConnPool.OverlapHarms` | conn_pool.go:28-36 | wherever a Get is unseen as the wait can end, or has ended before the flag, harm can follow |
| `ConnPool.LapseHarms` | conn_pool.go:27-66 | every undisciplined step from a sound state can be followed by harm, without another such step |
| `ConnPool.DisciplineIsExact` | conn_pool.go:27-69 | a disciplined run does no harm; a run that is not could, right after its first step out of line, have gone on to harm with that step as its only lapse |
| `ConnPool.OverlapHappens` | conn_pool.go:27-69 | a pool of any size with any users has a harmful run from its start |
| `ConnPool.CloseHangsExactly` | conn_pool.go:52-69 | while `Close` is on its way and nobody starts another Get, some step is possible exactly unless every release it waits for waits for room itself |
| `ConnPool.NeverStuckWithinSize` | conn_pool.go:52-69 | which cannot be while no more than the size were in use at once |
| `ConnPool.CloseReturnsInTime` | conn_pool.go:61-69 | and the steps until it is over are bounded, if nobody starts another Get |
| `ConnPool.CloseCanHang` | conn_pool.go:52-69 | in a pool of any size one user too many is enough to hang it |
| `ConnPool.CloseHangsForGood` | conn_pool.go:52-69 | with more live connections than the size, no disciplined run at all, new Gets included, sees `Close` return |
| `ConnPool.CloseCanReturn` | conn_pool.go:52-69 | with no more than that, some run does |
| `ConnPool.CloseReturnsExactly` | conn_pool.go:52-69 | within the discipline `Close` can still return exactly when no more connections are alive than the size |
| `ConnPool.StuckIsOverfull` | conn_pool.go:52-69 | a `Close` that is stuck has too many live connections |
| `ConnPool.ConnectionPool.GetConnection` | conn_pool.go:27-50 | takes exactly these steps; closed, idle, new and failed cases, and it succeeds exactly if the pool is open and has an idle connection or the dial succeeds |
| `ConnPool.ConnectionPool.Create` | conn_pool.go:37-47 | the default branch, in the wait group before the dial |
| `ConnPool.ConnectionPool.ReleaseConnection` | conn_pool.go:52-59 | takes exactly these steps; dropped when the pool is closed; waits exactly when the channel is full |
| `ConnPool.ConnectionPool.Put` | conn_pool.go:57-58 | how a release goes on once there is room |
| `ConnPool.ConnectionPool.Close` | conn_pool.go:61-69 | waits exactly when the wait group is not empty; otherwise drains the channel and leaves nothing alive |
| `ConnPool.ConnectionPool.FinishClose` | conn_pool.go:63-68 | how `Close` goes on once the wait is over: nothing is left alive, everything made was closed |
| `ConnPool.GetAll` | client.go:121-128 | the first loop of `New`: a connection each, up to the first failed dial |
| `ConnPool.ReleaseAll` | client.go:130-132 | the second loop: all of them go into the pool |
| `ConnPool.Prefill` | client.go:118-132 | a full pool of distinct idle connections exactly if every dial succeeds; otherwise it ends at the first that does not and closes none |
| `StreamMerge.StepKeepsInv` | sharded_client.go:455-505 | every atomic step keeps the channel, mutex, blame and caller invariants |
| `StreamMerge.SendNeverBlocksNorPanics` | sharded_client.go:464-489 | a worker with an error finds the channel open and with room |
| `StreamMerge.HandlerIsExclusive` | sharded_client.go:473-478 | the handler never runs twice at once |
| `StreamMerge.ResultIsHonest` | sharded_client.go:494-505 | nil exactly if no error was queued, and then all ended well; after an error the context error exactly if the caller's context had ended when the call returned, otherwise the error of the first worker to queue one, its own, from before any cancel |
| `StreamMerge.ReturnTells` | sharded_client.go:494-502 | at the return itself: the context error exactly if the caller's context has ended by then, otherwise the first queued error |
| `StreamMerge.ClosedTells` | sharded_client.go:494-505 | a closed, empty channel gives nil even if the context has ended |
| `StreamMerge.RunReports` | sharded_client.go:470-484 | over any run a worker has exactly the errors its stream returned |
| `StreamMerge.CallTells` | sharded_client.go:455-505 | for whole runs: nil only if no stream returned an error, a stream error only if one returned it, and the context error exactly if the context ended before the call returned |
| `StreamMerge.CancelledExactly` | sharded_client.go:461-484 | the other streams are cancelled exactly once a worker with an error has got past its cancel or the call has returned, and not before an error is queued |
| `StreamMerge.SomeStepIsEnabled` | sharded_client.go:486-505 | from the first error on, and once all streams are over, the call is never stuck, whatever the other streams do |
| `StreamMerge.StepsRunOut` | sharded_client.go:486-505 | every step of the call brings it nearer its end, and no other step takes it away |
| `StreamMerge.CallReturnsInTime` | sharded_client.go:486-505 | and in any run, however long the streams go on, the steps of the call itself are bounded |
| `ShardedClient.ShardedClient.OnShard` | sharded_client.go:353-369 | the routed shard acts, the others are untouched; out of range nothing happens |
| `ShardedClient.ShardedClient.Scatter` | sharded_client.go:122-135 | every key in its group at its place, or a refusal before anything is sent |
| `ShardedClient.ShardedClient.Gather` | sharded_client.go:137-154 | over any order of groups: whole shares, once, results in place |
| `ShardedClient.ShardedClient.MDel` | sharded_client.go:116-157 | success exactly when each concerned shard answers its share; states and results for any shard behaviour; the error is that of a shard that failed, or of one whose answer has the wrong length |
| `ShardedClient.MDelIsOneByOne` | sharded_client.go:116-157 | results and states of sending the keys one by one, repetitions included |
| `ShardedClient.OneByOneStates` | sharded_client.go:116-157 | one by one, a shard ends where its own share takes it |
| `ShardedClient.OneByOneResults` | sharded_client.go:116-157 | one by one, a key's result is the one within its share |
| `ShardedClient.ShardedClient.OnAllShards` | sharded_client.go:438-453 | all shards and the conjunction, or exactly the shards up to the first failure |
| `ShardedStore.StepRefines` | sharded_client.go:80-157 | every command keeps names on their shard and does what one store does |
| `ShardedStore.StepMeans` | sharded_client.go:80-157 | what a command does to the merged store, in cells and numbers alone: the number for the cell of the name, that cell and no other changed; a deletion says yes exactly to 1; a batch applies its calls in order and says yes exactly where the number is 1 |
| `ShardedStore.EachOfNumbers` | client.go:926-933 | deleting one by one gives the flags `valuesToBools` makes of the numbers |
| `ShardedStore.HistoryRefines` | sharded_client.go:80-157 | over every history all replies and the merged contents are those of one store |
| `ShardedStore.Execute` | sharded_client.go:303-307 | the client's methods take the steps of the refinement, fan-out included, over shards whose batch answer is their numbers read by `valuesToBools` |
| `ShardedScan.CursorRoundTrip` | sharded_client.go:412-436 | a made cursor parses back exactly when the shard's cursor is not empty |
| `ShardedScan.CursorAccepts` | sharded_client.go:412-428 | exactly which cursors are accepted, and for which shard and place |
| `ShardedScan.EmptyCursorIsInitial` | sharded_client.go:413-415 | an empty cursor scans as "0" does |
| `ShardedScan.CursorIsNotInitial` | sharded_client.go:430-436 | the end cursor is made exactly past the last shard |
| `ShardedScan.Scan` | sharded_client.go:371-410 | the outcome, and the calls made of the shards: in order, each once, each for at least one key; no wrap in 32 bits; at most `count` keys from shards that keep to it |
| `ShardedScan.OnlyTheseCalls` | sharded_client.go:371-410 | a scan depends on the shards by those calls only |
| `ShardedScan.ScanLeads` | sharded_client.go:386-409 | a scan delivers the next keys and leads to a strictly later place |
| `ShardedScan.WalkIsComplete` | sharded_client.go:371-436 | a finished walk, begun with "0" or no cursor, has delivered shard 0's keys, then shard 1's, each once |
| `ShardedScan.WalkEnds` | sharded_client.go:371-436 | no scan of a walk fails, and it ends within the pages the shards have |
| `ShardedWalk.WalkListsStore` | sharded_client.go:371-436 | over shards that list their own entries once, a finished walk has delivered every entry of the merged store exactly once |
| `ShardedWalk.WalkAfterHistory` | sharded_client.go:80-157 | and after any history exactly what a single store holds after it |

## Left out

- TLS, certificates and options: file and library calls.
- The times of deadlines and the sorting of Go's network errors: that deadlines are set is modelled, their values are not; a failure is one of two kinds, freely chosen.
- `parseResponse`, rate-limit, quota-acquire and event parsers: a fixed number of fields, the same reading as `HelloOf`.
- The thin methods of `Client` and the sharded forwards: get, send, parse, release.
- The outer reconnect loops of `stream` and `qstream`: they may go on for ever; one `Stream` is modelled.
- STREAM, FLUSHDB, TRUNCATE, INSPECT and their prefix forms: constant or one-word commands.
- INSPECT reports and JSON: library work.
- bytes_buffer_pool.go: a wrapper of `sync.Pool`.
- What the server does with a command: any function of the cell the name has; expiry with time is part of that function's argument.
- Scans while other clients change the shards: the pages are those of one fixed enumeration.
- Goroutines that outlive `streamEvents`: they depend on socket timeouts.
- ConnPool.ConnectionPool.Close: a second call is not modelled; it would close a closed channel, which panics.
- ConnPool.ConnectionPool: its methods run one after the other, waiting included; all interleavings are those of the machine.
- Retry.BoundedDelivery: the count on the connection the call began with is not stated when that connection holds a half-written request, because the bytes that follow are then no longer requests of the client; `GarbledRequest` shows it.
- Retry.SendWithReconnect: the same about its delivery count; and that the reply is the server's answer is stated for a connection that was in step at the call, or that the call opened, and a server that answers HELLO with one frame and the request in the form it is read in.
