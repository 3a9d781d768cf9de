# Fault-tolerant counter: failover clients and replica servers

This project models, in Dafny, the deterministic core of a small fault-tolerance demo.

- Three replica servers each keep a counter. A `GET_COUNTER` request advances it and is answered with `OK n`.
- Three clients send requests with retry and failover:
  - `client.py` is a blocking socket client.
  - `async_client.py` is an asyncio client.
  - `async_client_concurrent.py` is an asyncio client that sends 50 logical requests and keeps a per-replica success tally.
- Each client cycles through the fixed replica list for a number of rounds. It returns the first reply and raises `RuntimeError` when every try of every round fails.

The model replaces sockets, the clock and the random crash by inputs:

- The network is a `Transport`. It maps the attempt number, the replica and the bytes written to what the try delivers, or to the exception it raises.
- A replica's crash decision is a boolean per connection.

The modules follow the program:

- `Wire` (wire.dfy) holds Python's `str.strip()`, the two ways a peer's bytes are read (one `recv(1024)` chunk or one `readline()`), the request line and the decimal rendering of the counter.
- `Failover` (failover.dfy) holds what all three clients share:
  - the replica list and the classification of one try;
  - `Dispatch`, a reference definition of a whole logical request, and `Trace`, the log of tries and pauses it produces;
  - the nested-loop method `RunRounds`, with `RunRound` for the inner loop, proved to compute exactly `Dispatch` and `Trace`.
- `Client`, `AsyncClient` and `AsyncClientConcurrent` are the three clients. Each fixes its read mode and number of rounds and states what differs: an empty read, the returned replica, the drivers.
  - `AsyncClientConcurrent` models the tally dictionary as a class whose map field is updated in place.
  - It proves that the tally adds up to the number of successes, and that successes and failures add up to the number of requests.
- `ReplicaCore` (replica_core.dfy) holds what both servers share:
  - `Serve`, the reference definition of one connection's handling;
  - the connection object;
  - the fold over a replica's lifetime of connections.
- `ReplicaServer` and `AsyncReplicaServer` are the two servers. Each is a class with a `counter` field whose `HandleClient` is proved against `Serve`, and an accept loop proved against the fold.

## Model

| member | source | states |
|---|---|---|
| Wire.Strip | client.py:21 | strip() leaves no whitespace at either end and never lengthens the text |
| Wire.StripLeftRemovesSpace | client.py:21 | what strip() drops in front is whitespace only |
| Wire.StripRightRemovesSpace | client.py:21 | what strip() drops at the end is whitespace only |
| Wire.StripIsSlice | client.py:21 | strip() keeps one contiguous slice of the text |
| Wire.StripRemovesTrailingSpace | client.py:21 | everything after the kept slice is whitespace |
| Wire.StripPadded | replica_server.py:19 | stripping text padded with whitespace gives back exactly the text, when the text neither starts nor ends with whitespace |
| Wire.StripIdempotent | async_client.py:32 | stripping twice is stripping once |
| Wire.RecvChunk | client.py:20 | recv(1024) returns the first min(len, 1024) characters of what the peer sent |
| Wire.ReadLine | async_client.py:24 | readline() returns a prefix whose only newline is its last character; it stops at the first newline or at end of stream, and is empty exactly at end of stream |
| Wire.ReceiveEmpty | replica_server.py:15-17 | with either read, the data is empty exactly when the peer sent nothing, and it is a prefix of what was sent |
| Wire.ReadLineOfLine | async_replica_server.py:15 | a line ending in its only newline is read back whole, whatever follows it |
| Wire.RequestRoundTrip | client.py:19 | the request line (message + newline) is received intact by either read, and stripping it gives the message back |
| Wire.StrippedLineHasNoNewline | async_client.py:32 | a stripped line holds no newline |
| Wire.NatToString | replica_server.py:34 | the counter is written as decimal digits, with no leading zero |
| Wire.ParseNatToString | replica_server.py:34 | the decimal text of the counter reads back as the counter |
| Wire.NatToStringInjective | replica_server.py:34 | different counter values are written differently, in both directions |
| Failover.ClassifyEmptyRead | async_client.py:29-30 | an empty line read is a ConnectionError failure, and only an empty one; for the socket client every delivery, the empty one included, is a success |
| Failover.ClassifyStripped | client.py:21 | a successful reply is already stripped |
| Failover.ClassifyReplyBound | client.py:20-21 | a reply is never longer than what the replica sent |
| Failover.Locate | async_client_concurrent.py:53-55 | the list position of an attempt lies within the list |
| Failover.AttemptsInIsProduct | async_client_concurrent.py:53-55 | r full rounds over n replicas make r * n attempts |
| Failover.AttemptsInMonotone | async_client_concurrent.py:53-55 | more rounds make no fewer attempts |
| Failover.LocatePosition | async_client_concurrent.py:53-55 | the attempt after r * n + i earlier ones is position i of round r |
| Failover.LocateInverse | async_client_concurrent.py:53-55 | the round and position of an attempt give back the number of earlier attempts |
| Failover.LocateIsDivMod | async_client_concurrent.py:53-55 | the attempt after k earlier ones falls in round k div n at position k mod n |
| Failover.AttemptOutcomeTarget | async_client_concurrent.py:53-60 | attempt k tries the replica at position (k - 1) mod n |
| Failover.ContinueServed | async_client_concurrent.py:53-64 | from any point of the loops, a served request is served by a later attempt within the schedule, one that succeeded on the replica at its scheduled position |
| Failover.ContinueServedFirst | async_client_concurrent.py:59-70 | every attempt between the current point and the serving one failed |
| Failover.ContinueExhausted | async_client_concurrent.py:65-76 | from any point, an exhausted request failed every later attempt, reports all rounds * n attempts, and reports the error of the last attempt made |
| Failover.DispatchServed | async_client_concurrent.py:53-64 | a served request was served by attempt number `attempts`, the first one that succeeded, made on the replica at position (attempts - 1) mod n of the list |
| Failover.ServedAttempt | async_client_concurrent.py:60-64 | a served request was served by one of the rounds * n attempts, and the try of that attempt on the serving replica returned the reply |
| Failover.ServedByListed | async_client_concurrent.py:64 | the serving replica is an element of the list |
| Failover.DispatchFirstSuccess | async_client_concurrent.py:60-64 | when attempt k is the first that succeeds, its reply, its replica and its number are the result, and no later attempt matters |
| Failover.DispatchExhausted | async_client_concurrent.py:74-76 | the request is exhausted exactly when every one of the rounds * n attempts fails; it then reports rounds * n attempts and the error of the last one, or none when no attempt was made |
| Failover.ExhaustedLastError | async_client_concurrent.py:70-76 | an exhausted request reports the failure of its very last try, made on the last replica of the last round |
| Failover.LastAttempt | async_client_concurrent.py:53-55 | the last of the r * n attempts is the try of the last replica in the last round |
| Failover.ContinueFailed | async_client_concurrent.py:65-70 | a failed try records its error and moves on to the next replica of the same round |
| Failover.ContinueSucceeded | async_client_concurrent.py:60-64 | a successful try ends the request with its reply, its replica and its attempt number |
| Failover.ContinueNextRound | async_client_concurrent.py:53-54 | after the last replica of a round comes the first replica of the next round, keeping the last error |
| Failover.RunRounds | async_client.py:35-61 | the nested loops return exactly what the reference definition says, and log every try and every pause in the order the reference log gives |
| Failover.RunRound | async_client.py:40-54 | one pass of the inner loop either returns the request's result with the log up to the successful try, or leaves the attempt counter, the last error and the log where the next round starts |
| Failover.RoundTriesAt | async_client.py:39-41 | within a round, replica i is tried as attempt r * n + i + 1 |
| Failover.ScheduleLength | async_client.py:39-57 | r exhausted rounds log r * (n + 1) events: n tries and one pause per round |
| Failover.ScheduleRound | async_client.py:39-57 | round r's log holds its n tries in list order, then its pause |
| Failover.SchedulePrefix | async_client.py:39-57 | the log of fewer rounds is a prefix of the log of more |
| Failover.ScheduleAt | async_client.py:57 | in the log of all rounds, round r lists every replica in order as consecutive attempts and ends with its pause, the final round included |
| Failover.AttemptScheduled | async_client.py:39-41 | every attempt number up to rounds * n is logged as a try in the round and at the position Locate gives |
| Failover.AttemptTarget | async_client_concurrent.py:53-55 | attempt k is logged as the try of replica (k - 1) mod n in round (k - 1) div n |
| Failover.ServedTraceAt | async_client_concurrent.py:60-64 | the log of a request served by replica i in round r stops right after that try |
| Client.Rounds | client.py:32 | range(max_retries) makes max_retries rounds, and none when max_retries is not positive |
| Client.SendRequestWithRetries | client.py:24-50 | the answer and the log are those of the reference definition, with max_retries rounds and chunk reads |
| Client.ReplyIsStrippedChunk | client.py:20-21 | a reply is the stripped first chunk of at most 1024 characters that the serving replica, one of the list, sent back for that attempt, which is within max_retries * 3 |
| Client.EmptyReadIsReply | client.py:20-21 | when the first replica sends nothing on the first try, the request returns the empty string from that replica at once |
| Client.RequestExhausted | client.py:29-50 | RuntimeError is raised exactly when every try fails; it reports max_retries * 3 attempts, and with max_retries <= 0 it reports 0 attempts and no error |
| AsyncClient.Writer.constructor | async_client.py:16 | a new connection's writer is open |
| AsyncClient.ReadReply | async_client.py:23-32 | the writer is closed whether the read returns or times out, and the outcome is the classification of the line read |
| AsyncClient.SendRequestWithRetries | async_client.py:35-61 | the answer and the log are those of the reference definition, with MAX_REPLICA_ROUNDS rounds and line reads |
| AsyncClient.ReplyIsStrippedLine | async_client.py:29-32 | a reply is the stripped, non-empty first line that the serving replica, one of the list, sent back for that attempt, one of the first nine; it holds no newline |
| AsyncClient.EmptyResponseFails | async_client.py:29-30 | a try that reads an empty line fails with ConnectionError |
| AsyncClient.EmptyResponseRetried | async_client.py:49-54 | a try that reads an empty line never serves the request |
| AsyncClient.RequestExhausted | async_client.py:59-61 | RuntimeError is raised exactly when all nine tries fail; it reports nine attempts and the error of the ninth, made on the last replica |
| AsyncClient.RunRequests | async_client.py:64-73 | main sends five GET_COUNTER requests in order, and each answer is that request's own outcome, whatever the earlier ones gave |
| AsyncClientConcurrent.SendRequestWithRetries | async_client_concurrent.py:45-76 | the answer is the reference definition's outcome, with the serving replica returned beside the reply |
| AsyncClientConcurrent.ServedByListedReplica | async_client_concurrent.py:60-64 | the returned replica is an element of the list and is the one whose try returned the reply; the reply text is returned whatever it says |
| AsyncClientConcurrent.ReplicasDistinct | async_client_concurrent.py:17-21 | the replicas are pairwise different and are exactly the keys of the tally |
| AsyncClientConcurrent.Record | async_client_concurrent.py:86-94 | recording an outcome adds 1 to the serving replica's count on success, changes no count on failure, and keeps the keys |
| AsyncClientConcurrent.RecordAnswered | async_client_concurrent.py:87-94 | updating the tally from the answer the caller receives is recording the request's outcome |
| AsyncClientConcurrent.TotalIncrement | async_client_concurrent.py:90 | adding 1 to the count of a replica that appears once adds 1 to the sum |
| AsyncClientConcurrent.TotalRecord | async_client_concurrent.py:90 | recording an outcome adds 1 to the sum of the counts exactly when it was served |
| AsyncClientConcurrent.TotalOfZeros | async_client_concurrent.py:17-21 | the initial tally sums to zero |
| AsyncClientConcurrent.CountTrue | async_client_concurrent.py:108 | sum(results) is at most the number of results |
| AsyncClientConcurrent.FailIsCountOfFailures | async_client_concurrent.py:109 | len(results) - ok is the number of failed requests |
| AsyncClientConcurrent.Outcomes | async_client_concurrent.py:100-103 | requests 1 to m make m outcomes |
| AsyncClientConcurrent.OutcomeAt | async_client_concurrent.py:100-103 | entry j of the outcomes is the outcome of request j + 1 |
| AsyncClientConcurrent.OutcomesServedByReplicas | async_client_concurrent.py:64 | every served request names a replica of the list |
| AsyncClientConcurrent.Results | async_client_concurrent.py:106 | there is one boolean per request, true exactly when that request was served |
| AsyncClientConcurrent.Tally | async_client_concurrent.py:17-21 | the tally after any sequence of outcomes keeps exactly the three replicas as keys |
| AsyncClientConcurrent.FoldStep | async_client_concurrent.py:86-94 | one more request appends its boolean and records its outcome in the tally |
| AsyncClientConcurrent.TallyTotalStep | async_client_concurrent.py:90 | one more outcome adds 1 to the sum of the tally exactly when it was served |
| AsyncClientConcurrent.CountTrueStep | async_client_concurrent.py:108 | one more outcome adds 1 to ok exactly when it was served |
| AsyncClientConcurrent.TallyTotal | async_client_concurrent.py:90-108 | the counts of all replicas add up to the number of successful requests |
| AsyncClientConcurrent.ReplicaStats.constructor | async_client_concurrent.py:17-21 | the tally starts with every replica at 0 |
| AsyncClientConcurrent.ReplicaStats.RecordAnswer | async_client_concurrent.py:87-94 | on a reply, 1 is added to the serving replica's count and the result is true; on RuntimeError nothing changes and the result is false |
| AsyncClientConcurrent.ReplicaStats.OneLogicalRequest | async_client_concurrent.py:79-94 | one GET_COUNTER request; the result is true exactly when it was served, and the tally becomes the recording of its outcome |
| AsyncClientConcurrent.RunAll | async_client_concurrent.py:97-109 | ok counts the successful requests and fail the failed ones, ok + fail = 50, the final tally is the in-order fold of the outcomes, and its counts add up to ok |
| ReplicaCore.OkReplyNotUnknown | replica_server.py:34-36 | the OK reply and the refusal differ |
| ReplicaCore.OkReplyInjective | replica_server.py:34 | different counter values give different OK replies, in both directions |
| ReplicaCore.OkReplyStripped | replica_server.py:34 | a client that strips the reply sees "OK n", and n reads back from it |
| ReplicaCore.ServeSilent | replica_server.py:16-29 | no reply is sent exactly when the read is empty or the replica crashes, and then the counter is unchanged |
| ReplicaCore.ServeOk | replica_server.py:32-34 | "OK n" is sent exactly for a GET_COUNTER that did not crash, with n the old counter plus one, which is the new counter |
| ReplicaCore.ServeUnknown | replica_server.py:35-36 | the refusal is sent exactly for any other message that did not crash, and the counter is unchanged |
| ReplicaCore.ServeCounter | async_replica_server.py:34-38 | the counter advances by one exactly for a GET_COUNTER that did not crash, and otherwise stays |
| ReplicaCore.ReplyIsOneLine | async_replica_server.py:40-41 | every reply is one line: non-empty and ending in its only newline |
| ReplicaCore.ReplyReadWhole | async_client.py:24 | a client's readline() takes exactly the reply, whatever follows on the connection |
| ReplicaCore.PaddedCommand | replica_server.py:19 | GET_COUNTER is recognised with any whitespace around it |
| ReplicaCore.RequestCounted | client.py:19 | the request line every client writes is counted by either server |
| ReplicaCore.ChunkOfTwoRequestsRefused | replica_server.py:15-32 | the threaded server compares the whole stripped chunk, so two request lines that arrive together are refused |
| ReplicaCore.LineOfTwoRequestsCounted | async_replica_server.py:15-36 | the asyncio server reads only the first of two request lines that arrive together, and counts it |
| ReplicaCore.Connection.constructor | replica_server.py:53 | an accepted connection is open and nothing has been written to it |
| ReplicaCore.Connection.Send | replica_server.py:38 | sending writes one more line on an open connection |
| ReplicaCore.Connection.Close | replica_server.py:41-42 | closing leaves what was written unchanged, and closing again changes nothing |
| ReplicaCore.Responses | replica_server.py:52-60 | every accepted connection has an entry |
| ReplicaCore.ArrivalStep | replica_server.py:52-60 | handling one more connection extends the counter and the responses by that connection's own step |
| ReplicaCore.CounterAfterCounts | replica_server.py:46-57 | the counter has advanced by the number of served GET_COUNTER requests and nothing else |
| ReplicaCore.ResponseAt | replica_server.py:52-60 | connection j receives what handling it with the counter left by the earlier connections writes: at most one line |
| ReplicaCore.NthGetCounter | async_replica_server.py:34-36 | from a fresh replica, the n-th served GET_COUNTER receives "OK n" |
| ReplicaServer.Replica.constructor | replica_server.py:46 | a server run starts with the counter at 0 |
| ReplicaServer.Replica.HandleClient | replica_server.py:9-42 | the counter and the reply follow Serve on the first chunk read; at most one line is written; the connection is closed on every path |
| ReplicaServer.RunServer | replica_server.py:45-60 | with one counter shared by all connections and starting at 0, every connection receives what the fold over the arrivals gives |
| AsyncReplicaServer.Replica.constructor | async_replica_server.py:53 | a server run starts with the counter at 0 |
| AsyncReplicaServer.Replica.HandleClient | async_replica_server.py:9-49 | the counter and the reply follow Serve on the first line read; at most one line is written; the writer is closed on every path |
| AsyncReplicaServer.RunServer | async_replica_server.py:52-65 | with one counter shared by all connections and starting at 0, every connection receives what the fold over the arrivals gives |

## Left out

- Socket and asyncio I/O: connecting, writing, draining, timeouts and their durations are all folded into the `Transport` result of a try. `REQUEST_TIMEOUT`, `wait_for` and `settimeout` appear only as the `Timeout` failure.
- The sleeps between rounds and between requests: only "a pause after round r" is logged.
- Close paths in the clients: only the close after the read in async_client.py is modelled (`AsyncClient.ReadReply`). The write and drain in async_client_concurrent.py lie outside the `try`, so the model does not promise that every connection is released.
- Concurrency:
  - the semaphore, `create_task` and `gather` in async_client_concurrent.py;
  - the per-connection threads of replica_server.py that race on the counter;
  - the concurrent connections of the asyncio server.

  Requests and connections are taken one at a time, in order.
- AsyncClientConcurrent.RunAll: requests are taken in id order. With `gather` the tally updates happen in completion order, but the final tally does not depend on it, because each update only adds 1.
- AsyncClientConcurrent.SendRequestWithRetries: does not return the log of tries and pauses. `Failover.RunRounds` states it for all clients.
- ReplicaServer.RunServer: the accept loop runs forever in the source. Here it handles a given finite sequence of connections.
- AsyncReplicaServer.RunServer: likewise for `serve_forever`.
- The random crash: `random.random() < p_crash` is a boolean input per connection.
- The effect of `sys.exit`: it ends a handler thread in the threaded server and the whole process in the asyncio server. Only the closed connection with no reply and the unchanged counter are modelled; later connections are not cut off after a crash.
- AsyncReplicaServer.Replica.HandleClient: the `except Exception` path is not modelled. A failing write, drain or decode is logged there and the connection is closed.
- Decoding: text is a sequence of characters, so a `UnicodeDecodeError` (which no client catches) cannot occur.
- recv(1024): modelled as returning up to 1024 of the characters the peer sent. A recv that returns fewer bytes while more are in flight is not modelled.
- readline(): the StreamReader's line-length limit is not modelled.
- `req_id` in async_client_concurrent.py only labels log lines.
- Printing, logging, argument parsing and `KeyboardInterrupt` handling.
- The `__main__` driver of client.py (five requests with `max_retries=3`). It has the same shape as `AsyncClient.RunRequests`.
- The replica list: a constant of three replicas, as in the source. The dispatcher lemmas hold for any non-empty list.
