/** async_client.py: the asyncio client. Each try reads one line, turns an empty read into a
    ConnectionError and closes the connection after the read; a driver sends five requests in
    sequence. */
module AsyncClient {
  import opened Wire
  import opened Failover

  /** What one logical request of this client amounts to: MAX_REPLICA_ROUNDS rounds of line reads. */
  function Request(net: Transport, message: string): Dispatched
  {
    Dispatch(Replicas, MaxReplicaRounds, ExecutorOf(Line, net, message))
  }

  /** The writer side of one connection to a replica. */
  class Writer {
    var closed: bool

    constructor ()
      ensures !closed
    {
      closed := false;
    }
  }

  /** The part of send_request_to_replica after the request is written: the readline() under
      its timeout (`read` is the line's stream, or the timeout), the close in `finally`, then
      the empty-response check and the strip. Whatever the read gives, the writer ends closed. */
  method ReadReply(writer: Writer, read: Raw) returns (outcome: Outcome)
    modifies writer
    ensures writer.closed
    ensures outcome == Classify(Line, read)
  {
    var data: string := [];
    var error: Option<FailKind> := None;
    match read {
      case Raised(kind) => error := Some(kind);
      case Delivered(stream) => data := ReadLine(stream);
    }
    writer.closed := true;
    if error.Some? {
      return Failure(error.value);
    }
    if data == [] {
      return Failure(EmptyResponse);
    }
    outcome := Success(Strip(data));
  }

  /** send_request_with_retries(message): the reply of the first replica that answers with a
      line, or the RuntimeError after MAX_REPLICA_ROUNDS rounds, with the log of tries and pauses. */
  method SendRequestWithRetries(net: Transport, message: string)
    returns (answer: Answer<string>, log: seq<Event>)
    ensures answer == Answered(Request(net, message))
    ensures log == Trace(Replicas, MaxReplicaRounds, Request(net, message))
  {
    var d;
    d, log := RunRounds(Replicas, MaxReplicaRounds, ExecutorOf(Line, net, message));
    answer := Answered(d);
  }

  /** A reply is the stripped first line the serving replica sent back for this very attempt;
      that line was not empty, and the reply holds no newline. */
  lemma ReplyIsStrippedLine(net: Transport, message: string)
    requires Request(net, message).Served?
    ensures var d := Request(net, message);
            var raw := net(d.attempts, d.servedBy, RequestLine(message));
            && d.servedBy in Replicas
            && 1 <= d.attempts <= 9
            && raw.Delivered? && raw.stream != []
            && d.reply == Strip(ReadLine(raw.stream))
            && '\n' !in d.reply
  {
    ServedAttempt(Replicas, MaxReplicaRounds, ExecutorOf(Line, net, message));
    var d := Request(net, message);
    var raw := net(d.attempts, d.servedBy, RequestLine(message));
    StrippedLineHasNoNewline(ReadLine(raw.stream));
  }

  /** An empty response is a failure: the try that reads nothing raises ConnectionError. */
  lemma EmptyResponseFails(net: Transport, message: string, k: nat)
    requires 1 <= k
    requires net(k, Replicas[(k - 1) % 3], RequestLine(message)) == Delivered([])
    ensures AttemptOutcome(Replicas, ExecutorOf(Line, net, message), k) == Failure(EmptyResponse)
  {
    AttemptOutcomeTarget(Replicas, ExecutorOf(Line, net, message), k);
  }

  /** An empty response is retried, not returned: the try that reads nothing never serves the
      request. */
  lemma EmptyResponseRetried(net: Transport, message: string, k: nat)
    requires 1 <= k
    requires net(k, Replicas[(k - 1) % 3], RequestLine(message)) == Delivered([])
    ensures Request(net, message).Served? ==> Request(net, message).attempts != k
  {
    EmptyResponseFails(net, message, k);
    if Request(net, message).Served? {
      DispatchServed(Replicas, MaxReplicaRounds, ExecutorOf(Line, net, message));
    }
  }

  /** The RuntimeError is raised exactly when all nine tries fail; it reports nine attempts and
      the error of the ninth, made on the last replica. */
  lemma RequestExhausted(net: Transport, message: string)
    ensures var exec := ExecutorOf(Line, net, message);
            Request(net, message).Exhausted?
            <==> forall k :: 1 <= k <= 9 ==> AttemptOutcome(Replicas, exec, k).Failure?
    ensures var d := Request(net, message);
            d.Exhausted? ==>
              && Answered(d) == RuntimeError(9, d.lastError)
              && var last := ExecutorOf(Line, net, message)(9, Replicas[2]);
                 last.Failure? && d.lastError == Some(last.kind)
  {
    var exec := ExecutorOf(Line, net, message);
    DispatchExhausted(Replicas, MaxReplicaRounds, exec);
    AttemptsInIsProduct(MaxReplicaRounds, 3);
    if Request(net, message).Exhausted? {
      ExhaustedLastError(Replicas, MaxReplicaRounds, exec);
    }
  }

  /** The number of requests main() sends. */
  const DriverRequests: nat := 5

  /** main(): five GET_COUNTER requests one after the other, request i over network nets(i);
      a failed request is reported and the next one is still sent. */
  method RunRequests(nets: nat -> Transport) returns (answers: seq<Answer<string>>)
    ensures |answers| == DriverRequests
    ensures forall j :: 0 <= j < DriverRequests ==> answers[j] == Answered(Request(nets(j + 1), GetCounter))
  {
    answers := [];
    for i := 1 to DriverRequests + 1
      invariant |answers| == i - 1
      invariant forall j :: 0 <= j < i - 1 ==> answers[j] == Answered(Request(nets(j + 1), GetCounter))
    {
      var answer, _ := SendRequestWithRetries(nets(i), GetCounter);
      answers := answers + [answer];
    }
  }
}
