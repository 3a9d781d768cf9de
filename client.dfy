/** client.py: the blocking socket client. Each try reads one recv(1024) chunk, and the
    number of rounds over the replica list is the max_retries argument. */
module Client {
  import opened Wire
  import opened Failover

  /** range(max_retries) runs no round at all when max_retries is not positive. */
  function Rounds(maxRetries: int): (rounds: nat)
    ensures maxRetries >= 0 ==> rounds == maxRetries
    ensures maxRetries <= 0 ==> rounds == 0
  {
    if maxRetries < 0 then 0 else maxRetries
  }

  /** The default of max_retries. */
  const DefaultMaxRetries: int := 3

  /** What one logical request of this client amounts to. */
  function Request(net: Transport, message: string, maxRetries: int): Dispatched
  {
    Dispatch(Replicas, Rounds(maxRetries), ExecutorOf(Chunk, net, message))
  }

  /** send_request_with_retries(message, max_retries): the reply of the first replica that
      answers, or the RuntimeError after max_retries rounds over the list, together with the
      log of tries and pauses. */
  method SendRequestWithRetries(net: Transport, message: string, maxRetries: int)
    returns (answer: Answer<string>, log: seq<Event>)
    ensures answer == Answered(Request(net, message, maxRetries))
    ensures log == Trace(Replicas, Rounds(maxRetries), Request(net, message, maxRetries))
  {
    var d;
    d, log := RunRounds(Replicas, Rounds(maxRetries), ExecutorOf(Chunk, net, message));
    answer := Answered(d);
  }

  /** A reply is the stripped first chunk of at most 1024 characters that the serving replica
      sent back for this very attempt. */
  lemma ReplyIsStrippedChunk(net: Transport, message: string, maxRetries: int)
    requires Request(net, message, maxRetries).Served?
    ensures var d := Request(net, message, maxRetries);
            var raw := net(d.attempts, d.servedBy, RequestLine(message));
            && d.servedBy in Replicas
            && 1 <= d.attempts <= 3 * Rounds(maxRetries)
            && raw.Delivered?
            && d.reply == Strip(RecvChunk(raw.stream))
            && |d.reply| <= MaxRecv
  {
    ServedAttempt(Replicas, Rounds(maxRetries), ExecutorOf(Chunk, net, message));
  }

  /** Unlike the asyncio clients, an empty read is a reply: when the first replica accepts the
      first try and closes without sending anything, the request returns the empty string. */
  lemma EmptyReadIsReply(net: Transport, message: string, maxRetries: int)
    requires maxRetries >= 1
    requires net(1, Replicas[0], RequestLine(message)) == Delivered([])
    ensures Request(net, message, maxRetries) == Served([], Replicas[0], 1)
  {
    var rounds := Rounds(maxRetries);
    var exec := ExecutorOf(Chunk, net, message);
    assert AttemptsIn(rounds, 3) >= 1 by {
      AttemptsInIsProduct(rounds, 3);
    }
    assert AttemptOutcome(Replicas, exec, 1) == Classify(Chunk, Delivered([]));
    ClassifyEmptyRead([]);
    DispatchFirstSuccess(Replicas, rounds, exec, 1);
  }

  /** The RuntimeError is raised exactly when every try of every round fails; it reports
      max_retries * 3 attempts, and with max_retries <= 0 it reports no attempt and no error. */
  lemma RequestExhausted(net: Transport, message: string, maxRetries: int)
    ensures var exec := ExecutorOf(Chunk, net, message);
            Request(net, message, maxRetries).Exhausted?
            <==> forall k :: 1 <= k <= 3 * Rounds(maxRetries) ==> AttemptOutcome(Replicas, exec, k).Failure?
    ensures var d := Request(net, message, maxRetries);
            d.Exhausted? ==> Answered(d) == RuntimeError(3 * Rounds(maxRetries), d.lastError)
    ensures maxRetries <= 0 ==> Answered(Request(net, message, maxRetries)) == RuntimeError(0, None)
  {
    var rounds := Rounds(maxRetries);
    DispatchExhausted(Replicas, rounds, ExecutorOf(Chunk, net, message));
    AttemptsInIsProduct(rounds, 3);
  }
}
