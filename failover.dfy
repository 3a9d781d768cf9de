/** The retry-with-failover policy shared by the three clients: the fixed replica list,
    what one try can produce, how a try is classified, and, as a reference definition,
    the outcome and the attempt log of a whole logical request. */
module Failover {
  import opened Wire

  datatype Replica = Replica(host: string, port: int)

  /** The REPLICAS list every client iterates over, in this order, every round. */
  const Replicas: seq<Replica> := [
    Replica("127.0.0.1", 5000),
    Replica("127.0.0.1", 5001),
    Replica("127.0.0.1", 5002)
  ]

  /** MAX_REPLICA_ROUNDS of both asyncio clients. */
  const MaxReplicaRounds: nat := 3

  /** The exceptions a client catches around one try: a timeout, a refused connection,
      another OS-level error, and the ConnectionError the asyncio clients raise on an empty read. */
  datatype FailKind = Timeout | Refused | OsError | EmptyResponse

  /** What the network does with one try: it delivers the replica's reply bytes, or raises. */
  datatype Raw = Delivered(stream: string) | Raised(kind: FailKind)

  /** The network, as seen by one logical request: given the attempt number, the replica and
      the bytes written, it decides the try's raw result. */
  type Transport = (nat, Replica, string) -> Raw

  /** send_request_to_replica: it returns a reply, or raises an exception that is caught. */
  datatype Outcome = Success(reply: string) | Failure(kind: FailKind)

  /** The result of send_request_with_retries: a reply, or the RuntimeError it raises,
      which reports the number of attempts made and the last error caught. */
  datatype Answer<T> = Returned(value: T) | RuntimeError(attempts: nat, lastError: Option<FailKind>)

  /** Classification of one try. The asyncio clients read one line and turn an empty read
      into a ConnectionError; the socket client reads one recv(1024) chunk and returns it
      even when it is empty. A reply is always stripped. */
  function Classify(mode: ReadMode, raw: Raw): Outcome
  {
    match raw
    case Raised(kind) => Failure(kind)
    case Delivered(stream) =>
      var data := Receive(mode, stream);
      if mode == Line && data == [] then Failure(EmptyResponse) else Success(Strip(data))
  }

  /** An empty read is a retryable failure (a ConnectionError) for the asyncio clients and a
      successful empty reply for the socket client; any other delivery is a success for both. */
  lemma ClassifyEmptyRead(stream: string)
    ensures Classify(Line, Delivered(stream)) == Failure(EmptyResponse) <==> stream == []
    ensures Classify(Line, Delivered(stream)).Success? <==> stream != []
    ensures Classify(Chunk, Delivered(stream)).Success?
    ensures Classify(Chunk, Delivered([])) == Success([])
  {
  }

  /** A reply comes back stripped: stripping it again changes nothing. */
  lemma ClassifyStripped(mode: ReadMode, raw: Raw)
    requires Classify(mode, raw).Success?
    ensures Strip(Classify(mode, raw).reply) == Classify(mode, raw).reply
  {
    StripIdempotent(Receive(mode, raw.stream));
  }

  /** A reply is never longer than what the replica sent. */
  lemma ClassifyReplyBound(mode: ReadMode, raw: Raw)
    requires Classify(mode, raw).Success?
    ensures |Classify(mode, raw).reply| <= |raw.stream|
  {
    ReceiveEmpty(mode, raw.stream);
  }

  /** One try: write the request line to the replica and classify what comes back. */
  function TryReplica(mode: ReadMode, net: Transport, attempt: nat, replica: Replica, message: string): Outcome
  {
    Classify(mode, net(attempt, replica, RequestLine(message)))
  }

  /** The Attempt Executor as the dispatcher sees it: attempt number and replica to outcome. */
  type Executor = (nat, Replica) -> Outcome

  /** A client's executor: every try writes the same message and reads in the client's mode. */
  function ExecutorOf(mode: ReadMode, net: Transport, message: string): Executor
  {
    (attempt: nat, replica: Replica) => TryReplica(mode, net, attempt, replica, message)
  }

  /** The outcome of a whole logical request: who served it, or the exhaustion error. */
  datatype Dispatched =
    | Served(reply: string, servedBy: Replica, attempts: nat)
    | Exhausted(attempts: nat, lastError: Option<FailKind>)

  /** What send_request_with_retries gives its caller when it returns only the reply. */
  function Answered(d: Dispatched): Answer<string>
  {
    match d
    case Served(reply, _, _) => Returned(reply)
    case Exhausted(attempts, lastError) => RuntimeError(attempts, lastError)
  }

  /** What send_request_with_retries gives its caller when it returns the reply and the replica. */
  function AnsweredWithReplica(d: Dispatched): Answer<(string, Replica)>
  {
    match d
    case Served(reply, servedBy, _) => Returned((reply, servedBy))
    case Exhausted(attempts, lastError) => RuntimeError(attempts, lastError)
  }

  /** The number of attempts in r full rounds over n replicas (r * n, see AttemptsInIsProduct). */
  function AttemptsIn(r: nat, n: nat): nat
  {
    if r == 0 then 0 else AttemptsIn(r - 1, n) + n
  }

  /** The round and the list position of the attempt that follows k earlier ones
      (k div n and k mod n, see LocateIsDivMod). */
  function Locate(n: nat, k: nat): (p: (nat, nat))
    requires n > 0
    ensures p.1 < n
  {
    if k < n then (0, k) else var (r, i) := Locate(n, k - n); (r + 1, i)
  }

  /** The outcome of attempt number k, counting from 1, in the fixed schedule. */
  function AttemptOutcome(replicas: seq<Replica>, exec: Executor, k: nat): Outcome
    requires 1 <= k && |replicas| > 0
  {
    exec(k, replicas[Locate(|replicas|, k - 1).1])
  }

  /** The rest of a logical request from replica i of round r on, the last failure being
      `last`: the two loops of send_request_with_retries, rounds outside, replicas inside.
      Attempt number r * n + i + 1 goes to replica i. (`last` closes the termination measure
      only so that the verifier does not evaluate the whole schedule of a constant replica
      list without being asked to.) */
  function Continue(replicas: seq<Replica>, rounds: nat, exec: Executor, r: nat, i: nat, last: Option<FailKind>): Dispatched
    requires r <= rounds && i <= |replicas|
    decreases rounds - r, |replicas| - i, last
  {
    if r == rounds then Exhausted(AttemptsIn(rounds, |replicas|), last)
    else if i == |replicas| then Continue(replicas, rounds, exec, r + 1, 0, last)
    else
      var attempt := AttemptsIn(r, |replicas|) + i + 1;
      match exec(attempt, replicas[i])
      case Success(reply) => Served(reply, replicas[i], attempt)
      case Failure(kind) => Continue(replicas, rounds, exec, r, i + 1, Some(kind))
  }

  /** The reference definition of send_request_with_retries: `rounds` passes over the list. */
  function Dispatch(replicas: seq<Replica>, rounds: nat, exec: Executor): Dispatched
  {
    Continue(replicas, rounds, exec, 0, 0, None)
  }

  lemma {:induction false} AttemptsInIsProduct(r: nat, n: nat)
    ensures AttemptsIn(r, n) == r * n
  {
    if r > 0 {
      AttemptsInIsProduct(r - 1, n);
      assert (r - 1) * n + n == r * n;
    }
  }

  lemma {:induction false} AttemptsInMonotone(r: nat, q: nat, n: nat)
    requires r <= q
    ensures AttemptsIn(r, n) <= AttemptsIn(q, n)
    decreases q
  {
    if r < q {
      AttemptsInMonotone(r, q - 1, n);
    }
  }

  /** Position i of round r is the attempt that follows r * n + i earlier ones. */
  lemma {:induction false} LocatePosition(n: nat, r: nat, i: nat)
    requires i < n
    ensures Locate(n, AttemptsIn(r, n) + i) == (r, i)
  {
    if r > 0 {
      LocatePosition(n, r - 1, i);
    }
  }

  lemma {:induction false} LocateInverse(n: nat, k: nat)
    requires n > 0
    ensures AttemptsIn(Locate(n, k).0, n) + Locate(n, k).1 == k
  {
    if k >= n {
      LocateInverse(n, k - n);
    }
  }

  lemma {:induction false} MulMonotone(a: nat, b: nat, c: nat)
    requires a <= b
    ensures a * c <= b * c
  {
    if a < b {
      MulMonotone(a, b - 1, c);
      assert (b - 1) * c + c == b * c;
    }
  }

  /** Locate is division with remainder. */
  lemma LocateIsDivMod(n: nat, k: nat)
    requires n > 0
    ensures Locate(n, k) == (k / n, k % n)
  {
    var (r, i) := Locate(n, k);
    LocateInverse(n, k);
    AttemptsInIsProduct(r, n);
    assert k == r * n + i;
    var q := k / n;
    assert k == q * n + k % n;
    if q < r {
      assert (q + 1) * n == q * n + n;
      MulMonotone(q + 1, r, n);
      assert false;
    } else if q > r {
      assert (r + 1) * n == r * n + n;
      MulMonotone(r + 1, q, n);
      assert false;
    }
  }

  /** Attempt number k goes to the replica at position (k - 1) mod n of the list. */
  lemma AttemptOutcomeTarget(replicas: seq<Replica>, exec: Executor, k: nat)
    requires 1 <= k && |replicas| > 0
    ensures AttemptOutcome(replicas, exec, k) == exec(k, replicas[(k - 1) % |replicas|])
  {
    LocateIsDivMod(|replicas|, k - 1);
  }

  /** A request that Continue serves is served by a later attempt that succeeds, made on the
      replica at its position in the schedule. */
  lemma {:induction false} ContinueServed(replicas: seq<Replica>, rounds: nat, exec: Executor,
                                          r: nat, i: nat, last: Option<FailKind>)
    requires r <= rounds && i <= |replicas| && |replicas| > 0
    requires Continue(replicas, rounds, exec, r, i, last).Served?
    ensures var made := AttemptsIn(r, |replicas|) + i;
            var d := Continue(replicas, rounds, exec, r, i, last);
            && made < d.attempts <= AttemptsIn(rounds, |replicas|)
            && d.servedBy == replicas[Locate(|replicas|, d.attempts - 1).1]
            && AttemptOutcome(replicas, exec, d.attempts) == Success(d.reply)
    decreases rounds - r, |replicas| - i
  {
    var n := |replicas|;
    assert AttemptsIn(r + 1, n) == AttemptsIn(r, n) + n;
    if i == n {
      ContinueServed(replicas, rounds, exec, r + 1, 0, last);
    } else {
      var attempt := AttemptsIn(r, n) + i + 1;
      AttemptsInMonotone(r + 1, rounds, n);
      var o := exec(attempt, replicas[i]);
      if o.Failure? {
        ContinueServed(replicas, rounds, exec, r, i + 1, Some(o.kind));
      } else {
        LocatePosition(n, r, i);
      }
    }
  }

  /** Every attempt between the current position and the serving one fails. */
  lemma {:induction false} ContinueServedFirst(replicas: seq<Replica>, rounds: nat, exec: Executor,
                                               r: nat, i: nat, last: Option<FailKind>)
    requires r <= rounds && i <= |replicas| && |replicas| > 0
    requires Continue(replicas, rounds, exec, r, i, last).Served?
    ensures var made := AttemptsIn(r, |replicas|) + i;
            var d := Continue(replicas, rounds, exec, r, i, last);
            forall k :: made < k < d.attempts ==> AttemptOutcome(replicas, exec, k).Failure?
    decreases rounds - r, |replicas| - i
  {
    var n := |replicas|;
    if i == n {
      assert AttemptsIn(r + 1, n) == AttemptsIn(r, n) + n;
      ContinueServedFirst(replicas, rounds, exec, r + 1, 0, last);
    } else {
      var attempt := AttemptsIn(r, n) + i + 1;
      var o := exec(attempt, replicas[i]);
      if o.Failure? {
        LocatePosition(n, r, i);
        assert AttemptOutcome(replicas, exec, attempt) == o;
        ContinueServedFirst(replicas, rounds, exec, r, i + 1, Some(o.kind));
      }
    }
  }

  /** A request that Continue exhausts fails every later attempt and reports all of them,
      with the error of the last attempt made. */
  lemma {:induction false} ContinueExhausted(replicas: seq<Replica>, rounds: nat, exec: Executor,
                                             r: nat, i: nat, last: Option<FailKind>)
    requires r <= rounds && i <= |replicas| && |replicas| > 0
    requires Continue(replicas, rounds, exec, r, i, last).Exhausted?
    ensures var made := AttemptsIn(r, |replicas|) + i;
            var d := Continue(replicas, rounds, exec, r, i, last);
            && d.attempts == AttemptsIn(rounds, |replicas|)
            && (forall k :: made < k <= d.attempts ==> AttemptOutcome(replicas, exec, k).Failure?)
            && d.lastError == if made >= d.attempts then last
                              else Some(AttemptOutcome(replicas, exec, d.attempts).kind)
    decreases rounds - r, |replicas| - i
  {
    var n := |replicas|;
    if r == rounds {
      AttemptsInMonotone(rounds, r, n);
    } else {
      assert AttemptsIn(r + 1, n) == AttemptsIn(r, n) + n;
      if i == n {
        ContinueExhausted(replicas, rounds, exec, r + 1, 0, last);
      } else {
        var attempt := AttemptsIn(r, n) + i + 1;
        AttemptsInMonotone(r + 1, rounds, n);
        LocatePosition(n, r, i);
        var o := exec(attempt, replicas[i]);
        assert AttemptOutcome(replicas, exec, attempt) == o;
        ContinueExhausted(replicas, rounds, exec, r, i + 1, Some(o.kind));
      }
    }
  }

  /** A served request was served by attempt number `attempts`, the first that succeeded,
      made on the replica at position (attempts - 1) mod n, which belongs to the list. */
  lemma DispatchServed(replicas: seq<Replica>, rounds: nat, exec: Executor)
    requires |replicas| > 0 && Dispatch(replicas, rounds, exec).Served?
    ensures var d := Dispatch(replicas, rounds, exec);
            && 1 <= d.attempts <= AttemptsIn(rounds, |replicas|)
            && d.servedBy == replicas[Locate(|replicas|, d.attempts - 1).1]
            && d.servedBy in replicas
            && AttemptOutcome(replicas, exec, d.attempts) == Success(d.reply)
            && forall k :: 1 <= k < d.attempts ==> AttemptOutcome(replicas, exec, k).Failure?
  {
    ContinueServed(replicas, rounds, exec, 0, 0, None);
    ContinueServedFirst(replicas, rounds, exec, 0, 0, None);
  }

  /** A served request was served by one of the rounds * n scheduled attempts, whose try of
      the replica at position (attempts - 1) mod n returned the reply. */
  lemma ServedAttempt(replicas: seq<Replica>, rounds: nat, exec: Executor)
    requires |replicas| > 0 && Dispatch(replicas, rounds, exec).Served?
    ensures var d := Dispatch(replicas, rounds, exec);
            && 1 <= d.attempts <= rounds * |replicas|
            && d.servedBy == replicas[(d.attempts - 1) % |replicas|]
            && exec(d.attempts, d.servedBy) == Success(d.reply)
  {
    var d := Dispatch(replicas, rounds, exec);
    DispatchServed(replicas, rounds, exec);
    AttemptsInIsProduct(rounds, |replicas|);
    LocateIsDivMod(|replicas|, d.attempts - 1);
  }

  /** The replica that serves a request is one of the list. */
  lemma ServedByListed(replicas: seq<Replica>, rounds: nat, exec: Executor)
    requires |replicas| > 0
    ensures var d := Dispatch(replicas, rounds, exec);
            d.Served? ==> d.servedBy in replicas
  {
    if Dispatch(replicas, rounds, exec).Served? {
      DispatchServed(replicas, rounds, exec);
    }
  }

  /** The first successful attempt ends the request: its reply and replica are returned and
      no later attempt is made. */
  lemma DispatchFirstSuccess(replicas: seq<Replica>, rounds: nat, exec: Executor, k: nat)
    requires 1 <= k <= AttemptsIn(rounds, |replicas|) && |replicas| > 0
    requires AttemptOutcome(replicas, exec, k).Success?
    requires forall j :: 1 <= j < k ==> AttemptOutcome(replicas, exec, j).Failure?
    ensures Dispatch(replicas, rounds, exec)
            == Served(AttemptOutcome(replicas, exec, k).reply, replicas[Locate(|replicas|, k - 1).1], k)
  {
    var d := Dispatch(replicas, rounds, exec);
    if d.Exhausted? {
      ContinueExhausted(replicas, rounds, exec, 0, 0, None);
    } else {
      ContinueServed(replicas, rounds, exec, 0, 0, None);
      ContinueServedFirst(replicas, rounds, exec, 0, 0, None);
    }
  }

  /** A request is exhausted exactly when every scheduled attempt fails; it then reports all
      rounds * n attempts and the error of the last one (none when nothing was tried). */
  lemma DispatchExhausted(replicas: seq<Replica>, rounds: nat, exec: Executor)
    requires |replicas| > 0
    ensures Dispatch(replicas, rounds, exec).Exhausted?
            <==> forall k :: 1 <= k <= AttemptsIn(rounds, |replicas|) ==> AttemptOutcome(replicas, exec, k).Failure?
    ensures var d := Dispatch(replicas, rounds, exec);
            d.Exhausted? ==>
              && d.attempts == AttemptsIn(rounds, |replicas|)
              && d.lastError == if d.attempts == 0 then None else Some(AttemptOutcome(replicas, exec, d.attempts).kind)
  {
    var d := Dispatch(replicas, rounds, exec);
    if d.Exhausted? {
      ContinueExhausted(replicas, rounds, exec, 0, 0, None);
    } else {
      ContinueServed(replicas, rounds, exec, 0, 0, None);
      ContinueServedFirst(replicas, rounds, exec, 0, 0, None);
    }
  }

  /** The log of a served request is the log up to its successful attempt. */
  lemma TraceServed(replicas: seq<Replica>, rounds: nat, reply: string, servedBy: Replica, a: nat)
    ensures Trace(replicas, rounds, Served(reply, servedBy, a)) == ServedLog(replicas, a)
  {
  }

  /** Attempt a, the try of replica i in round r, is logged after the complete rounds before
      round r and the first i tries of round r. */
  lemma ServedLogAt(replicas: seq<Replica>, r: nat, i: nat, a: nat)
    requires i < |replicas| && a == AttemptsIn(r, |replicas|) + i + 1
    ensures ServedLog(replicas, a) == LogUpTo(replicas, (r, i))
  {
    LocatePosition(|replicas|, r, i);
    assert Locate(|replicas|, a - 1) == (r, i);
  }

  /** The log up to the try of replica i in round r is the log before the try of replica i + 1. */
  lemma LogUpToBefore(replicas: seq<Replica>, r: nat, i: nat)
    requires i < |replicas|
    ensures LogUpTo(replicas, (r, i)) == LogBefore(replicas, r, i + 1)
  {
  }

  /** The log of a request whose attempt a succeeded, a being the try of replica i in round r,
      runs up to that try. */
  lemma ServedTraceAt(replicas: seq<Replica>, rounds: nat, r: nat, i: nat, a: nat, reply: string)
    requires i < |replicas| && a == AttemptsIn(r, |replicas|) + i + 1
    ensures Trace(replicas, rounds, Served(reply, replicas[i], a)) == LogBefore(replicas, r, i + 1)
  {
    TraceServed(replicas, rounds, reply, replicas[i], a);
    ServedLogAt(replicas, r, i, a);
    LogUpToBefore(replicas, r, i);
  }

  /** The tries of round r up to replica i: those before it, then its own. */
  lemma RoundTriesStep(replicas: seq<Replica>, r: nat, i: nat)
    requires i < |replicas|
    ensures RoundTries(replicas, r, i + 1)
            == RoundTries(replicas, r, i) + [Try(AttemptsIn(r, |replicas|) + i + 1, r, replicas[i])]
  {
  }

  /** The log up to the try of replica i in round r is the log before it, then that try. */
  lemma LogBeforeStep(replicas: seq<Replica>, r: nat, i: nat)
    requires i < |replicas|
    ensures LogBefore(replicas, r, i + 1)
            == LogBefore(replicas, r, i) + [Try(AttemptsIn(r, |replicas|) + i + 1, r, replicas[i])]
  {
    var t := Try(AttemptsIn(r, |replicas|) + i + 1, r, replicas[i]);
    var s := Schedule(replicas, r);
    var rt := RoundTries(replicas, r, i);
    RoundTriesStep(replicas, r, i);
    assert s + (rt + [t]) == s + rt + [t];
  }

  /** A failed try moves the request on to the next replica of the same round. */
  lemma ContinueFailed(replicas: seq<Replica>, rounds: nat, exec: Executor, r: nat, i: nat,
                       last: Option<FailKind>, kind: FailKind)
    requires r < rounds && i < |replicas|
    requires exec(AttemptsIn(r, |replicas|) + i + 1, replicas[i]) == Failure(kind)
    ensures Continue(replicas, rounds, exec, r, i, last) == Continue(replicas, rounds, exec, r, i + 1, Some(kind))
  {
  }

  /** A successful try ends the request with its reply. */
  lemma ContinueSucceeded(replicas: seq<Replica>, rounds: nat, exec: Executor, r: nat, i: nat,
                          last: Option<FailKind>, reply: string)
    requires r < rounds && i < |replicas|
    requires exec(AttemptsIn(r, |replicas|) + i + 1, replicas[i]) == Success(reply)
    ensures Continue(replicas, rounds, exec, r, i, last) == Served(reply, replicas[i], AttemptsIn(r, |replicas|) + i + 1)
  {
  }

  /** After the last replica of a round comes the first replica of the next round. */
  lemma ContinueNextRound(replicas: seq<Replica>, rounds: nat, exec: Executor, r: nat, last: Option<FailKind>)
    requires r < rounds
    ensures Continue(replicas, rounds, exec, r, |replicas|, last) == Continue(replicas, rounds, exec, r + 1, 0, last)
  {
  }

  /** One more round of the schedule: every replica tried, then the pause. */
  lemma ScheduleStep(replicas: seq<Replica>, r: nat)
    ensures Schedule(replicas, r + 1) == LogBefore(replicas, r, |replicas|) + [Pause(r)]
  {
  }

  /** The loops of send_request_with_retries: rounds outside, replicas inside, the attempt
      counter and the last error updated on every try, an early return on the first reply, a
      pause after every round that found none. The log records every try and every pause in
      the order they happen. */
  method RunRounds(replicas: seq<Replica>, rounds: nat, exec: Executor)
    returns (d: Dispatched, log: seq<Event>)
    ensures d == Dispatch(replicas, rounds, exec)
    ensures log == Trace(replicas, rounds, d)
  {
    var attempt := 0;
    var lastError: Option<FailKind> := None;
    log := [];
    var r := 0;
    while r < rounds
      invariant r <= rounds
      invariant attempt == AttemptsIn(r, |replicas|)
      invariant log == Schedule(replicas, r)
      invariant Continue(replicas, rounds, exec, r, 0, lastError) == Dispatch(replicas, rounds, exec)
    {
      var served;
      served, attempt, lastError, log := RunRound(replicas, rounds, exec, r, attempt, lastError, log);
      if served.Some? {
        return served.value, log;
      }
      ScheduleStep(replicas, r);
      log := log + [Pause(r)];
      r := r + 1;
    }
    d := Exhausted(attempt, lastError);
    assert Trace(replicas, rounds, d) == Schedule(replicas, rounds);
  }

  /** The inner loop of send_request_with_retries over round r: the replicas in list order,
      one more attempt and a new last error for every try, an early return with the first
      reply. When no replica answers, the request goes on where the next round starts. */
  method RunRound(replicas: seq<Replica>, rounds: nat, exec: Executor, r: nat,
                  attempt0: nat, last0: Option<FailKind>, log0: seq<Event>)
    returns (served: Option<Dispatched>, attempt: nat, lastError: Option<FailKind>, log: seq<Event>)
    requires r < rounds && attempt0 == AttemptsIn(r, |replicas|) && log0 == Schedule(replicas, r)
    ensures served.Some? ==> served.value == Continue(replicas, rounds, exec, r, 0, last0)
    ensures served.Some? ==> log == Trace(replicas, rounds, served.value)
    ensures served.None? ==> attempt == AttemptsIn(r + 1, |replicas|)
    ensures served.None? ==> Continue(replicas, rounds, exec, r + 1, 0, lastError) == Continue(replicas, rounds, exec, r, 0, last0)
    ensures served.None? ==> log == LogBefore(replicas, r, |replicas|)
  {
    var n := |replicas|;
    attempt, lastError, log := attempt0, last0, log0;
    assert LogBefore(replicas, r, 0) == log + [];
    var i := 0;
    while i < n
      invariant i <= n
      invariant attempt == AttemptsIn(r, n) + i
      invariant log == LogBefore(replicas, r, i)
      invariant Continue(replicas, rounds, exec, r, i, lastError) == Continue(replicas, rounds, exec, r, 0, last0)
    {
      attempt := attempt + 1;
      var replica := replicas[i];
      LogBeforeStep(replicas, r, i);
      log := log + [Try(attempt, r, replica)];
      match exec(attempt, replica) {
        case Success(reply) =>
          ContinueSucceeded(replicas, rounds, exec, r, i, lastError, reply);
          ServedTraceAt(replicas, rounds, r, i, attempt, reply);
          served := Some(Served(reply, replica, attempt));
          return;
        case Failure(kind) =>
          ContinueFailed(replicas, rounds, exec, r, i, lastError, kind);
          lastError := Some(kind);
      }
      i := i + 1;
    }
    ContinueNextRound(replicas, rounds, exec, r, lastError);
    assert AttemptsIn(r + 1, n) == AttemptsIn(r, n) + n;
    served := None;
  }

  /** The last of r * n attempts is the try of the last replica in the last round. */
  lemma LastAttempt(n: nat, rounds: nat)
    requires n > 0 && rounds > 0
    ensures AttemptsIn(rounds, n) >= 1
    ensures Locate(n, AttemptsIn(rounds, n) - 1) == (rounds - 1, n - 1)
  {
    assert AttemptsIn(rounds, n) == AttemptsIn(rounds - 1, n) + n;
    LocatePosition(n, rounds - 1, n - 1);
  }

  /** An exhausted request reports the error of its very last try, made on the last replica. */
  lemma ExhaustedLastError(replicas: seq<Replica>, rounds: nat, exec: Executor)
    requires |replicas| > 0 && rounds > 0
    requires Dispatch(replicas, rounds, exec).Exhausted?
    ensures var d := Dispatch(replicas, rounds, exec);
            var last := exec(d.attempts, replicas[|replicas| - 1]);
            last.Failure? && d.lastError == Some(last.kind)
  {
    DispatchExhausted(replicas, rounds, exec);
    LastAttempt(|replicas|, rounds);
  }

  /** One line of the client's log: a try, or the pause after a round that found no reply. */
  datatype Event = Try(attempt: nat, round: nat, replica: Replica) | Pause(round: nat)

  /** The first m tries of round r. */
  function RoundTries(replicas: seq<Replica>, r: nat, m: nat): seq<Event>
    requires m <= |replicas|
  {
    if m == 0 then [] else RoundTries(replicas, r, m - 1) + [Try(AttemptsIn(r, |replicas|) + m, r, replicas[m - 1])]
  }

  /** The log of `rounds` complete rounds: every replica tried in list order, then a pause. */
  function Schedule(replicas: seq<Replica>, rounds: nat): seq<Event>
  {
    if rounds == 0 then []
    else Schedule(replicas, rounds - 1) + RoundTries(replicas, rounds - 1, |replicas|) + [Pause(rounds - 1)]
  }

  /** The log a logical request with outcome d produces: a served request stops right after
      its successful try; an exhausted one runs the whole schedule, final pause included. */
  function Trace(replicas: seq<Replica>, rounds: nat, d: Dispatched): seq<Event>
  {
    match d
    case Served(_, _, a) => ServedLog(replicas, a)
    case Exhausted(_, _) => Schedule(replicas, rounds)
  }

  /** The log of a request whose attempt a succeeded. */
  function ServedLog(replicas: seq<Replica>, a: nat): seq<Event>
  {
    if a == 0 || |replicas| == 0 then [] else LogUpTo(replicas, Locate(|replicas|, a - 1))
  }

  /** The log up to and including the try of replica p.1 in round p.0. */
  function LogUpTo(replicas: seq<Replica>, p: (nat, nat)): seq<Event>
    requires p.1 < |replicas|
  {
    LogBefore(replicas, p.0, p.1 + 1)
  }

  /** The log of the complete rounds before round r and the first i tries of round r. */
  function LogBefore(replicas: seq<Replica>, r: nat, i: nat): seq<Event>
    requires i <= |replicas|
  {
    Schedule(replicas, r) + RoundTries(replicas, r, i)
  }

  lemma {:induction false} RoundTriesAt(replicas: seq<Replica>, r: nat, m: nat, i: nat)
    requires i < m <= |replicas|
    ensures |RoundTries(replicas, r, m)| == m
    ensures RoundTries(replicas, r, m)[i] == Try(AttemptsIn(r, |replicas|) + i + 1, r, replicas[i])
  {
    if i < m - 1 {
      RoundTriesAt(replicas, r, m - 1, i);
    } else if m > 1 {
      RoundTriesAt(replicas, r, m - 1, 0);
    }
  }

  lemma {:induction false} RoundTriesLength(replicas: seq<Replica>, r: nat, m: nat)
    requires m <= |replicas|
    ensures |RoundTries(replicas, r, m)| == m
  {
    if m > 0 {
      RoundTriesLength(replicas, r, m - 1);
    }
  }

  lemma {:induction false} ScheduleLength(replicas: seq<Replica>, rounds: nat)
    ensures |Schedule(replicas, rounds)| == AttemptsIn(rounds, |replicas| + 1)
  {
    if rounds > 0 {
      ScheduleLength(replicas, rounds - 1);
      RoundTriesLength(replicas, rounds - 1, |replicas|);
      assert AttemptsIn(rounds, |replicas| + 1) == AttemptsIn(rounds - 1, |replicas| + 1) + |replicas| + 1;
    }
  }

  /** The log of round r, appended after the first r rounds. */
  lemma ScheduleRound(replicas: seq<Replica>, r: nat, i: nat)
    requires i < |replicas|
    ensures |Schedule(replicas, r + 1)| == AttemptsIn(r, |replicas| + 1) + |replicas| + 1
    ensures Schedule(replicas, r + 1)[AttemptsIn(r, |replicas| + 1) + i] == Try(AttemptsIn(r, |replicas|) + i + 1, r, replicas[i])
    ensures Schedule(replicas, r + 1)[AttemptsIn(r, |replicas| + 1) + |replicas|] == Pause(r)
  {
    ScheduleLength(replicas, r);
    RoundTriesAt(replicas, r, |replicas|, i);
  }

  /** A longer run's log extends a shorter one's. */
  lemma {:induction false} SchedulePrefix(replicas: seq<Replica>, q: nat, rounds: nat)
    requires q <= rounds
    ensures |Schedule(replicas, q)| <= |Schedule(replicas, rounds)|
    ensures Schedule(replicas, q) == Schedule(replicas, rounds)[..|Schedule(replicas, q)|]
    decreases rounds
  {
    if q < rounds {
      SchedulePrefix(replicas, q, rounds - 1);
      var s := Schedule(replicas, rounds - 1);
      assert Schedule(replicas, rounds)[..|s|] == s;
    }
  }

  /** Rounds outside, replicas inside: round r of the log starts at position r * (n + 1);
      replica i is tried at offset i as attempt r * n + i + 1, and the round ends with its
      pause at offset n. */
  lemma ScheduleAt(replicas: seq<Replica>, rounds: nat, r: nat, i: nat)
    requires r < rounds && i < |replicas|
    ensures |Schedule(replicas, rounds)| == AttemptsIn(rounds, |replicas| + 1)
    ensures AttemptsIn(r, |replicas| + 1) + |replicas| < |Schedule(replicas, rounds)|
    ensures Schedule(replicas, rounds)[AttemptsIn(r, |replicas| + 1) + i] == Try(AttemptsIn(r, |replicas|) + i + 1, r, replicas[i])
    ensures Schedule(replicas, rounds)[AttemptsIn(r, |replicas| + 1) + |replicas|] == Pause(r)
  {
    ScheduleLength(replicas, rounds);
    ScheduleRound(replicas, r, i);
    SchedulePrefix(replicas, r + 1, rounds);
    var p := Schedule(replicas, r + 1);
    assert p[AttemptsIn(r, |replicas| + 1) + i] == Schedule(replicas, rounds)[AttemptsIn(r, |replicas| + 1) + i];
    assert p[AttemptsIn(r, |replicas| + 1) + |replicas|] == Schedule(replicas, rounds)[AttemptsIn(r, |replicas| + 1) + |replicas|];
  }

  /** Attempt number k is logged as a try in the round and at the position Locate gives. */
  lemma AttemptScheduled(replicas: seq<Replica>, rounds: nat, k: nat)
    requires |replicas| > 0 && 1 <= k <= AttemptsIn(rounds, |replicas|)
    ensures var (r, i) := Locate(|replicas|, k - 1);
            && r < rounds
            && AttemptsIn(r, |replicas| + 1) + i < |Schedule(replicas, rounds)|
            && Schedule(replicas, rounds)[AttemptsIn(r, |replicas| + 1) + i] == Try(k, r, replicas[i])
  {
    var n := |replicas|;
    var (r, i) := Locate(n, k - 1);
    LocateInverse(n, k - 1);
    if r >= rounds {
      AttemptsInMonotone(rounds, r, n);
      assert false;
    }
    ScheduleAt(replicas, rounds, r, i);
  }

  /** Attempt number k is logged as a try of replica (k - 1) mod n in round (k - 1) div n. */
  lemma AttemptTarget(replicas: seq<Replica>, rounds: nat, k: nat)
    requires |replicas| > 0 && 1 <= k <= AttemptsIn(rounds, |replicas|)
    ensures var n := |replicas|;
            var r := (k - 1) / n;
            var i := (k - 1) % n;
            && r < rounds
            && AttemptsIn(r, n + 1) + i < |Schedule(replicas, rounds)|
            && Schedule(replicas, rounds)[AttemptsIn(r, n + 1) + i] == Try(k, r, replicas[i])
  {
    var p := Locate(|replicas|, k - 1);
    AttemptScheduled(replicas, rounds, k);
    LocateIsDivMod(|replicas|, k - 1);
    assert p.0 == (k - 1) / |replicas| && p.1 == (k - 1) % |replicas|;
  }
}
