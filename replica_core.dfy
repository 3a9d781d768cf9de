/** The request handler both replica servers run for each connection. The read data, the
    replica's counter and the crash decision together fix the new counter and the reply, of
    which there is at most one. The threaded server reads one recv(1024) chunk, the asyncio
    server one line; everything after the read is the same in both. */
module ReplicaCore {
  import opened Wire

  /** The reply to any message other than GET_COUNTER. */
  const UnknownCommandReply: string := "ERROR unknown command\n"

  /** The reply that reports the counter's new value n: "OK n" and a newline. */
  function OkReply(n: nat): string
  {
    "OK " + NatToString(n) + "\n"
  }

  /** The command test: the whole stripped data must be GET_COUNTER. */
  predicate IsGetCounter(data: string)
  {
    Strip(data) == GetCounter
  }

  /** What handling one connection leaves behind: the counter and the reply written, if any. */
  datatype Handled = Handled(counter: nat, reply: Option<string>)

  /** handle_client after its read returned `data`. An empty read and a crash send nothing;
      GET_COUNTER advances the counter and reports its new value; anything else is refused. */
  function Serve(counter: nat, data: string, crash: bool): Handled
  {
    if data == [] then Handled(counter, None)
    else if crash then Handled(counter, None)
    else if IsGetCounter(data) then Handled(counter + 1, Some(OkReply(counter + 1)))
    else Handled(counter, Some(UnknownCommandReply))
  }

  /** The two replies are told apart by their first character. */
  lemma OkReplyNotUnknown(n: nat)
    ensures OkReply(n) != UnknownCommandReply
  {
    assert OkReply(n)[0] == 'O';
  }

  /** Different counter values give different OK replies. */
  lemma OkReplyInjective(m: nat, n: nat)
    ensures OkReply(m) == OkReply(n) <==> m == n
  {
    if OkReply(m) == OkReply(n) {
      assert NatToString(m) == OkReply(m)[3..|OkReply(m)| - 1];
      assert NatToString(n) == OkReply(n)[3..|OkReply(n)| - 1];
      NatToStringInjective(m, n);
    }
  }

  /** A client that strips the reply sees "OK n", and the counter value reads back from it. */
  lemma OkReplyStripped(n: nat)
    ensures Strip(OkReply(n)) == "OK " + NatToString(n)
    ensures ParseNat(Strip(OkReply(n))[3..]) == n
  {
    var dn := NatToString(n);
    var body := "OK " + dn;
    assert !IsSpace(body[|body| - 1]) by {
      assert body[|body| - 1] == dn[|dn| - 1];
    }
    assert AllSpace("\n");
    StripPadded([], body, "\n");
    assert [] + body + "\n" == OkReply(n);
    assert body[3..] == dn;
    ParseNatToString(n);
  }

  /** The reply is silent exactly when the read was empty or the replica crashed, and then
      the counter is untouched. */
  lemma ServeSilent(counter: nat, data: string, crash: bool)
    ensures Serve(counter, data, crash).reply.None? <==> data == [] || crash
    ensures Serve(counter, data, crash).reply.None? ==> Serve(counter, data, crash).counter == counter
  {
  }

  /** An OK reply is sent exactly for a GET_COUNTER that did not crash, and it reports the
      counter's value plus one, which is the new counter. */
  lemma ServeOk(counter: nat, data: string, crash: bool, n: nat)
    ensures Serve(counter, data, crash).reply == Some(OkReply(n))
            <==> data != [] && !crash && IsGetCounter(data) && n == counter + 1
    ensures Serve(counter, data, crash).reply == Some(OkReply(n)) ==> Serve(counter, data, crash).counter == n
  {
    OkReplyNotUnknown(n);
    OkReplyInjective(counter + 1, n);
  }

  /** The refusal is sent exactly for a message other than GET_COUNTER that did not crash,
      and it leaves the counter untouched. */
  lemma ServeUnknown(counter: nat, data: string, crash: bool)
    ensures Serve(counter, data, crash).reply == Some(UnknownCommandReply)
            <==> data != [] && !crash && !IsGetCounter(data)
    ensures Serve(counter, data, crash).reply == Some(UnknownCommandReply) ==> Serve(counter, data, crash).counter == counter
  {
    OkReplyNotUnknown(counter + 1);
  }

  /** The counter moves by one exactly for a GET_COUNTER that did not crash, and otherwise
      not at all. */
  lemma ServeCounter(counter: nat, data: string, crash: bool)
    ensures Serve(counter, data, crash).counter
            == if data != [] && !crash && IsGetCounter(data) then counter + 1 else counter
  {
  }

  /** Every reply is one line: non-empty, ending in its only newline. */
  lemma ReplyIsOneLine(counter: nat, data: string, crash: bool)
    requires Serve(counter, data, crash).reply.Some?
    ensures var line := Serve(counter, data, crash).reply.value;
            && line != [] && line[|line| - 1] == '\n'
            && '\n' !in line[..|line| - 1]
  {
    var line := Serve(counter, data, crash).reply.value;
    if line != UnknownCommandReply {
      var d := NatToString(counter + 1);
      var m := line[..|line| - 1];
      assert m == "OK " + d;
      forall i | 0 <= i < |m|
        ensures m[i] != '\n'
      {
        if i >= 3 {
          assert m[i] == d[i - 3];
        }
      }
    }
  }

  /** A client's readline() takes exactly the reply off the connection, whatever follows it. */
  lemma ReplyReadWhole(counter: nat, data: string, crash: bool, rest: string)
    requires Serve(counter, data, crash).reply.Some?
    ensures var line := Serve(counter, data, crash).reply.value;
            ReadLine(line + rest) == line
  {
    var line := Serve(counter, data, crash).reply.value;
    ReplyIsOneLine(counter, data, crash);
    var m := line[..|line| - 1];
    assert line == m + "\n";
    ReadLineOfLine(m, rest);
  }

  /** The command is recognised with any whitespace around it. */
  lemma PaddedCommand(p: string, q: string)
    requires AllSpace(p) && AllSpace(q)
    ensures IsGetCounter(p + GetCounter + q)
  {
    StripPadded(p, GetCounter, q);
  }

  /** The request line every client writes is counted by either server. */
  lemma RequestCounted(mode: ReadMode, counter: nat)
    ensures Serve(counter, Receive(mode, RequestLine(GetCounter)), false)
            == Handled(counter + 1, Some(OkReply(counter + 1)))
  {
    RequestRoundTrip(mode, GetCounter);
  }

  /** Two request lines that arrive together. */
  const DoubleRequest: string := RequestLine(GetCounter) + RequestLine(GetCounter)

  /** The threaded server tests the whole chunk, not its first line: two requests that arrive
      in one chunk are refused. */
  lemma ChunkOfTwoRequestsRefused(counter: nat)
    ensures Serve(counter, RecvChunk(DoubleRequest), false) == Handled(counter, Some(UnknownCommandReply))
  {
    var m := GetCounter + "\n" + GetCounter;
    assert DoubleRequest == [] + m + "\n";
    assert AllSpace("\n");
    StripPadded([], m, "\n");
    assert |Strip(RecvChunk(DoubleRequest))| != |GetCounter|;
  }

  /** The asyncio server reads only the first of two requests that arrive together, and
      counts it. */
  lemma LineOfTwoRequestsCounted(counter: nat)
    ensures Serve(counter, ReadLine(DoubleRequest), false) == Handled(counter + 1, Some(OkReply(counter + 1)))
  {
    ReadLineOfLine(GetCounter, RequestLine(GetCounter));
    RequestRoundTrip(Line, GetCounter);
  }

  /** A client connection as a replica sees it: what the client sent, the lines written back
      so far, and whether it has been closed. */
  class Connection {
    const incoming: string
    var sent: seq<string>
    var closed: bool

    constructor (incoming: string)
      ensures this.incoming == incoming && sent == [] && !closed
    {
      this.incoming := incoming;
      sent := [];
      closed := false;
    }

    /** sendall(), or write() then drain(): one more line goes out on the open connection. */
    method Send(line: string)
      requires !closed
      modifies this
      ensures sent == old(sent) + [line] && !closed
    {
      sent := sent + [line];
    }

    /** close(): nothing more is written afterwards; closing again changes nothing. */
    method Close()
      modifies this
      ensures closed && sent == old(sent)
    {
      closed := true;
    }
  }

  /** One accepted connection: what the client sent on it and the crash decision drawn for it. */
  datatype Arrival = Arrival(incoming: string, crash: bool)

  /** Handling one arrival under the server's read mode. */
  function Handle(mode: ReadMode, counter: nat, a: Arrival): Handled
  {
    Serve(counter, Receive(mode, a.incoming), a.crash)
  }

  /** Whether an arrival is a GET_COUNTER that is served. */
  predicate Counted(mode: ReadMode, a: Arrival)
  {
    var data := Receive(mode, a.incoming);
    data != [] && !a.crash && IsGetCounter(data)
  }

  /** The lines one connection receives. */
  function Written(reply: Option<string>): seq<string>
  {
    if reply.Some? then [reply.value] else []
  }

  /** The counter after the arrivals are handled one after another. */
  function CounterAfter(mode: ReadMode, counter: nat, arrivals: seq<Arrival>): nat
  {
    if arrivals == [] then counter
    else Handle(mode, CounterAfter(mode, counter, arrivals[..|arrivals| - 1]), arrivals[|arrivals| - 1]).counter
  }

  /** What each connection receives, in arrival order. */
  function Responses(mode: ReadMode, counter: nat, arrivals: seq<Arrival>): (r: seq<seq<string>>)
    ensures |r| == |arrivals|
  {
    if arrivals == [] then []
    else
      var before := arrivals[..|arrivals| - 1];
      Responses(mode, counter, before)
        + [Written(Handle(mode, CounterAfter(mode, counter, before), arrivals[|arrivals| - 1]).reply)]
  }

  /** Handling one more arrival extends both folds by its own step. */
  lemma ArrivalStep(mode: ReadMode, counter: nat, arrivals: seq<Arrival>, j: nat)
    requires j < |arrivals|
    ensures var h := Handle(mode, CounterAfter(mode, counter, arrivals[..j]), arrivals[j]);
            && CounterAfter(mode, counter, arrivals[..j + 1]) == h.counter
            && Responses(mode, counter, arrivals[..j + 1]) == Responses(mode, counter, arrivals[..j]) + [Written(h.reply)]
  {
    assert arrivals[..j + 1][..j] == arrivals[..j];
  }

  /** How many of the arrivals are served GET_COUNTER requests. */
  function CountServed(mode: ReadMode, arrivals: seq<Arrival>): nat
  {
    if arrivals == [] then 0
    else CountServed(mode, arrivals[..|arrivals| - 1]) + if Counted(mode, arrivals[|arrivals| - 1]) then 1 else 0
  }

  /** The counter has advanced by the number of served GET_COUNTER requests, and nothing else. */
  lemma {:induction false} CounterAfterCounts(mode: ReadMode, counter: nat, arrivals: seq<Arrival>)
    ensures CounterAfter(mode, counter, arrivals) == counter + CountServed(mode, arrivals)
  {
    if arrivals != [] {
      var before := arrivals[..|arrivals| - 1];
      var a := arrivals[|arrivals| - 1];
      CounterAfterCounts(mode, counter, before);
      ServeCounter(CounterAfter(mode, counter, before), Receive(mode, a.incoming), a.crash);
    }
  }

  lemma ResponseLast(mode: ReadMode, counter: nat, arrivals: seq<Arrival>)
    requires arrivals != []
    ensures var n := |arrivals| - 1;
            Responses(mode, counter, arrivals)[n]
            == Written(Handle(mode, CounterAfter(mode, counter, arrivals[..n]), arrivals[n]).reply)
  {
  }

  lemma ResponseEarlier(mode: ReadMode, counter: nat, arrivals: seq<Arrival>, j: nat)
    requires j < |arrivals| - 1
    ensures Responses(mode, counter, arrivals)[j] == Responses(mode, counter, arrivals[..|arrivals| - 1])[j]
  {
  }

  lemma PrefixOfPrefix<T>(xs: seq<T>, n: nat, j: nat)
    requires j < n <= |xs|
    ensures xs[..n][..j] == xs[..j] && xs[..n][j] == xs[j]
  {
  }

  /** The j-th connection receives what handling it with the counter left by the earlier ones
      writes: at most one line. */
  lemma {:induction false} ResponseAt(mode: ReadMode, counter: nat, arrivals: seq<Arrival>, j: nat)
    requires j < |arrivals|
    ensures Responses(mode, counter, arrivals)[j]
            == Written(Handle(mode, CounterAfter(mode, counter, arrivals[..j]), arrivals[j]).reply)
    ensures |Responses(mode, counter, arrivals)[j]| <= 1
  {
    var n := |arrivals| - 1;
    if j < n {
      ResponseAt(mode, counter, arrivals[..n], j);
      ResponseEarlier(mode, counter, arrivals, j);
      PrefixOfPrefix(arrivals, n, j);
    } else {
      ResponseLast(mode, counter, arrivals);
    }
  }

  lemma CountServedStep(mode: ReadMode, arrivals: seq<Arrival>, j: nat)
    requires j < |arrivals|
    ensures CountServed(mode, arrivals[..j + 1])
            == CountServed(mode, arrivals[..j]) + if Counted(mode, arrivals[j]) then 1 else 0
  {
    assert arrivals[..j + 1][..j] == arrivals[..j];
  }

  lemma HandleCounted(mode: ReadMode, counter: nat, a: Arrival)
    requires Counted(mode, a)
    ensures Written(Handle(mode, counter, a).reply) == [OkReply(counter + 1)]
  {
  }

  /** From a fresh replica, the n-th served GET_COUNTER receives "OK n". */
  lemma NthGetCounter(mode: ReadMode, arrivals: seq<Arrival>, j: nat)
    requires j < |arrivals| && Counted(mode, arrivals[j])
    ensures Responses(mode, 0, arrivals)[j] == [OkReply(CountServed(mode, arrivals[..j + 1]))]
  {
    ResponseAt(mode, 0, arrivals, j);
    var c := CounterAfter(mode, 0, arrivals[..j]);
    CounterAfterCounts(mode, 0, arrivals[..j]);
    CountServedStep(mode, arrivals, j);
    HandleCounted(mode, c, arrivals[j]);
    assert Responses(mode, 0, arrivals)[j] == [OkReply(c + 1)];
    assert CountServed(mode, arrivals[..j + 1]) == c + 1;
  }
}
