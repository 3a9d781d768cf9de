/** Text handling shared by the replica clients and servers: Python's str.strip(),
    the two ways a peer's bytes are read (one recv(1024) chunk, or one readline()),
    the request line a client writes, and the decimal rendering of the counter. */
module Wire {

  datatype Option<+T> = None | Some(value: T)

  /** The characters for which Python's str.isspace() holds, i.e. what strip() removes. */
  predicate IsSpace(c: char)
  {
    || c == ' '
    || ('\t' <= c <= '\r')
    || ('\U{1C}' <= c <= '\U{1F}')
    || c == '\U{85}' || c == '\U{A0}' || c == '\U{1680}'
    || ('\U{2000}' <= c <= '\U{200A}')
    || c == '\U{2028}' || c == '\U{2029}' || c == '\U{202F}' || c == '\U{205F}' || c == '\U{3000}'
  }

  predicate AllSpace(s: string)
  {
    forall i :: 0 <= i < |s| ==> IsSpace(s[i])
  }

  /** Drops the leading whitespace: what is left is a suffix that starts with a non-space. */
  function StripLeft(s: string): (r: string)
    ensures |r| <= |s| && r == s[|s| - |r|..]
    ensures r == [] || !IsSpace(r[0])
  {
    if s != [] && IsSpace(s[0]) then StripLeft(s[1..]) else s
  }

  /** Drops the trailing whitespace: what is left is a prefix that ends in a non-space. */
  function StripRight(s: string): (r: string)
    ensures |r| <= |s| && r == s[..|r|]
    ensures r == [] || !IsSpace(r[|r| - 1])
  {
    if s != [] && IsSpace(s[|s| - 1]) then StripRight(s[..|s| - 1]) else s
  }

  /** Python's s.strip(): what is left after removing whitespace at both ends. */
  function Strip(s: string): (r: string)
    ensures |r| <= |s|
    ensures r == [] || (!IsSpace(r[0]) && !IsSpace(r[|r| - 1]))
  {
    StripRight(StripLeft(s))
  }

  /** lstrip() removes whitespace only. */
  lemma {:induction false} StripLeftRemovesSpace(s: string)
    ensures AllSpace(s[..|s| - |StripLeft(s)|])
  {
    if s != [] && IsSpace(s[0]) {
      var r := StripLeft(s[1..]);
      StripLeftRemovesSpace(s[1..]);
      var k := |s| - |r|;
      forall i | 0 <= i < k
        ensures IsSpace(s[..k][i])
      {
        if i > 0 {
          assert s[..k][i] == s[1..][..k - 1][i - 1];
        }
      }
    }
  }

  /** rstrip() removes whitespace only. */
  lemma {:induction false} StripRightRemovesSpace(s: string)
    ensures AllSpace(s[|StripRight(s)|..])
  {
    if s != [] && IsSpace(s[|s| - 1]) {
      var t := s[..|s| - 1];
      var r := StripRight(t);
      StripRightRemovesSpace(t);
      forall i | |r| <= i < |s|
        ensures IsSpace(s[i])
      {
        if i < |s| - 1 {
          assert s[i] == t[|r|..][i - |r|];
        }
      }
    }
  }

  /** strip() keeps one slice of s, starting where the leading whitespace ends. */
  lemma StripIsSlice(s: string)
    ensures var a := |s| - |StripLeft(s)|;
            a + |Strip(s)| <= |s| && Strip(s) == s[a..a + |Strip(s)|]
  {
  }

  /** strip() removes only whitespace after the kept slice. */
  lemma StripRemovesTrailingSpace(s: string)
    ensures AllSpace(s[|s| - |StripLeft(s)| + |Strip(s)|..])
  {
    var l := StripLeft(s);
    var r := StripRight(l);
    StripRightRemovesSpace(l);
    assert s[|s| - |l| + |r|..] == l[|r|..];
  }

  lemma {:induction false} StripLeftPadded(p: string, x: string)
    requires AllSpace(p)
    ensures StripLeft(p + x) == StripLeft(x)
  {
    if p == [] {
      assert p + x == x;
    } else {
      assert (p + x)[0] == p[0];
      assert (p + x)[1..] == p[1..] + x;
      StripLeftPadded(p[1..], x);
    }
  }

  lemma {:induction false} StripRightPadded(x: string, q: string)
    requires AllSpace(q)
    ensures StripRight(x + q) == StripRight(x)
  {
    if q == [] {
      assert x + q == x;
    } else {
      assert (x + q)[|x + q| - 1] == q[|q| - 1];
      assert (x + q)[..|x + q| - 1] == x + q[..|q| - 1];
      StripRightPadded(x, q[..|q| - 1]);
    }
  }

  /** strip() gives back exactly the text between whitespace padding when that text
      neither starts nor ends with whitespace: the converse of Strip's ensures. */
  lemma StripPadded(p: string, m: string, q: string)
    requires AllSpace(p) && AllSpace(q)
    requires m == [] || (!IsSpace(m[0]) && !IsSpace(m[|m| - 1]))
    ensures Strip(p + m + q) == m
  {
    assert p + m + q == p + (m + q);
    StripLeftPadded(p, m + q);
    if m == [] {
      assert m + q == q;
    } else {
      assert StripLeft(m + q) == m + q;
      StripRightPadded(m, q);
    }
  }

  /** Stripping twice is stripping once. */
  lemma StripIdempotent(s: string)
    ensures Strip(Strip(s)) == Strip(s)
  {
    var r := Strip(s);
    assert StripLeft(r) == r;
    assert StripRight(r) == r;
  }

  /** How a peer's bytes are read: one socket recv(1024), or one asyncio readline(). */
  datatype ReadMode = Chunk | Line

  const MaxRecv: nat := 1024

  /** socket.recv(1024) when the peer's whole stream is available: its first 1024 characters. */
  function RecvChunk(s: string): (r: string)
    ensures |r| == if |s| <= MaxRecv then |s| else MaxRecv
    ensures r == s[..|r|]
  {
    if |s| <= MaxRecv then s else s[..MaxRecv]
  }

  /** StreamReader.readline(): everything up to and including the first newline, or the
      whole stream when it holds no newline; empty only at end of stream. */
  function ReadLine(s: string): (line: string)
    ensures |line| <= |s| && line == s[..|line|]
    ensures forall i :: 0 <= i < |line| - 1 ==> line[i] != '\n'
    ensures |line| == |s| || (line != [] && line[|line| - 1] == '\n')
    ensures line == [] <==> s == []
  {
    if s == [] then []
    else if s[0] == '\n' then ['\n']
    else [s[0]] + ReadLine(s[1..])
  }

  function Receive(mode: ReadMode, s: string): string
  {
    match mode
    case Chunk => RecvChunk(s)
    case Line => ReadLine(s)
  }

  /** Whatever the read mode, the data read is empty exactly when the peer sent nothing. */
  lemma ReceiveEmpty(mode: ReadMode, s: string)
    ensures Receive(mode, s) == [] <==> s == []
    ensures Receive(mode, s) == s[..|Receive(mode, s)|]
  {
  }

  /** The bytes a client writes for one request: the message and one newline. */
  function RequestLine(message: string): string
  {
    message + "\n"
  }

  /** A line ending in its only newline is read back whole by readline(), whatever follows it. */
  lemma {:induction false} ReadLineOfLine(m: string, rest: string)
    requires '\n' !in m
    ensures ReadLine(m + "\n" + rest) == m + "\n"
  {
    if m != [] {
      assert (m + "\n" + rest)[1..] == m[1..] + "\n" + rest;
      ReadLineOfLine(m[1..], rest);
    } else {
      assert (m + "\n" + rest)[0] == '\n';
    }
  }

  /** A request line is received intact by either server, and stripping it gives the message
      back whenever the message carries no surrounding whitespace. */
  lemma RequestRoundTrip(mode: ReadMode, message: string)
    requires '\n' !in message && |message| < MaxRecv
    requires message == [] || (!IsSpace(message[0]) && !IsSpace(message[|message| - 1]))
    ensures Receive(mode, RequestLine(message)) == RequestLine(message)
    ensures Strip(Receive(mode, RequestLine(message))) == message
  {
    ReadLineOfLine(message, []);
    assert message + "\n" + [] == RequestLine(message);
    assert AllSpace("\n");
    StripPadded([], message, "\n");
    assert [] + message + "\n" == RequestLine(message);
  }

  /** A line read by readline() keeps no newline once stripped: its only newline is its last
      character, which strip() removes. */
  lemma StrippedLineHasNoNewline(line: string)
    requires forall i :: 0 <= i < |line| - 1 ==> line[i] != '\n'
    ensures '\n' !in Strip(line)
  {
    var r := Strip(line);
    StripIsSlice(line);
    var a := |line| - |StripLeft(line)|;
    forall j | 0 <= j < |r|
      ensures r[j] != '\n'
    {
      assert r[j] == line[a + j];
      if a + j == |line| - 1 {
        assert j == |r| - 1;
        assert IsSpace('\n');
      }
    }
  }

  /** The one command the replicas understand. */
  const GetCounter: string := "GET_COUNTER"

  predicate IsDigit(c: char)
  {
    '0' <= c <= '9'
  }

  function Digit(d: nat): (c: char)
    requires d < 10
    ensures IsDigit(c)
  {
    (48 + d) as char
  }

  function DigitValue(c: char): nat
    requires IsDigit(c)
  {
    c as int - 48
  }

  /** Python's str(n) for a natural number: decimal digits without leading zeros. */
  function NatToString(n: nat): (s: string)
    ensures s != [] && forall i :: 0 <= i < |s| ==> IsDigit(s[i])
    ensures s[0] == '0' ==> n == 0
  {
    if n < 10 then [Digit(n)] else NatToString(n / 10) + [Digit(n % 10)]
  }

  function ParseNat(s: string): nat
    requires forall i :: 0 <= i < |s| ==> IsDigit(s[i])
  {
    if s == [] then 0 else ParseNat(s[..|s| - 1]) * 10 + DigitValue(s[|s| - 1])
  }

  /** Reading the decimal text back gives the number that was written. */
  lemma {:induction false} ParseNatToString(n: nat)
    ensures ParseNat(NatToString(n)) == n
  {
    var s := NatToString(n);
    if n < 10 {
      assert s[..|s| - 1] == [];
    } else {
      assert s[..|s| - 1] == NatToString(n / 10);
      ParseNatToString(n / 10);
    }
  }

  /** Different numbers are written as different text. */
  lemma NatToStringInjective(m: nat, n: nat)
    ensures NatToString(m) == NatToString(n) <==> m == n
  {
    ParseNatToString(m);
    ParseNatToString(n);
  }
}
