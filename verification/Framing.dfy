/** The line framing of the wire protocol: a reader that fills a growing
    buffer from reads of arbitrary size, against "split the stream at
    newlines". */
module Framing {
  import opened Bytes
  import opened Vaults

  /** The length of n bytes in base64: four characters for every three bytes
      or a part of them (section 4 of RFC 4648). */
  function Base64Len(n: nat): nat {
    if n == 0 then 0 else 4 + Base64Len(if n < 3 then 0 else n - 3)
  }

  const MAX_LINE_LEN: nat := 4 * ((MAX_VALUE_LEN + 2) / 3) + 64 * 1024

  lemma {:induction false} Base64Closed(n: nat)
    ensures Base64Len(n) == 4 * ((n + 2) / 3)
    decreases n
  {
    if n >= 3 {
      Base64Closed(n - 3);
    }
  }

  /** A line has room for any value in base64 and 64 KiB besides, and for the
      largest value not for one byte more. */
  lemma LineHoldsValue(n: nat, rest: nat)
    requires n <= MAX_VALUE_LEN
    ensures MAX_LINE_LEN == 1_463_640
    ensures rest <= 0x10000 ==> Base64Len(n) + rest <= MAX_LINE_LEN
    ensures n == MAX_VALUE_LEN && rest > 0x10000 ==> Base64Len(n) + rest > MAX_LINE_LEN
  {
    Base64Closed(n);
  }
  const INITIAL_LEN: nat := 4096

  /** How a stream ends once its bytes are used up. */
  datatype End = Eof | Failure

  /** What reading one line gives. */
  datatype Line =
    | Text(line: bytes)
    | CleanEof       // io.EOF
    | UnexpectedEof  // io.ErrUnexpectedEOF
    | TooLong        // ErrLineTooLong
    | ReadError

  /** The next line of a stream, a function of the stream alone. */
  function NextLine(s: bytes, end: End): Line {
    var i := IndexOf(s, LF);
    if i < |s| && i <= MAX_LINE_LEN then Text(s[..i])
    else if |s| > MAX_LINE_LEN then TooLong
    else if end == Failure then ReadError
    else if s == [] then CleanEof
    else UnexpectedEof
  }

  /** All lines a stream delivers before the first result that is no line. */
  function Lines(s: bytes, end: End): seq<bytes>
    decreases |s|
  {
    match NextLine(s, end)
    case Text(l) => [l] + Lines(s[|l| + 1..], end)
    case _ => []
  }

  /** What is left of the stream then; NextLine of it is why reading stops. */
  function Rest(s: bytes, end: End): (rest: bytes)
    ensures !NextLine(rest, end).Text?
    decreases |s|
  {
    match NextLine(s, end)
    case Text(l) => Rest(s[|l| + 1..], end)
    case _ => s
  }

  function Join(lines: seq<bytes>): bytes {
    if lines == [] then [] else lines[0] + [LF] + Join(lines[1..])
  }

  predicate NoLF(s: bytes) { forall i :: 0 <= i < |s| ==> s[i] != LF }

  lemma IndexOfLine(l: bytes, rest: bytes)
    requires NoLF(l)
    ensures IndexOf(l + [LF] + rest, LF) == |l|
  {
    var s := l + [LF] + rest;
    assert forall j :: 0 <= j < |l| ==> s[j] == l[j];
    assert s[|l|] == LF;
  }

  lemma JoinCons(l: bytes, tail: seq<bytes>)
    ensures Join([l] + tail) == l + [LF] + Join(tail)
  {
    assert ([l] + tail)[1..] == tail;
  }

  /** Nothing is lost, duplicated or reordered: the delivered lines, each
      followed by its newline, and the rest make up the stream. */
  lemma {:induction false} LinesSplit(s: bytes, end: End)
    ensures s == Join(Lines(s, end)) + Rest(s, end)
    decreases |s|
  {
    match NextLine(s, end)
    case Text(l) =>
      var t := s[|l| + 1..];
      var ls, rest := Lines(t, end), Rest(t, end);
      calc {
        s;
        l + [LF] + t;
        { LinesSplit(t, end); }
        l + [LF] + (Join(ls) + rest);
        { Associate(l + [LF], Join(ls), rest); }
        (l + [LF] + Join(ls)) + rest;
        { JoinCons(l, ls); }
        Join([l] + ls) + rest;
      }
    case _ =>
      assert Join([]) + s == s;
  }

  predicate Fits(l: bytes) { NoLF(l) && |l| <= MAX_LINE_LEN }

  predicate AllFit(lines: seq<bytes>) { forall i :: 0 <= i < |lines| ==> Fits(lines[i]) }

  /** A delivered line has no newline of its own and is within the limit. */
  lemma {:induction false} LinesFit(s: bytes, end: End)
    ensures AllFit(Lines(s, end))
    decreases |s|
  {
    match NextLine(s, end)
    case Text(l) =>
      assert Fits(l);
      LinesFit(s[|l| + 1..], end);
    case _ =>
  }

  lemma FirstLine(l: bytes, t: bytes, end: End)
    requires Fits(l)
    ensures Lines(l + [LF] + t, end) == [l] + Lines(t, end)
    ensures Rest(l + [LF] + t, end) == Rest(t, end)
  {
    var s := l + [LF] + t;
    LimitIsExact(l, t, end);
    assert s[|l| + 1..] == t;
  }

  /** And every line within the limit is delivered: a stream put together
      from such lines splits into exactly those lines. */
  lemma {:induction false} LinesJoin(lines: seq<bytes>, rest: bytes, end: End)
    requires AllFit(lines)
    requires !NextLine(rest, end).Text?
    ensures Lines(Join(lines) + rest, end) == lines
    ensures Rest(Join(lines) + rest, end) == rest
    decreases lines
  {
    if lines == [] {
      assert Join(lines) + rest == rest;
    } else {
      var l, t := lines[0], Join(lines[1..]) + rest;
      assert Fits(l);
      assert Join(lines) + rest == l + [LF] + t;
      FirstLine(l, t, end);
      LinesJoin(lines[1..], rest, end);
      assert lines == [l] + lines[1..];
    }
  }

  /** A line of exactly MAX_LINE_LEN bytes is accepted, one byte more is not. */
  lemma LimitIsExact(l: bytes, rest: bytes, end: End)
    requires NoLF(l)
    ensures NextLine(l + [LF] + rest, end) == if |l| <= MAX_LINE_LEN then Text(l) else TooLong
  {
    IndexOfLine(l, rest);
    assert (l + [LF] + rest)[..|l|] == l;
  }

  /** The bytes a connection still has to deliver. A read hands over any
      positive number of them that fits; the error comes with no bytes. */
  class Source {
    var stream: bytes
    const end: End

    constructor (stream: bytes, end: End)
      ensures this.stream == stream && this.end == end
    {
      this.stream := stream;
      this.end := end;
    }

    /** Read into b[from..]: m bytes, or the stream's end. */
    method Read(b: array<byte>, from: nat) returns (m: nat, err: Option<End>)
      requires from < b.Length
      modifies this`stream, b
      ensures m <= b.Length - from && m <= |old(stream)|
      ensures stream == old(stream)[m..]
      ensures b[..from] == old(b[..from]) && b[from + m..] == old(b[from + m..])
      ensures b[from..from + m] == old(stream)[..m]
      ensures err == None ==> 0 < m
      ensures err.Some? ==> m == 0 && old(stream) == [] && err.value == end
    {
      if stream == [] {
        return 0, Some(end);
      }
      var want: nat := *;
      m := 1;
      if want > 0 {
        m := want;
      }
      m := if m <= |stream| then m else |stream|;
      m := if m <= b.Length - from then m else b.Length - from;
      forall i | 0 <= i < m {
        b[from + i] := stream[i];
      }
      stream := stream[m..];
      err := None;
    }
  }

  predicate AllZero(s: bytes) { forall i :: 0 <= i < |s| ==> s[i] == 0 }

  class Reader {
    const src: Source
    var buf: array<byte>
    var n: nat
    /** Every buffer the reader has outgrown. */
    ghost var outgrown: set<array<byte>>

    ghost predicate Valid()
      reads this, src, buf, outgrown
    {
      && buf !in outgrown
      && INITIAL_LEN <= buf.Length <= MAX_LINE_LEN + 1
      && n <= buf.Length
      && AllZero(buf[n..])
      && (forall a :: a in outgrown ==> AllZero(a[..]))
    }

    /** The stream from the reader's point of view: what it has buffered,
        then what is still to come. */
    ghost function Unread(): bytes
      requires n <= buf.Length
      reads this, src, buf
    {
      buf[..n] + src.stream
    }

    constructor (src: Source)
      ensures Valid() && fresh(buf) && outgrown == {}
      ensures this.src == src && Unread() == src.stream
    {
      this.src := src;
      var b := new byte[INITIAL_LEN](_ => 0);
      buf, n, outgrown := b, 0, {};
      new;
      assert buf[..n] == [];
    }

    /** bytes.IndexByte over the filled part of the buffer. */
    method FindLF() returns (i: int)
      requires n <= buf.Length
      ensures i == -1 <==> NoLF(buf[..n])
      ensures i != -1 ==> 0 <= i < n && i == IndexOf(buf[..n], LF)
    {
      var j := 0;
      while j < n
        invariant 0 <= j <= n
        invariant NoLF(buf[..j])
      {
        if buf[j] == LF {
          assert buf[..n] == buf[..j] + [LF] + buf[j + 1..n];
          IndexOfLine(buf[..j], buf[j + 1..n]);
          return j;
        }
        j := j + 1;
      }
      return -1;
    }

    /** Moves to a strictly larger buffer and zeroes the old one. */
    method Grow()
      requires Valid() && n == buf.Length <= MAX_LINE_LEN
      modifies this`buf, this`outgrown, buf
      ensures Valid() && fresh(buf)
      ensures n < buf.Length && buf[..n] == old(buf[..n])
      ensures outgrown == old(outgrown) + {old(buf)}
    {
      var size := if 2 * buf.Length < MAX_LINE_LEN + 1 then 2 * buf.Length else MAX_LINE_LEN + 1;
      var grown := new byte[size](_ => 0);
      forall i | 0 <= i < buf.Length {
        grown[i] := buf[i];
      }
      ghost var was := buf[..n];
      forall i | 0 <= i < buf.Length {
        buf[i] := 0;
      }
      outgrown := outgrown + {buf};
      buf := grown;
      assert buf[..n] == was;
    }

    /** One read into the free part of the buffer. */
    method Fill() returns (err: Option<End>)
      requires Valid() && n < buf.Length
      modifies this`n, src`stream, buf
      ensures Valid() && Unread() == old(Unread())
      ensures err == None ==> |src.stream| < |old(src.stream)|
      ensures err.Some? ==> src.stream == [] && err.value == src.end && n == old(n) && buf[..n] == old(buf[..n])
    {
      ghost var held, tail, incoming := buf[..n], buf[n..], src.stream;
      var m, e := src.Read(buf, n);
      n := n + m;
      assert buf[..n] == held + incoming[..m];
      assert buf[n..] == tail[m..];
      assert held + incoming[..m] + incoming[m..] == held + incoming;
      return e;
    }

    /** readLine. The line stays in the buffer until Consume. */
    method ReadLine() returns (r: Line)
      requires Valid()
      modifies this, src`stream, buf
      ensures Valid() && (buf == old(buf) || fresh(buf))
      ensures fresh(outgrown - old(outgrown) - {old(buf)})
      ensures old(outgrown) <= outgrown
      ensures Unread() == old(Unread())
      ensures r == NextLine(Unread(), src.end)
      ensures r.Text? ==> |r.line| < n && buf[..|r.line|] == r.line
    {
      hide NextLine, IndexOf, NoLF;
      while true
        invariant Valid() && (buf == old(buf) || fresh(buf))
        invariant old(outgrown) <= outgrown && fresh(outgrown - old(outgrown) - {old(buf)})
        invariant Unread() == old(Unread())
        decreases |src.stream|
      {
        var i := FindLF();
        SplitUnread(buf[..n], src.stream, src.end);
        if i >= 0 {
          return Text(buf[..i]);
        }
        if n > MAX_LINE_LEN {
          return TooLong;
        }
        if n == buf.Length {
          Grow();
        }
        var err := Fill();
        if err.Some? {
          if err.value == Eof {
            return if n == 0 then CleanEof else UnexpectedEof;
          }
          return ReadError;
        }
      }
    }

    /** Zeroes a line and its newline, shifts the rest to the front and
        zeroes the freed tail. */
    method Consume(lineLen: nat)
      requires Valid() && lineLen < n
      modifies this`n, buf
      ensures Valid()
      ensures Unread() == old(Unread())[lineLen + 1..]
    {
      hide IndexOf;
      var end := lineLen + 1;
      ghost var was := buf[..];
      forall i | 0 <= i < end {
        buf[i] := 0;
      }
      assert buf[end..] == was[end..];
      var rest := n - end;
      forall i | 0 <= i < rest {
        buf[i] := buf[end + i];
      }
      assert buf[..rest] == was[end..n];
      assert buf[n..] == was[n..];
      forall i | rest <= i < n {
        buf[i] := 0;
      }
      assert buf[..rest] == was[end..n];
      assert buf[n..] == was[n..];
      ghost var n0 := n;
      n := rest;
      TailsZero(buf[..], rest, n0);
      assert (was[..n0] + src.stream)[end..] == was[end..n0] + src.stream;
    }
  }

  lemma TailsZero(b: bytes, rest: nat, n: nat)
    requires rest <= n <= |b| && AllZero(b[n..])
    requires forall i :: rest <= i < n ==> b[i] == 0
    ensures AllZero(b[rest..])
  {
    forall i | rest <= i < |b| ensures b[i] == 0 {
      if i >= n { assert b[n..][i - n] == 0; }
    }
  }

  /** A newline in the buffered part is the first of the whole stream; with
      none, the limit decides as soon as the buffer passes it. */
  lemma SplitUnread(held: bytes, rest: bytes, end: End)
    ensures !NoLF(held) && IndexOf(held, LF) <= MAX_LINE_LEN ==>
              NextLine(held + rest, end) == Text(held[..IndexOf(held, LF)])
    ensures NoLF(held) && |held| > MAX_LINE_LEN ==> NextLine(held + rest, end) == TooLong
    ensures NoLF(held) && |held| <= MAX_LINE_LEN && rest == [] ==>
              NextLine(held + rest, end) == if end == Failure then ReadError else if held == [] then CleanEof else UnexpectedEof
  {
    var s := held + rest;
    var i := IndexOf(s, LF);
    forall j | 0 <= j < |held| ensures s[j] == held[j] {}
    if !NoLF(held) {
      var k := IndexOf(held, LF);
      assert i == k;
      assert s[..i] == held[..k];
    }
  }
}
