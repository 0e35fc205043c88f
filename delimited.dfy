/** The earlier newline framers `DelimitedMessageParser` (which makes
    `Message`s) and `DelimitedReceiveBuffer` (which makes `String`s). Both
    take a buffer in fill mode, flip it, cut every complete `\n`-terminated
    line out of it, and compact it so that the partial line left over sits at
    the front, ready for the next bytes read. */
module Delimited {
  import opened Bytes
  import opened Buffers
  import opened Parsing

  /** A framed line: it ends with its only `\n`. */
  predicate IsLine(frame: seq<byte>) {
    |frame| > 0 && frame[|frame| - 1] == NEWLINE && NEWLINE !in frame[..|frame| - 1]
  }

  /** The complete lines found from some position on, and where the first
      partial line (or the limit) begins. */
  datatype Framing = Framing(frames: seq<seq<byte>>, rest: nat)

  /** The loop of `process(buffer)` with the position at `p` and the index
      at `i`: each `\n` ends the line that began at the position, which
      moves past it. */
  function Scan(s: seq<byte>, p: nat, i: nat): (r: Framing)
    requires p <= i <= |s|
    ensures p <= r.rest <= |s|
    decreases |s| - i
  {
    if i == |s| then Framing([], p)
    else if s[i] == NEWLINE then
      var r := Scan(s, i + 1, i + 1);
      Framing([s[p..i + 1]] + r.frames, r.rest)
    else Scan(s, p, i + 1)
  }

  /** `process(buffer)` from position `p`. */
  function Lines(s: seq<byte>, p: nat): (r: Framing)
    requires p <= |s|
  {
    Scan(s, p, p)
  }

  /** `process(buffer)`: the index loop of absolute gets, with a relative bulk
      get of each line as its `\n` is found. */
  method Process<T>(buf: ByteBuffer, newMessage: seq<byte> -> T) returns (result: seq<T>)
    requires buf.Valid()
    modifies buf`position
    ensures buf.Valid()
    ensures var r := Lines(buf.Window(), old(buf.position));
            result == Wrap(r.frames, newMessage) && buf.position == r.rest
  {
    ghost var w := buf.Window();
    ghost var p0 := buf.position;
    ghost var frames: seq<seq<byte>> := [];
    result := [];
    var i := buf.position;
    while i < buf.limit
      invariant buf.Valid() && buf.Window() == w
      invariant p0 <= buf.position <= i <= buf.limit
      invariant result == Wrap(frames, newMessage)
      invariant Lines(w, p0) == Framing(frames + Scan(w, buf.position, i).frames, Scan(w, buf.position, i).rest)
      decreases buf.limit - i
    {
      var b := buf.GetAt(i);
      if b == Ok(NEWLINE) {
        ghost var t := Scan(w, i + 1, i + 1);
        assert frames + ([w[buf.position..i + 1]] + t.frames) == (frames + [w[buf.position..i + 1]]) + t.frames;
        frames := frames + [w[buf.position..i + 1]];
        var message := buf.GetBytes(i - buf.position + 1);
        result := result + [newMessage(message.value)];
      }
      i := i + 1;
    }
    assert frames + [] == frames;
  }

  /** `DelimitedMessageParser.parse(buffer)`: flip, frame, compact. The
      messages are the lines of what had been written; what is left at the
      front of the buffer, with the position after it, is the partial line. */
  method ParseMessages(buf: ByteBuffer) returns (result: seq<Message>)
    requires buf.Valid()
    modifies buf, buf.data
    ensures buf.Valid()
    ensures var r := Lines(old(buf.data[..buf.position]), 0);
            && result == Wrap(r.frames, payload => Message(payload))
            && buf.data[..buf.position] == old(buf.data[..buf.position])[r.rest..]
            && buf.limit == buf.data.Length && buf.mark == -1
  {
    buf.Flip();
    result := Process(buf, payload => Message(payload));
    buf.Compact();
  }

  /** `DelimitedReceiveBuffer.parse(buffer)`: the same, making strings;
      `newString` is `new String(bytes)`, whose charset decoding is not part
      of this model. */
  method ParseStrings<T>(buf: ByteBuffer, newString: seq<byte> -> T) returns (result: seq<T>)
    requires buf.Valid()
    modifies buf, buf.data
    ensures buf.Valid()
    ensures var r := Lines(old(buf.data[..buf.position]), 0);
            && result == Wrap(r.frames, newString)
            && buf.data[..buf.position] == old(buf.data[..buf.position])[r.rest..]
            && buf.limit == buf.data.Length && buf.mark == -1
  {
    buf.Flip();
    result := Process(buf, newString);
    buf.Compact();
  }

  /** What the scan frames: lines, in stream order, that together are exactly
      the bytes from the position to the rest, after which no `\n` is left. */
  lemma {:induction false} ScanMeaning(s: seq<byte>, p: nat, i: nat)
    requires p <= i <= |s| && NEWLINE !in s[p..i]
    ensures var r := Scan(s, p, i);
            && Flatten(r.frames) == s[p..r.rest]
            && (forall k :: 0 <= k < |r.frames| ==> IsLine(r.frames[k]))
            && NEWLINE !in s[r.rest..]
    decreases |s| - i
  {
    if i == |s| {
    } else if s[i] == NEWLINE {
      ScanMeaning(s, i + 1, i + 1);
      var line := s[p..i + 1];
      var r := Scan(s, i + 1, i + 1);
      assert line[..|line| - 1] == s[p..i];
      assert ([line] + r.frames)[1..] == r.frames;
      assert s[p..r.rest] == line + s[i + 1..r.rest];
    } else {
      assert s[p..i + 1] == s[p..i] + [s[i]];
      ScanMeaning(s, p, i + 1);
    }
  }

  /** What `Lines` frames: lines, in stream order, that together are exactly
      the bytes from `p` to the rest, after which no `\n` is left. */
  lemma LinesMeaning(s: seq<byte>, p: nat)
    requires p <= |s|
    ensures var r := Lines(s, p);
            && Flatten(r.frames) == s[p..r.rest]
            && (forall k :: 0 <= k < |r.frames| ==> IsLine(r.frames[k]))
            && NEWLINE !in s[r.rest..]
  {
    ScanMeaning(s, p, p);
  }

  /** Bytes with no `\n` between the position and the index are passed over
      alike whichever of the two the scan resumes from. */
  lemma {:induction false} ScanSkip(s: seq<byte>, p: nat, i: nat, j: nat)
    requires p <= i <= j <= |s| && NEWLINE !in s[i..j]
    ensures Scan(s, p, i) == Scan(s, p, j)
    decreases j - i
  {
    if i < j {
      assert s[i] == s[i..j][0];
      assert s[i + 1..j] == s[i..j][1..];
      ScanSkip(s, p, i + 1, j);
    }
  }

  /** Lines written one after the other, followed by a tail with no `\n`,
      are framed back exactly: the framing is the only one. */
  lemma LinesUnique(lines: seq<seq<byte>>, tail: seq<byte>)
    requires forall k :: 0 <= k < |lines| ==> IsLine(lines[k])
    requires NEWLINE !in tail
    ensures Lines(Flatten(lines) + tail, 0) == Framing(lines, |Flatten(lines)|)
  {
    var s := Flatten(lines) + tail;
    assert s[0..] == s;
    LinesUniqueAt(s, 0, lines, tail);
  }

  lemma {:induction false} LinesUniqueAt(s: seq<byte>, p: nat, lines: seq<seq<byte>>, tail: seq<byte>)
    requires p <= |s| && s[p..] == Flatten(lines) + tail
    requires forall k :: 0 <= k < |lines| ==> IsLine(lines[k])
    requires NEWLINE !in tail
    ensures Scan(s, p, p) == Framing(lines, p + |Flatten(lines)|)
    decreases |lines|
  {
    if lines == [] {
      ScanSkip(s, p, p, |s|);
    } else {
      var line := lines[0];
      var q := p + |line|;
      assert Flatten(lines) == line + Flatten(lines[1..]);
      LineAhead(s, p, line, Flatten(lines[1..]) + tail);
      ScanSkip(s, p, p, q - 1);
      LinesUniqueAt(s, q, lines[1..], tail);
      assert [line] + lines[1..] == lines;
    }
  }

  /** A line ahead of the position, seen byte by byte. */
  lemma LineAhead(s: seq<byte>, p: nat, line: seq<byte>, rest: seq<byte>)
    requires p <= |s| && s[p..] == line + rest && IsLine(line)
    ensures p + |line| <= |s|
    ensures s[p..p + |line|] == line && s[p + |line|..] == rest
    ensures NEWLINE !in s[p..p + |line| - 1] && s[p + |line| - 1] == NEWLINE
  {
    assert s[p..p + |line|] == s[p..][..|line|];
    assert s[p + |line|..] == s[p..][|line|..];
    assert s[p..p + |line| - 1] == line[..|line| - 1];
  }

  /** More bytes after the end change none of the lines already framed: the
      scan goes on from where it stopped. */
  lemma {:induction false} ScanExtend(a: seq<byte>, b: seq<byte>, p: nat, i: nat)
    requires p <= i <= |a|
    ensures var r := Scan(a, p, i);
            var t := Scan(a + b, r.rest, |a|);
            Scan(a + b, p, i) == Framing(r.frames + t.frames, t.rest)
    decreases |a| - i
  {
    if i == |a| {
      var t := Scan(a + b, p, i);
      assert [] + t.frames == t.frames;
    } else {
      assert (a + b)[i] == a[i];
      if a[i] == NEWLINE {
        ScanExtend(a, b, i + 1, i + 1);
        var r := Scan(a, i + 1, i + 1);
        var t := Scan(a + b, r.rest, |a|);
        var line := a[p..i + 1];
        assert (a + b)[p..i + 1] == line;
        assert [line] + (r.frames + t.frames) == ([line] + r.frames) + t.frames;
      } else {
        ScanExtend(a, b, p, i + 1);
      }
    }
  }

  /** Scanning behind a prefix `c` frames the same lines, `|c|` further on. */
  lemma {:induction false} ScanShift(c: seq<byte>, s: seq<byte>, p: nat, i: nat)
    requires p <= i <= |s|
    ensures Scan(c + s, |c| + p, |c| + i) == Framing(Scan(s, p, i).frames, |c| + Scan(s, p, i).rest)
    decreases |s| - i
  {
    if i < |s| {
      assert (c + s)[|c| + i] == s[i];
      if s[i] == NEWLINE {
        ScanShift(c, s, i + 1, i + 1);
        SliceShift(c, s, p, i + 1);
      } else {
        ScanShift(c, s, p, i + 1);
      }
    }
  }

  /** Framing in chunks, as the parse/compact/put cycle does, frames the
      same lines as framing the whole stream at once: the partial line left
      over from `a` and the next bytes `b` give the remaining lines. */
  lemma LinesChunked(a: seq<byte>, b: seq<byte>)
    ensures var r := Lines(a, 0);
            var t := Lines(a[r.rest..] + b, 0);
            Lines(a + b, 0) == Framing(r.frames + t.frames, r.rest + t.rest)
  {
    var r := Lines(a, 0);
    var c := a[..r.rest];
    var s := a[r.rest..] + b;
    ScanExtend(a, b, 0, 0);
    ScanMeaning(a, 0, 0);
    assert a + b == c + s;
    assert (a + b)[r.rest..|a|] == a[r.rest..];
    ScanSkip(a + b, r.rest, r.rest, |a|);
    ScanShift(c, s, 0, 0);
  }
}
