/** The newline framer of the ping-pong sample, in its two copies:
    `samples/pingpong/PingPongMessageParser` under src/main, which returns a
    `Message`, and the one under src/test, which returns a `String`. Both
    scan with absolute gets for the first `\n` at or after the position and
    then take everything up to and including it with a relative bulk get. */
module PingPong {
  import opened Bytes
  import opened Buffers
  import opened Parsing

  /** What one call of either copy does to a buffer: the line up to and
      including the first `\n` at or after the position, turned into a
      message by `newMessage`, with the position just past it; Partial, with
      the position untouched, when no `\n` is left. The mark, which the
      caller set at the position, is never touched. */
  function LineParse<T>(v: View, newMessage: seq<byte> -> T): (p: Parse<T>)
    requires v.Valid()
  {
    match IndexOf(v.bytes, v.position, NEWLINE)
    case None => Parse(Partial, v.position, v.position)
    case Some(i) => Parse(Parsed(newMessage(v.bytes[v.position..i + 1])), i + 1, v.position)
  }

  /** The src/main copy, whose messages are `Message`s. */
  function PingPongParse(v: View): (p: Parse<Message>)
    requires v.Valid()
  {
    LineParse(v, payload => Message(payload))
  }

  /** The `for` loop both copies share: absolute `get(pos)` from the position
      to the limit until a `\n` turns up. */
  method FindNewline(buf: ByteBuffer) returns (r: Option<nat>)
    requires buf.Valid()
    ensures r == IndexOf(buf.Window(), buf.position, NEWLINE)
  {
    var pos := buf.position;
    while pos < buf.limit
      invariant buf.position <= pos <= buf.limit
      invariant NEWLINE !in buf.Window()[buf.position..pos]
      decreases buf.limit - pos
    {
      var b := buf.GetAt(pos);
      if b == Ok(NEWLINE) {
        IndexOfUnique(buf.Window(), buf.position, NEWLINE, pos);
        return Some(pos);
      }
      assert buf.Window()[buf.position..pos + 1] == buf.Window()[buf.position..pos] + [buf.Window()[pos]];
      pos := pos + 1;
    }
    return None;
  }

  /** `parse(buffer)` of the src/main copy. */
  method ParseMessage(buf: ByteBuffer) returns (o: ParseOutcome<Message>)
    requires buf.Valid() && buf.mark == buf.position
    modifies buf`position
    ensures buf.Valid()
    ensures Parse(o, buf.position, buf.mark) == PingPongParse(View(buf.Window(), old(buf.position)))
  {
    var found := FindNewline(buf);
    match found {
      case None =>
        return Partial;
      case Some(pos) =>
        var message := buf.GetBytes(pos - buf.position + 1);
        return Parsed(Message(message.value));
    }
  }

  /** `parse(buffer)` of the src/test copy; `newString` is `new String(bytes)`,
      whose charset decoding is not part of this model. */
  method ParseText<T>(buf: ByteBuffer, newString: seq<byte> -> T) returns (o: ParseOutcome<T>)
    requires buf.Valid() && buf.mark == buf.position
    modifies buf`position
    ensures buf.Valid()
    ensures Parse(o, buf.position, buf.mark) == LineParse(View(buf.Window(), old(buf.position)), newString)
  {
    var found := FindNewline(buf);
    match found {
      case None =>
        return Partial;
      case Some(pos) =>
        var message := buf.GetBytes(pos - buf.position + 1);
        return Parsed(newString(message.value));
    }
  }

  /** A line is parsed exactly when a `\n` is left; the message is the bytes
      from the position through the first `\n`, which is its last byte and
      its only `\n`, and the position ends just past it. Partial leaves the
      position where it was. */
  lemma LineParseMeaning<T>(v: View, newMessage: seq<byte> -> T)
    requires v.Valid()
    ensures var p := LineParse(v, newMessage);
            && (p.outcome.Parsed? <==> NEWLINE in v.bytes[v.position..])
            && (p.outcome.Parsed? ==>
                  var line := v.bytes[v.position..p.position];
                  && v.position < p.position
                  && p.outcome.message == newMessage(line)
                  && line[|line| - 1] == NEWLINE
                  && NEWLINE !in line[..|line| - 1])
            && (p.outcome.Partial? ==> p.position == v.position)
            && (p.outcome.Parsed? || p.outcome.Partial?)
            && p.mark == v.position
  {
    match IndexOf(v.bytes, v.position, NEWLINE)
    case None =>
    case Some(i) =>
      var line := v.bytes[v.position..i + 1];
      assert line[..|line| - 1] == v.bytes[v.position..i];
      assert v.bytes[i] == v.bytes[v.position..][i - v.position];
  }

  /** A line written at the position, `\n` and all, is read back whole: the
      message is the line and the position is just past it. */
  lemma LineRoundTrip<T>(s: seq<byte>, p: nat, line: seq<byte>, newMessage: seq<byte> -> T)
    requires |s| <= INT_MAX && p + |line| < |s| && NEWLINE !in line
    requires s[p..p + |line| + 1] == line + [NEWLINE]
    ensures LineParse(View(s, p), newMessage) ==
              Parse(Parsed(newMessage(line + [NEWLINE])), p + |line| + 1, p)
  {
    assert s[p..p + |line|] == s[p..p + |line| + 1][..|line|] == line;
    assert s[p + |line|] == (line + [NEWLINE])[|line|];
    IndexOfUnique(s, p, NEWLINE, p + |line|);
  }

  /** The src/main copy keeps the parser contract: it never moves the mark,
      a message moves the position past it, and the message is exactly the
      bytes passed over. */
  lemma PingPongKeepsContract()
    ensures Honours(PingPongParse) && Advances(PingPongParse) && Spans(PingPongParse)
  {
    forall v: View | v.Valid()
      ensures Obeys(v, PingPongParse(v))
      ensures PingPongParse(v).outcome.Parsed? || PingPongParse(v).outcome.Garbled? ==>
                PingPongParse(v).position > v.position
      ensures PingPongParse(v).outcome.Parsed? ==>
                v.position <= PingPongParse(v).position &&
                PingPongParse(v).outcome.message.payload == v.bytes[v.position..PingPongParse(v).position]
      ensures !PingPongParse(v).outcome.Garbled?
    {
      LineParseMeaning(v, payload => Message(payload));
    }
  }
}
