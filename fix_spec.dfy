/** What `silvertip.protocols.FixMessageParser` (the current revision) does to
    a buffer, as functions of the bytes below the limit and the position. The
    parser frames a FIX message by its Standard Message Header (BeginString,
    tag 8, then BodyLength, tag 9), jumps BodyLength bytes ahead and reads the
    Standard Message Trailer (CheckSum, tag 10). It does not compute or check
    the checksum, its width or MsgType. */
module FixSpec {
  import opened Bytes
  import opened Buffers
  import opened Parsing

  /** The tags the parser reads. */
  datatype Tag = BeginString | BodyLength | CheckSum

  /** `Tag.toString()`: the name with the tag number. */
  function Label(t: Tag): string {
    match t
    case BeginString => "BeginString(8)"
    case BodyLength => "BodyLength(9)"
    case CheckSum => "CheckSum(10)"
  }

  /** The bytes of `tag.number() + "="`. */
  function TagPrefix(t: Tag): (r: seq<byte>)
    ensures 2 <= |r| <= 3 && r[|r| - 1] == Ascii('=') && SOH !in r
  {
    match t
    case BeginString => [Ascii('8'), Ascii('=')]
    case BodyLength => [Ascii('9'), Ascii('=')]
    case CheckSum => [Ascii('1'), Ascii('0'), Ascii('=')]
  }

  /** SOH followed by `8=`: what the resynchronising scan looks for. */
  const BEGIN_MARKER: seq<byte> := [SOH, Ascii('8'), Ascii('=')]

  /** `match(buffer, tag)`: the tag and `=` must follow, byte for byte. The
      first byte that differs is consumed and gives a GarbledMessageException
      without text; running out of bytes gives underflow. */
  function MatchTag(s: seq<byte>, p: nat, t: Tag): (r: Step<()>)
    requires p <= |s|
    ensures p <= r.position <= |s|
    ensures r.result.Ok? ==> r.position == p + |TagPrefix(t)|
    ensures r.result.Err? ==>
              r.result == Err(BufferUnderflow) || r.result == Err(GarbledMessage(None, None))
  {
    match Compare(s, p, TagPrefix(t))
    case Matched(q) => Step(Ok(()), q)
    case Mismatched(q) => Step(Err(GarbledMessage(None, None)), q)
    case Exhausted => Step(Err(BufferUnderflow), |s|)
  }

  /** `value(buffer, tag)`: the bytes up to the next SOH, which is consumed;
      underflow when there is none; a GarbledMessageException naming the tag
      when the value is empty. */
  function Value(s: seq<byte>, p: nat, t: Tag): (r: Step<seq<byte>>)
    requires p <= |s|
    ensures p <= r.position <= |s|
    ensures r.result.Ok? ==> p + 1 < r.position
  {
    match IndexOf(s, p, SOH)
    case None => Step(Err(BufferUnderflow), |s|)
    case Some(i) =>
      if i == p then Step(Err(GarbledMessage(Some(Empty(Label(t))), None)), i + 1)
      else Step(Ok(s[p..i]), i + 1)
  }

  /** `parseField(buffer, tag)`: the tag, then its value. */
  function ParseField(s: seq<byte>, p: nat, t: Tag): (r: Step<seq<byte>>)
    requires p <= |s|
    ensures p <= r.position <= |s|
    ensures r.result.Ok? ==> p + |TagPrefix(t)| < r.position
  {
    var m := MatchTag(s, p, t);
    match m.result
    case Err(x) => Step(Err(x), m.position)
    case Ok(_) => Value(s, m.position, t)
  }

  /** `isBeginStringValid`: starts with `FIX.`, with decimal digits at offsets
      4 and 6. `String.charAt` throws StringIndexOutOfBoundsException when the
      value is too short for the offset it looks at. */
  function IsBeginStringValid(v: seq<byte>): (r: Result<bool>)
    ensures r.Err? ==> r == Err(Unchecked(StringIndexOutOfBoundsException))
  {
    if !FixPrefix(v) then Ok(false)
    else if |v| <= 4 then Err(Unchecked(StringIndexOutOfBoundsException))
    else if !IsDigit(v[4]) then Ok(false)
    else if |v| <= 6 then Err(Unchecked(StringIndexOutOfBoundsException))
    else Ok(IsDigit(v[6]))
  }

  /** The value starts with `FIX.`. */
  predicate FixPrefix(v: seq<byte>) {
    |v| >= 4 && v[..4] == [Ascii('F'), Ascii('I'), Ascii('X'), Ascii('.')]
  }

  /** What `header` returns: the length of the two header fields, the
      BodyLength value and the index of the first body byte. */
  datatype Header = Header(headerLength: int, bodyLength: int, bodyStart: nat)

  /** The complaint about an invalid BeginString. */
  function InvalidBeginString(v: seq<byte>): Complaint {
    Invalid(Label(BeginString), "FIX.m.n", v)
  }

  /** `header(buffer)`: BeginString, checked, then BodyLength, read by
      `Integer.parseInt`, which throws NumberFormatException on anything but
      an `int` in decimal. */
  function ParseHeader(s: seq<byte>, p: nat): (r: Step<Header>)
    requires p <= |s| <= INT_MAX
    ensures p <= r.position <= |s|
    ensures r.result.Ok? ==>
              r.result.value.bodyStart == r.position &&
              r.result.value.headerLength == r.position - p &&
              IsInt(r.result.value.bodyLength)
  {
    var b := ParseField(s, p, BeginString);
    match b.result
    case Err(x) => Step(Err(x), b.position)
    case Ok(beginString) => CheckedHeader(s, p, beginString, b.position)
  }

  /** The rest of `header` once BeginString `v` has been read, up to `q`. */
  function CheckedHeader(s: seq<byte>, p: nat, v: seq<byte>, q: nat): (r: Step<Header>)
    requires p <= q <= |s| <= INT_MAX
    ensures q <= r.position <= |s|
    ensures r.result.Ok? ==>
              r.result.value.bodyStart == r.position &&
              r.result.value.headerLength == r.position - p &&
              IsInt(r.result.value.bodyLength)
  {
    match IsBeginStringValid(v)
    case Err(x) => Step(Err(x), q)
    case Ok(valid) =>
      if !valid then Step(Err(GarbledMessage(Some(InvalidBeginString(v)), None)), q)
      else BodyLengthField(s, p, q)
  }

  /** The BodyLength field of `header`, read from `q`, as an `int`. */
  function BodyLengthField(s: seq<byte>, p: nat, q: nat): (r: Step<Header>)
    requires p <= q <= |s| <= INT_MAX
    ensures q <= r.position <= |s|
    ensures r.result.Ok? ==>
              r.result.value.bodyStart == r.position &&
              r.result.value.headerLength == r.position - p &&
              IsInt(r.result.value.bodyLength)
  {
    var l := ParseField(s, q, BodyLength);
    match l.result
    case Err(x) => Step(Err(x), l.position)
    case Ok(bodyLength) =>
      match ParseInt(bodyLength)
      case None => Step(Err(Unchecked(NumberFormatException)), l.position)
      case Some(n) => Step(Ok(Header(l.position - p, n, l.position)), l.position)
  }

  /** A step that also moves the mark: `position(n)` discards a mark beyond `n`. */
  datatype Moved<+T> = Moved(step: Step<T>, mark: int)

  /** `trailer(buffer, header)`: the trailer starts BodyLength bytes after the
      body's start (an `int` sum, which wraps). Beyond the limit the message is
      partial; before index 0 `position` throws IllegalArgumentException;
      otherwise the CheckSum field must follow there. If it does not, the
      position goes back to the body's start and the GarbledMessageException
      is rethrown. The result is the length of the trailer. */
  function Trailer(s: seq<byte>, h: Header, mark: int): (r: Moved<int>)
    requires h.bodyStart <= |s| <= INT_MAX && IsInt(h.bodyLength) && -1 <= mark <= h.bodyStart
    ensures r.step.position <= |s| && -1 <= r.mark <= r.step.position
    ensures r.mark == mark || r.mark == -1
    ensures r.step.result.Err? && r.step.result.thrown.GarbledMessage? ==> r.step.position == h.bodyStart
    ensures r.step.result.Ok? ==> 0 < r.step.result.value <= |s|
  {
    var trailerStart := AddInt(h.bodyStart, h.bodyLength);
    if trailerStart > |s| then Moved(Step(Err(PartialMessage), h.bodyStart), mark)
    else if trailerStart < 0 then Moved(Step(Err(Unchecked(IllegalArgumentException)), h.bodyStart), mark)
    else CheckSumField(s, h, trailerStart, Reposition(mark, trailerStart))
  }

  /** The CheckSum field of `trailer`, read from `trailerStart`, with the mark
      as `position(trailerStart)` left it. */
  function CheckSumField(s: seq<byte>, h: Header, trailerStart: nat, mark: int): (r: Moved<int>)
    requires h.bodyStart <= |s| && trailerStart <= |s| && -1 <= mark <= h.bodyStart && mark <= trailerStart
    ensures r.step.position <= |s| && -1 <= r.mark <= r.step.position
    ensures r.mark == mark || r.mark == -1
    ensures r.step.result.Err? && r.step.result.thrown.GarbledMessage? ==> r.step.position == h.bodyStart
    ensures r.step.result.Ok? ==> 0 < r.step.result.value <= |s|
  {
    var f := ParseField(s, trailerStart, CheckSum);
    match f.result
    case Err(x) =>
      if x.GarbledMessage? then Moved(Step(Err(x), h.bodyStart), Reposition(mark, h.bodyStart))
      else Moved(Step(Err(x), f.position), mark)
    case Ok(_) => Moved(Step(Ok(f.position - trailerStart), f.position), mark)
  }

  /** `nextMessagePosition(buffer)`: scanning from `p` with `skipToBeginString`,
      the index of the `8` in the first SOH `8=` found, or the limit. Each
      failed comparison consumes the byte that failed, so the scan resumes
      after it. */
  function NextMessagePosition(s: seq<byte>, p: nat): (r: nat)
    requires p <= |s|
    ensures p <= r <= |s|
    ensures r < |s| ==> p < r && r + 1 < |s|
    decreases |s| - p
  {
    if p == |s| then p
    else
      match Compare(s, p, BEGIN_MARKER)
      case Exhausted => |s|
      case Mismatched(q) => NextMessagePosition(s, q)
      case Matched(q) => q - |BEGIN_MARKER| + 1
  }

  /** How `onParse` ends, with the position and the mark it leaves. */
  datatype Exit = Exit(result: Result<seq<byte>>, position: nat, mark: int)

  /** The `catch (GarbledMessageException e)` of `onParse`: find where the next
      message starts, reset to the mark and read everything up to it into the
      exception's data, which leaves the position at the next message. */
  function Resynchronise(s: seq<byte>, text: Option<Complaint>, q: nat, mark: int): (e: Exit)
    requires q <= |s| && -1 <= mark <= q
    ensures e.position <= |s| && -1 <= e.mark <= e.position && e.mark == mark
  {
    var r := NextMessagePosition(s, q);
    if mark < 0 then Exit(Err(Unchecked(InvalidMarkException)), q, mark)
    else
      var g := GetBytesAt(s, mark, r - mark);
      match g.result
      case Ok(data) => Exit(Err(GarbledMessage(text, Some(data))), g.position, mark)
      case Err(x) => Exit(Err(x), g.position, mark)
  }

  /** `onParse(buffer)`, with the mark at `mark`: the header, then the rest of
      the message, and resynchronisation on a GarbledMessageException. */
  function OnParse(s: seq<byte>, mark: nat): (e: Exit)
    requires mark <= |s| <= INT_MAX
    ensures e.position <= |s| && -1 <= e.mark <= e.position
    ensures e.mark == mark || e.mark == -1
  {
    var hd := ParseHeader(s, mark);
    match hd.result
    case Err(x) =>
      if x.GarbledMessage? then Resynchronise(s, x.text, hd.position, mark)
      else Exit(Err(x), hd.position, mark)
    case Ok(h) => AfterHeader(s, mark, h)
  }

  /** The part of `onParse` after the header: the trailer; then the sum of the
      three lengths (an `int` sum) is allocated, the buffer reset to the mark
      and that many bytes read. */
  function AfterHeader(s: seq<byte>, mark: nat, h: Header): (e: Exit)
    requires mark <= h.bodyStart <= |s| <= INT_MAX && IsInt(h.headerLength) && IsInt(h.bodyLength)
    ensures e.position <= |s| && -1 <= e.mark <= e.position
    ensures e.mark == mark || e.mark == -1
  {
    var tr := Trailer(s, h, mark);
    match tr.step.result
    case Err(x) =>
      if x.GarbledMessage? then Resynchronise(s, x.text, tr.step.position, tr.mark)
      else Exit(Err(x), tr.step.position, tr.mark)
    case Ok(trailerLength) =>
      var n := AddInt(AddInt(h.headerLength, h.bodyLength), trailerLength);
      if n < 0 then Exit(Err(Unchecked(NegativeArraySizeException)), tr.step.position, tr.mark)
      else if tr.mark < 0 then Exit(Err(Unchecked(InvalidMarkException)), tr.step.position, tr.mark)
      else
        var g := GetBytesAt(s, tr.mark, n);
        Exit(g.result, g.position, tr.mark)
  }

  /** `FixMessageParser.parse`: `onParse` wrapped by `AbstractMessageParser.parse`,
      with `newMessage` building a `Message` from the bytes. */
  function FixParse(v: View): (p: Parse<Message>)
    requires v.Valid()
  {
    var e := OnParse(v.bytes, v.position);
    Parse(Lift(e.result, data => Message(data)), e.position, e.mark)
  }
}
