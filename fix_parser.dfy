/** `silvertip.protocols.FixMessageParser` (the current revision) as it runs:
    relative gets that move the buffer's position, `position(n)` and `reset()`,
    with thrown exceptions as `Result` values. Each method is proved to leave
    the buffer as the function of the same name in `FixSpec` describes. */
module FixParser {
  import opened Bytes
  import opened Buffers
  import opened Parsing
  import FixSpec

  /** `match(buffer, tag)`. */
  method Match(buf: ByteBuffer, tag: FixSpec.Tag) returns (r: Result<()>)
    requires buf.Valid()
    modifies buf`position
    ensures buf.Valid()
    ensures Step(r, buf.position) == FixSpec.MatchTag(buf.Window(), old(buf.position), tag)
  {
    ghost var s, p := buf.Window(), buf.position;
    var expected := FixSpec.TagPrefix(tag);
    assert expected[0..] == expected;
    for i := 0 to |expected|
      invariant buf.Valid() && buf.position == p + i
      invariant p + i <= |s|
      invariant Compare(s, p, expected) == Compare(s, p + i, expected[i..])
    {
      var c :- buf.Get();
      if c != expected[i] {
        return Err(GarbledMessage(None, None));
      }
      assert expected[i..][1..] == expected[i + 1..];
    }
    r := Ok(());
  }

  /** `value(buffer, tag)`: collects bytes until SOH. */
  method Value(buf: ByteBuffer, tag: FixSpec.Tag) returns (r: Result<seq<byte>>)
    requires buf.Valid()
    modifies buf`position
    ensures buf.Valid()
    ensures Step(r, buf.position) == FixSpec.Value(buf.Window(), old(buf.position), tag)
  {
    ghost var s, p := buf.Window(), buf.position;
    var result: seq<byte> := [];
    while true
      invariant buf.Valid() && p <= buf.position <= |s|
      invariant result == s[p..buf.position] && SOH !in result
      decreases buf.limit - buf.position
    {
      var ch :- buf.Get();
      if ch == SOH {
        IndexOfUnique(s, p, SOH, buf.position - 1);
        break;
      }
      result := result + [ch];
    }
    if |result| == 0 {
      return Err(GarbledMessage(Some(Empty(FixSpec.Label(tag))), None));
    }
    r := Ok(result);
  }

  /** `parseField(buffer, tag)`. */
  method ParseField(buf: ByteBuffer, tag: FixSpec.Tag) returns (r: Result<seq<byte>>)
    requires buf.Valid()
    modifies buf`position
    ensures buf.Valid()
    ensures Step(r, buf.position) == FixSpec.ParseField(buf.Window(), old(buf.position), tag)
  {
    var matched :- Match(buf, tag);
    r := Value(buf, tag);
  }

  /** `header(buffer)`. */
  method Header(buf: ByteBuffer) returns (r: Result<FixSpec.Header>)
    requires buf.Valid()
    modifies buf`position
    ensures buf.Valid()
    ensures Step(r, buf.position) == FixSpec.ParseHeader(buf.Window(), old(buf.position))
  {
    var start := buf.position;
    var beginString :- ParseField(buf, FixSpec.BeginString);
    var valid :- FixSpec.IsBeginStringValid(beginString);
    if !valid {
      return Err(GarbledMessage(Some(FixSpec.InvalidBeginString(beginString)), None));
    }
    var bodyLength :- ParseField(buf, FixSpec.BodyLength);
    match ParseInt(bodyLength) {
      case None =>
        r := Err(Unchecked(NumberFormatException));
      case Some(n) =>
        r := Ok(FixSpec.Header(buf.position - start, n, buf.position));
    }
  }

  /** `trailer(buffer, header)`, entered where `header` left the position. */
  method Trailer(buf: ByteBuffer, h: FixSpec.Header) returns (r: Result<int>)
    requires buf.Valid() && buf.position == h.bodyStart && IsInt(h.bodyLength)
    modifies buf`position, buf`mark
    ensures buf.Valid()
    ensures FixSpec.Moved(Step(r, buf.position), buf.mark) == FixSpec.Trailer(buf.Window(), h, old(buf.mark))
  {
    var trailerStart := AddInt(h.bodyStart, h.bodyLength);
    if trailerStart > buf.limit {
      return Err(PartialMessage);
    }
    var moved :- buf.SetPosition(trailerStart);
    r := CheckSum(buf, h, trailerStart);
  }

  /** The `try`/`catch` around the CheckSum field in `trailer`, and the
      trailer's length. */
  method CheckSum(buf: ByteBuffer, h: FixSpec.Header, trailerStart: nat) returns (r: Result<int>)
    requires buf.Valid() && buf.position == trailerStart && h.bodyStart <= buf.limit
    requires buf.mark <= h.bodyStart
    modifies buf`position, buf`mark
    ensures buf.Valid()
    ensures FixSpec.Moved(Step(r, buf.position), buf.mark) ==
            FixSpec.CheckSumField(buf.Window(), h, trailerStart, old(buf.mark))
  {
    var checkSum := ParseField(buf, FixSpec.CheckSum);
    match checkSum {
      case Err(x) =>
        if x.GarbledMessage? {
          var back := buf.SetPosition(h.bodyStart);
        }
        r := Err(x);
      case Ok(_) =>
        r := Ok(buf.position - trailerStart);
    }
  }

  /** `skipToBeginString(buffer)`: reads SOH `8=` byte by byte; on a match the
      position goes back to the `8`. */
  method SkipToBeginString(buf: ByteBuffer) returns (r: Result<bool>)
    requires buf.Valid()
    modifies buf`position, buf`mark
    ensures buf.Valid() && buf.mark == old(buf.mark)
    ensures match Compare(buf.Window(), old(buf.position), FixSpec.BEGIN_MARKER)
            case Matched(q) => r == Ok(true) && buf.position == q - 2
            case Mismatched(q) => r == Ok(false) && buf.position == q
            case Exhausted => r == Err(BufferUnderflow) && buf.position == buf.limit
  {
    ghost var s, p := buf.Window(), buf.position;
    var beginString := FixSpec.BEGIN_MARKER;
    assert beginString[0..] == beginString;
    for i := 0 to |beginString|
      invariant buf.Valid() && buf.position == p + i && buf.mark == old(buf.mark)
      invariant p + i <= |s|
      invariant Compare(s, p, beginString) == Compare(s, p + i, beginString[i..])
    {
      var c :- buf.Get();
      if c != beginString[i] {
        return Ok(false);
      }
      assert beginString[i..][1..] == beginString[i + 1..];
    }
    var back := buf.SetPosition(buf.position - |beginString| + 1);
    r := Ok(true);
  }

  /** `nextMessagePosition(buffer)`: the scan, after which the position is
      restored. */
  method NextMessagePosition(buf: ByteBuffer) returns (r: nat)
    requires buf.Valid()
    modifies buf`position, buf`mark
    ensures buf.Valid() && buf.position == old(buf.position) && buf.mark == old(buf.mark)
    ensures r == FixSpec.NextMessagePosition(buf.Window(), old(buf.position))
  {
    ghost var s := buf.Window();
    var start := buf.position;
    while buf.HasRemaining()
      invariant buf.Valid() && buf.mark == old(buf.mark) && start <= buf.position
      invariant FixSpec.NextMessagePosition(s, buf.position) == FixSpec.NextMessagePosition(s, start)
      decreases buf.limit - buf.position
    {
      var found := SkipToBeginString(buf);
      if found.Err? || found.value {
        break;
      }
    }
    r := buf.position;
    var restored := buf.SetPosition(start);
  }

  /** The `catch (GarbledMessageException e)` of `onParse`; anything else
      thrown propagates. */
  method Catch(buf: ByteBuffer, x: Thrown) returns (r: Result<seq<byte>>)
    requires buf.Valid()
    modifies buf`position, buf`mark
    ensures buf.Valid()
    ensures x.GarbledMessage? ==>
              FixSpec.Exit(r, buf.position, buf.mark) ==
              FixSpec.Resynchronise(buf.Window(), x.text, old(buf.position), old(buf.mark))
    ensures !x.GarbledMessage? ==> r == Err(x) && buf.position == old(buf.position) && buf.mark == old(buf.mark)
  {
    if !x.GarbledMessage? {
      return Err(x);
    }
    ghost var s := buf.Window();
    var next := NextMessagePosition(buf);
    var reset := buf.Reset();
    match reset {
      case Err(e) =>
        r := Err(e);
      case Ok(_) =>
        var data := buf.GetBytes(next - buf.position);
        match data {
          case Ok(d) =>
            r := Err(GarbledMessage(x.text, Some(d)));
          case Err(e) =>
            r := Err(e);
        }
    }
  }

  /** `onParse(buffer)`, called with the mark at the position: the `try`
      block, whose GarbledMessageException goes to `Catch`. */
  method OnParse(buf: ByteBuffer) returns (r: Result<seq<byte>>)
    requires buf.Valid() && buf.mark == buf.position
    modifies buf`position, buf`mark
    ensures buf.Valid()
    ensures FixSpec.Exit(r, buf.position, buf.mark) == FixSpec.OnParse(buf.Window(), old(buf.position))
  {
    var header := Header(buf);
    match header {
      case Err(x) =>
        r := Catch(buf, x);
      case Ok(h) =>
        r := AfterHeader(buf, h);
    }
  }

  /** The `try` block of `onParse` after `header` has returned `h`: the
      trailer, then the whole message from the mark. */
  method AfterHeader(buf: ByteBuffer, h: FixSpec.Header) returns (r: Result<seq<byte>>)
    requires buf.Valid() && buf.mark <= buf.position == h.bodyStart && 0 <= buf.mark
    requires h.headerLength == h.bodyStart - buf.mark && IsInt(h.bodyLength)
    modifies buf`position, buf`mark
    ensures buf.Valid()
    ensures FixSpec.Exit(r, buf.position, buf.mark) == FixSpec.AfterHeader(buf.Window(), old(buf.mark), h)
  {
    ghost var tr := FixSpec.Trailer(buf.Window(), h, buf.mark);
    var trailerLength := Trailer(buf, h);
    assert tr.step.result == trailerLength && tr.mark == buf.mark;
    match trailerLength {
      case Err(x) =>
        r := Catch(buf, x);
      case Ok(t) =>
        var n := AddInt(AddInt(h.headerLength, h.bodyLength), t);
        if n < 0 {
          return Err(Unchecked(NegativeArraySizeException));
        }
        var reset :- buf.Reset();
        r := buf.GetBytes(n);
    }
  }

  /** `FixMessageParser.parse`, inherited from `AbstractMessageParser`. */
  method Parse(buf: ByteBuffer) returns (o: ParseOutcome<Message>)
    requires buf.Valid() && buf.mark == buf.position
    modifies buf`position, buf`mark
    ensures buf.Valid()
    ensures Parsing.Parse(o, buf.position, buf.mark) == FixSpec.FixParse(View(buf.Window(), old(buf.position)))
  {
    var data := OnParse(buf);
    o := Lift(data, bytes => Message(bytes));
  }
}
