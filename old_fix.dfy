/** The older `silvertip.protocols.FixMessageParser`, which frames a FIX
    message as `8=<BeginString>` SOH `9=<BodyLength>` SOH, BodyLength bytes
    of body, then `10=<CheckSum>` SOH, and rebuilds the message from the
    fields it read. It checks only that the three tags are there: values
    may be empty, and nothing is done to go back on a garbled message. */
module OldFix {
  import opened Bytes
  import opened Buffers
  import opened Parsing

  const BEGIN_TAG: seq<byte> := [Ascii('8'), Ascii('=')]
  const LENGTH_TAG: seq<byte> := [Ascii('9'), Ascii('=')]
  const CHECKSUM_TAG: seq<byte> := [Ascii('1'), Ascii('0'), Ascii('=')]

  /** `match(buffer, s)`: the bytes of `s` must follow, one relative `get()`
      each; the first that differs is consumed and throws a
      GarbledMessageException with neither text nor data. */
  function MatchText(s: seq<byte>, p: nat, lit: seq<byte>): (r: Step<()>)
    requires p <= |s|
    ensures p <= r.position <= |s|
    ensures r.result.Ok? ==> r.position == p + |lit|
    ensures r.result.Err? ==>
              r.result == Err(BufferUnderflow) || r.result == Err(GarbledMessage(None, None))
  {
    match Compare(s, p, lit)
    case Matched(q) => Step(Ok(()), q)
    case Mismatched(q) => Step(Err(GarbledMessage(None, None)), q)
    case Exhausted => Step(Err(BufferUnderflow), |s|)
  }

  /** `value(buffer)`: the bytes up to the next SOH, which is consumed;
      underflow when there is none. An empty value is a value. */
  function ValueText(s: seq<byte>, p: nat): (r: Step<seq<byte>>)
    requires p <= |s|
    ensures p <= r.position <= |s|
    ensures r.result.Ok? ==> r.position == p + |r.result.value| + 1
    ensures r.result.Err? ==> r.result == Err(BufferUnderflow)
  {
    match IndexOf(s, p, SOH)
    case None => Step(Err(BufferUnderflow), |s|)
    case Some(i) => Step(Ok(s[p..i]), i + 1)
  }

  /** A field as the StringBuilders rebuild it: tag, value, SOH. */
  function FieldText(tag: seq<byte>, value: seq<byte>): (t: seq<byte>)
    ensures |t| == |tag| + |value| + 1
  {
    tag + value + [SOH]
  }

  /** A tag and its value, as `match` then `value`. */
  function Field(s: seq<byte>, p: nat, tag: seq<byte>): (r: Step<seq<byte>>)
    requires p <= |s|
    ensures p <= r.position <= |s|
    ensures r.result.Ok? ==> r.position == p + |tag| + |r.result.value| + 1
  {
    var m := MatchText(s, p, tag);
    if m.result.Err? then Step(Err(m.result.thrown), m.position) else ValueText(s, m.position)
  }

  /** The text `header(buffer)` builds for the two header fields, and the
      BodyLength it parsed. */
  datatype OldHeader = OldHeader(text: seq<byte>, length: int)

  /** `header(buffer)`: BeginString and BodyLength, rebuilt as read; a
      BodyLength that is not a Java `int` throws NumberFormatException. */
  function ReadHeader(s: seq<byte>, p: nat): (r: Step<OldHeader>)
    requires p <= |s|
    ensures p <= r.position <= |s|
    ensures r.result.Ok? ==> r.position == p + |r.result.value.text| && IsInt(r.result.value.length)
  {
    var b := Field(s, p, BEGIN_TAG);
    if b.result.Err? then Step(Err(b.result.thrown), b.position)
    else
      var l := Field(s, b.position, LENGTH_TAG);
      if l.result.Err? then Step(Err(l.result.thrown), l.position)
      else
        match ParseInt(l.result.value)
        case None => Step(Err(Unchecked(NumberFormatException)), l.position)
        case Some(n) =>
          Step(Ok(OldHeader(FieldText(BEGIN_TAG, b.result.value) + FieldText(LENGTH_TAG, l.result.value), n)),
               l.position)
  }

  /** `trailer(buffer)`: the CheckSum field, rebuilt as read. */
  function ReadTrailer(s: seq<byte>, p: nat): (r: Step<seq<byte>>)
    requires p <= |s|
    ensures p <= r.position <= |s|
    ensures r.result.Ok? ==> r.position == p + |r.result.value|
  {
    var c := Field(s, p, CHECKSUM_TAG);
    if c.result.Err? then c else Step(Ok(FieldText(CHECKSUM_TAG, c.result.value)), c.position)
  }

  /** `parse(buffer)`: header, body and trailer. Underflow anywhere becomes a
      PartialMessageException; a negative BodyLength throws
      NegativeArraySizeException when the body array is made; a garbled
      message carries no text or data and leaves the position after the byte
      that gave it away. */
  function OldParse(s: seq<byte>, p: nat): (r: Step<Message>)
    requires p <= |s|
    ensures p <= r.position <= |s|
    ensures r.result.Err? && r.result.thrown.GarbledMessage? ==>
              r.result.thrown == GarbledMessage(None, None) && p < r.position
    ensures r.result.Err? ==> r.result.thrown != BufferUnderflow
  {
    var h := ReadHeader(s, p);
    match h.result
    case Err(x) => Step(Err(if x == BufferUnderflow then PartialMessage else x), h.position)
    case Ok(header) =>
      if header.length < 0 then Step(Err(Unchecked(NegativeArraySizeException)), h.position)
      else OldBody(s, h.position, header)
  }

  /** The rest of `parse(buffer)` once the header is read at `q`: the body
      array, then the trailer. */
  function OldBody(s: seq<byte>, q: nat, header: OldHeader): (r: Step<Message>)
    requires q <= |s| && header.length >= 0
    ensures q <= r.position <= |s|
    ensures r.result.Err? && r.result.thrown.GarbledMessage? ==>
              r.result.thrown == GarbledMessage(None, None) && q < r.position
    ensures r.result.Err? ==> r.result.thrown != BufferUnderflow
  {
    var body := GetBytesAt(s, q, header.length);
    if body.result.Err? then Step(Err(PartialMessage), body.position)
    else
      var t := ReadTrailer(s, body.position);
      match t.result
      case Err(x) => Step(Err(if x == BufferUnderflow then PartialMessage else x), t.position)
      case Ok(trailer) => Step(Ok(Message(header.text + body.result.value + trailer)), t.position)
  }

  /** `match(buffer, s)`. */
  method Match(buf: ByteBuffer, lit: seq<byte>) returns (r: Result<()>)
    requires buf.Valid()
    modifies buf`position
    ensures buf.Valid()
    ensures Step(r, buf.position) == MatchText(buf.Window(), old(buf.position), lit)
  {
    ghost var s, p := buf.Window(), buf.position;
    assert lit[0..] == lit;
    for i := 0 to |lit|
      invariant buf.Valid() && buf.position == p + i
      invariant p + i <= |s|
      invariant Compare(s, p, lit) == Compare(s, p + i, lit[i..])
    {
      var c :- buf.Get();
      if c != lit[i] {
        return Err(GarbledMessage(None, None));
      }
      assert lit[i..][1..] == lit[i + 1..];
    }
    r := Ok(());
  }

  /** `value(buffer)`: the StringBuilder loop, up to SOH. */
  method Value(buf: ByteBuffer) returns (r: Result<seq<byte>>)
    requires buf.Valid()
    modifies buf`position
    ensures buf.Valid()
    ensures Step(r, buf.position) == ValueText(buf.Window(), old(buf.position))
  {
    ghost var s, p := buf.Window(), buf.position;
    var result: seq<byte> := [];
    while true
      invariant buf.Valid() && p <= buf.position <= |s|
      invariant result == s[p..buf.position] && SOH !in result
      decreases buf.limit - buf.position
    {
      var ch :- buf.Get();
      if ch == SOH {
        IndexOfUnique(s, p, SOH, buf.position - 1);
        break;
      }
      result := result + [ch];
    }
    r := Ok(result);
  }

  /** `match(buffer, tag)` then `value(buffer)`. */
  method ReadField(buf: ByteBuffer, tag: seq<byte>) returns (r: Result<seq<byte>>)
    requires buf.Valid()
    modifies buf`position
    ensures buf.Valid()
    ensures Step(r, buf.position) == Field(buf.Window(), old(buf.position), tag)
  {
    var matched :- Match(buf, tag);
    r := Value(buf);
  }

  /** `header(buffer)`. */
  method Header(buf: ByteBuffer) returns (r: Result<OldHeader>)
    requires buf.Valid()
    modifies buf`position
    ensures buf.Valid()
    ensures Step(r, buf.position) == ReadHeader(buf.Window(), old(buf.position))
  {
    var beginString :- ReadField(buf, BEGIN_TAG);
    var length :- ReadField(buf, LENGTH_TAG);
    match ParseInt(length) {
      case None =>
        r := Err(Unchecked(NumberFormatException));
      case Some(n) =>
        r := Ok(OldHeader(FieldText(BEGIN_TAG, beginString) + FieldText(LENGTH_TAG, length), n));
    }
  }

  /** `trailer(buffer)`. */
  method Trailer(buf: ByteBuffer) returns (r: Result<seq<byte>>)
    requires buf.Valid()
    modifies buf`position
    ensures buf.Valid()
    ensures Step(r, buf.position) == ReadTrailer(buf.Window(), old(buf.position))
  {
    var checksum :- ReadField(buf, CHECKSUM_TAG);
    r := Ok(FieldText(CHECKSUM_TAG, checksum));
  }

  /** `parse(buffer)`. */
  method Parse(buf: ByteBuffer) returns (r: Result<Message>)
    requires buf.Valid()
    modifies buf`position
    ensures buf.Valid()
    ensures Step(r, buf.position) == OldParse(buf.Window(), old(buf.position))
  {
    var header := Header(buf);
    if header.Err? {
      return Err(if header.thrown == BufferUnderflow then PartialMessage else header.thrown);
    }
    if header.value.length < 0 {
      return Err(Unchecked(NegativeArraySizeException));
    }
    r := Body(buf, header.value);
  }

  /** The body array and `trailer(buffer)`, once the header is read. */
  method Body(buf: ByteBuffer, header: OldHeader) returns (r: Result<Message>)
    requires buf.Valid() && header.length >= 0
    modifies buf`position
    ensures buf.Valid()
    ensures Step(r, buf.position) == OldBody(buf.Window(), old(buf.position), header)
  {
    var payload := buf.GetBytes(header.length);
    if payload.Err? {
      return Err(PartialMessage);
    }
    var trailer := Trailer(buf);
    if trailer.Err? {
      return Err(if trailer.thrown == BufferUnderflow then PartialMessage else trailer.thrown);
    }
    r := Ok(Message(header.text + payload.value + trailer.value));
  }

  /** A field read whole is the tag, the value and SOH that were there. */
  lemma FieldSpans(s: seq<byte>, p: nat, tag: seq<byte>, value: seq<byte>, q: nat)
    requires p <= |s| && Field(s, p, tag) == Step(Ok(value), q)
    ensures s[p..q] == FieldText(tag, value) && SOH !in value
  {
    CompareMatched(s, p, tag);
    var m := p + |tag|;
    assert s[p..q] == s[p..m] + s[m..q - 1] + [s[q - 1]];
  }

  /** A field written as a tag, a value without SOH, and SOH is read back
      whole, whatever follows it. */
  lemma FieldAt(s: seq<byte>, p: nat, tag: seq<byte>, value: seq<byte>)
    requires SOH !in value
    requires p + |tag| + |value| + 1 <= |s| && s[p..p + |tag| + |value| + 1] == FieldText(tag, value)
    ensures Field(s, p, tag) == Step(Ok(value), p + |tag| + |value| + 1)
  {
    var q := p + |tag|;
    var e := q + |value|;
    Split(s, p, tag + value, [SOH]);
    Split(s, p, tag, value);
    assert s[e] == s[e..e + 1][0];
    CompareMatched(s, p, tag);
    IndexOfUnique(s, q, SOH, e);
  }

  /** A header read whole is its two fields, rebuilt as read. */
  lemma HeaderParts(s: seq<byte>, p: nat) returns (v: seq<byte>, q: nat, n: seq<byte>, e: nat)
    requires p <= |s| && ReadHeader(s, p).result.Ok?
    ensures Field(s, p, BEGIN_TAG) == Step(Ok(v), q)
    ensures q <= |s| && Field(s, q, LENGTH_TAG) == Step(Ok(n), e)
    ensures ReadHeader(s, p) ==
              Step(Ok(OldHeader(FieldText(BEGIN_TAG, v) + FieldText(LENGTH_TAG, n), ReadHeader(s, p).result.value.length)), e)
  {
    var b := Field(s, p, BEGIN_TAG);
    v, q := b.result.value, b.position;
    var l := Field(s, q, LENGTH_TAG);
    n, e := l.result.value, l.position;
  }

  /** A message read whole is the header, the body after it, and the
      CheckSum field after that. */
  lemma ParseParts(s: seq<byte>, p: nat) returns (h: OldHeader, q: nat, c: seq<byte>, e: nat)
    requires p <= |s| && OldParse(s, p).result.Ok?
    ensures ReadHeader(s, p) == Step(Ok(h), q)
    ensures 0 <= h.length <= |s| - q
    ensures Field(s, q + h.length, CHECKSUM_TAG) == Step(Ok(c), e)
    ensures OldParse(s, p) == Step(Ok(Message(h.text + s[q..q + h.length] + FieldText(CHECKSUM_TAG, c))), e)
  {
    var r := ReadHeader(s, p);
    h, q := r.result.value, r.position;
    var f := Field(s, q + h.length, CHECKSUM_TAG);
    c, e := f.result.value, f.position;
  }

  /** A header read whole is the bytes it consumed. */
  lemma HeaderSpans(s: seq<byte>, p: nat)
    requires p <= |s| && ReadHeader(s, p).result.Ok?
    ensures ReadHeader(s, p).result.value.text == s[p..ReadHeader(s, p).position]
  {
    var v, q, n, e := HeaderParts(s, p);
    FieldSpans(s, p, BEGIN_TAG, v, q);
    FieldSpans(s, q, LENGTH_TAG, n, e);
    Two(s, p, q, e, FieldText(BEGIN_TAG, v), FieldText(LENGTH_TAG, n));
  }

  /** What `parse` returns is exactly the bytes it consumed: the rebuilt
      header, body and trailer are the message as it arrived. */
  lemma OldParseSpans(s: seq<byte>, p: nat)
    requires p <= |s| && OldParse(s, p).result.Ok?
    ensures OldParse(s, p).result.value.payload == s[p..OldParse(s, p).position]
  {
    var h, q, c, e := ParseParts(s, p);
    HeaderSpans(s, p);
    FieldSpans(s, q + h.length, CHECKSUM_TAG, c, e);
    Three(s, p, q, q + h.length, e, h.text, FieldText(CHECKSUM_TAG, c));
  }

  /** Two consecutive slices join up. */
  lemma Two(s: seq<byte>, a: nat, b: nat, c: nat, x: seq<byte>, y: seq<byte>)
    requires a <= b <= c <= |s| && s[a..b] == x && s[b..c] == y
    ensures x + y == s[a..c]
  {
    assert s[a..c] == s[a..b] + s[b..c];
  }

  /** Three consecutive slices join up. */
  lemma Three(s: seq<byte>, a: nat, b: nat, c: nat, d: nat, x: seq<byte>, z: seq<byte>)
    requires a <= b <= c <= d <= |s| && s[a..b] == x && s[c..d] == z
    ensures x + s[b..c] + z == s[a..d]
  {
    assert s[a..d] == s[a..b] + s[b..c] + s[c..d];
  }

  /** A FIX message as this parser expects it: BeginString, BodyLength in
      decimal, the body, and CheckSum, each field ended by SOH. */
  function Frame(beginString: seq<byte>, body: seq<byte>, checkSum: seq<byte>): seq<byte> {
    FieldText(BEGIN_TAG, beginString) + FieldText(LENGTH_TAG, Decimal(|body|)) + body +
    FieldText(CHECKSUM_TAG, checkSum)
  }

  /** Bytes `a` then `b` at `p`, each seen on its own. */
  lemma Split(s: seq<byte>, p: nat, a: seq<byte>, b: seq<byte>)
    requires p + |a| + |b| <= |s| && s[p..p + |a| + |b|] == a + b
    ensures s[p..p + |a|] == a && s[p + |a|..p + |a| + |b|] == b
  {
    assert s[p..p + |a|] == s[p..p + |a| + |b|][..|a|];
    assert s[p + |a|..p + |a| + |b|] == s[p..p + |a| + |b|][|a|..];
  }

  /** Two fields read whole, the second a number, make a header. */
  lemma HeaderAt(s: seq<byte>, p: nat, v: seq<byte>, q: nat, n: seq<byte>, e: nat, len: int)
    requires p <= q <= |s|
    requires Field(s, p, BEGIN_TAG) == Step(Ok(v), q) && Field(s, q, LENGTH_TAG) == Step(Ok(n), e)
    requires ParseInt(n) == Some(len)
    ensures ReadHeader(s, p) == Step(Ok(OldHeader(FieldText(BEGIN_TAG, v) + FieldText(LENGTH_TAG, n), len)), e)
  {
  }

  /** A header, a body as long as it says, and a CheckSum field read whole
      make a message. */
  lemma ParseAt(s: seq<byte>, p: nat, h: OldHeader, q: nat, c: seq<byte>, e: nat)
    requires p <= |s| && ReadHeader(s, p) == Step(Ok(h), q)
    requires 0 <= h.length <= |s| - q
    requires Field(s, q + h.length, CHECKSUM_TAG) == Step(Ok(c), e)
    ensures OldParse(s, p) == Step(Ok(Message(h.text + s[q..q + h.length] + FieldText(CHECKSUM_TAG, c))), e)
  {
    AfterHeader(s, p, h, q);
    BodyAt(s, q, h, c, e);
  }

  /** A header read whole leaves the rest to the body and trailer. */
  lemma AfterHeader(s: seq<byte>, p: nat, h: OldHeader, q: nat)
    requires p <= |s| && ReadHeader(s, p) == Step(Ok(h), q) && 0 <= h.length
    ensures q <= |s| && OldParse(s, p) == OldBody(s, q, h)
  {
  }

  /** A body as long as the header says and a CheckSum field read whole
      after it. */
  lemma BodyAt(s: seq<byte>, q: nat, h: OldHeader, c: seq<byte>, e: nat)
    requires 0 <= h.length <= |s| - q
    requires Field(s, q + h.length, CHECKSUM_TAG) == Step(Ok(c), e)
    ensures OldBody(s, q, h) == Step(Ok(Message(h.text + s[q..q + h.length] + FieldText(CHECKSUM_TAG, c))), e)
  {
    var t := q + h.length;
    assert GetBytesAt(s, q, h.length) == Step(Ok(s[q..t]), t);
    assert ReadTrailer(s, t) == Step(Ok(FieldText(CHECKSUM_TAG, c)), e);
  }

  /** The three fields and the body of a frame, each read whole where the
      one before it ends. */
  lemma FrameFields(s: seq<byte>, p: nat, beginString: seq<byte>, body: seq<byte>, checkSum: seq<byte>)
    returns (q1: nat, q2: nat, q3: nat, e: nat)
    requires SOH !in beginString && SOH !in checkSum
    requires var f := Frame(beginString, body, checkSum);
             p + |f| <= |s| && s[p..p + |f|] == f
    ensures Field(s, p, BEGIN_TAG) == Step(Ok(beginString), q1)
    ensures q1 <= |s| && Field(s, q1, LENGTH_TAG) == Step(Ok(Decimal(|body|)), q2)
    ensures q2 <= q3 <= |s| && q3 == q2 + |body| && s[q2..q3] == body
    ensures Field(s, q3, CHECKSUM_TAG) == Step(Ok(checkSum), e)
    ensures e == p + |Frame(beginString, body, checkSum)|
  {
    var n := Decimal(|body|);
    var x1 := FieldText(BEGIN_TAG, beginString);
    var x2 := FieldText(LENGTH_TAG, n);
    var x4 := FieldText(CHECKSUM_TAG, checkSum);
    q1 := p + |x1|;
    q2 := q1 + |x2|;
    q3 := q2 + |body|;
    e := q3 + |x4|;
    Split(s, p, x1 + x2 + body, x4);
    Split(s, p, x1 + x2, body);
    Split(s, p, x1, x2);
    FieldAt(s, p, BEGIN_TAG, beginString);
    NoSohInDigits(n);
    FieldAt(s, q1, LENGTH_TAG, n);
    FieldAt(s, q3, CHECKSUM_TAG, checkSum);
  }

  /** A whole message is framed and returned as it arrived, with the
      position just past it: the body is as long as BodyLength says, and
      empty values are as good as any. */
  lemma OldParseFrame(s: seq<byte>, p: nat, beginString: seq<byte>, body: seq<byte>, checkSum: seq<byte>)
    requires SOH !in beginString && SOH !in checkSum && |body| <= INT_MAX
    requires var f := Frame(beginString, body, checkSum);
             p + |f| <= |s| && s[p..p + |f|] == f
    ensures var f := Frame(beginString, body, checkSum);
            OldParse(s, p) == Step(Ok(Message(f)), p + |f|)
  {
    var q1, q2, q3, e := FrameFields(s, p, beginString, body, checkSum);
    var n := Decimal(|body|);
    ParseIntDecimal(|body|);
    HeaderAt(s, p, beginString, q1, n, q2, |body|);
    var text := FieldText(BEGIN_TAG, beginString) + FieldText(LENGTH_TAG, n);
    ParseAt(s, p, OldHeader(text, |body|), q2, checkSum, e);
    assert text + s[q2..q3] + FieldText(CHECKSUM_TAG, checkSum) == Frame(beginString, body, checkSum);
  }

  lemma NoSohInDigits(n: seq<byte>)
    requires AllDigits(n)
    ensures SOH !in n
  {
    forall i | 0 <= i < |n|
      ensures n[i] != SOH
    {
      assert IsDigit(n[i]);
    }
  }

  /** The first byte that differs from the tag garbles the field, and is
      the last byte read. */
  lemma FieldMismatch(s: seq<byte>, p: nat, tag: seq<byte>, i: nat)
    requires p + i < |s| && i < |tag|
    requires s[p..p + i] == tag[..i] && s[p + i] != tag[i]
    ensures Field(s, p, tag) == Step(Err(GarbledMessage(None, None)), p + i + 1)
  {
    CompareFirstDifference(s, p, tag, i);
  }

  /** A message that does not begin with `8=` is garbled at the first byte
      that differs. */
  lemma BeginTagMismatch(s: seq<byte>, p: nat, i: nat)
    requires p + i < |s| && i < |BEGIN_TAG|
    requires s[p..p + i] == BEGIN_TAG[..i] && s[p + i] != BEGIN_TAG[i]
    ensures OldParse(s, p) == Step(Err(GarbledMessage(None, None)), p + i + 1)
  {
    FieldMismatch(s, p, BEGIN_TAG, i);
  }

  /** A second field that does not begin with `9=` garbles the message at
      the first byte that differs. */
  lemma LengthTagMismatch(s: seq<byte>, p: nat, v: seq<byte>, q: nat, i: nat)
    requires p <= |s| && Field(s, p, BEGIN_TAG) == Step(Ok(v), q)
    requires q + i < |s| && i < |LENGTH_TAG|
    requires s[q..q + i] == LENGTH_TAG[..i] && s[q + i] != LENGTH_TAG[i]
    ensures OldParse(s, p) == Step(Err(GarbledMessage(None, None)), q + i + 1)
  {
    FieldMismatch(s, q, LENGTH_TAG, i);
  }

  /** A trailer that does not begin with `10=` right after the body garbles
      the message at the first byte that differs. */
  lemma CheckSumTagMismatch(s: seq<byte>, p: nat, h: OldHeader, q: nat, i: nat)
    requires p <= |s| && ReadHeader(s, p) == Step(Ok(h), q) && 0 <= h.length
    requires q + h.length + i < |s| && i < |CHECKSUM_TAG|
    requires s[q + h.length..q + h.length + i] == CHECKSUM_TAG[..i] && s[q + h.length + i] != CHECKSUM_TAG[i]
    ensures OldParse(s, p) == Step(Err(GarbledMessage(None, None)), q + h.length + i + 1)
  {
    AfterHeader(s, p, h, q);
    BodyMismatch(s, q, h, i);
  }

  /** A CheckSum tag that differs after the body garbles the message at
      the first byte that differs. */
  lemma BodyMismatch(s: seq<byte>, q: nat, h: OldHeader, i: nat)
    requires 0 <= h.length && q + h.length + i < |s| && i < |CHECKSUM_TAG|
    requires s[q + h.length..q + h.length + i] == CHECKSUM_TAG[..i] && s[q + h.length + i] != CHECKSUM_TAG[i]
    ensures OldBody(s, q, h) == Step(Err(GarbledMessage(None, None)), q + h.length + i + 1)
  {
    var t := q + h.length;
    FieldMismatch(s, t, CHECKSUM_TAG, i);
    assert GetBytesAt(s, q, h.length) == Step(Ok(s[q..t]), t);
  }

  /** A comparison that did not run out of bytes compares the same with
      more bytes after them. */
  lemma {:induction false} CompareExtend(s: seq<byte>, t: seq<byte>, p: nat, lit: seq<byte>)
    requires p <= |s| && s <= t && !Compare(s, p, lit).Exhausted?
    ensures Compare(t, p, lit) == Compare(s, p, lit)
    decreases |lit|
  {
    if lit != [] {
      assert t[p] == s[p];
      if s[p] == lit[0] {
        CompareExtend(s, t, p + 1, lit[1..]);
      }
    }
  }

  /** A field read that did not run out of bytes reads the same with more
      bytes after them. */
  lemma FieldExtend(s: seq<byte>, t: seq<byte>, p: nat, tag: seq<byte>)
    requires p <= |s| && s <= t && Field(s, p, tag).result != Err(BufferUnderflow)
    ensures Field(t, p, tag) == Field(s, p, tag)
  {
    CompareExtend(s, t, p, tag);
    if Compare(s, p, tag).Matched? {
      var q := p + |tag|;
      IndexOfExtended(s, t, q, SOH);
      var i := IndexOf(s, q, SOH).value;
      assert t[q..i] == s[q..i];
    }
  }

  /** A header read that did not run out of bytes reads the same with more
      bytes after them. */
  lemma ReadHeaderExtend(s: seq<byte>, t: seq<byte>, p: nat)
    requires p <= |s| && s <= t && ReadHeader(s, p).result != Err(BufferUnderflow)
    ensures ReadHeader(t, p) == ReadHeader(s, p)
  {
    var b := Field(s, p, BEGIN_TAG);
    FieldExtend(s, t, p, BEGIN_TAG);
    if b.result.Ok? {
      FieldExtend(s, t, b.position, LENGTH_TAG);
    }
  }

  /** More bytes after the end change no outcome but Partial: a message,
      a garbled one or a crash is decided by the bytes already there. */
  lemma OldParseExtend(s: seq<byte>, t: seq<byte>, p: nat)
    requires p <= |s| && s <= t && OldParse(s, p).result != Err(PartialMessage)
    ensures OldParse(t, p) == OldParse(s, p)
  {
    var h := ReadHeader(s, p);
    ReadHeaderExtend(s, t, p);
    if h.result.Ok? && h.result.value.length >= 0 {
      AfterHeader(s, p, h.result.value, h.position);
      AfterHeader(t, p, h.result.value, h.position);
      OldBodyExtend(s, t, h.position, h.result.value);
    }
  }

  /** The body and trailer, read without running out of bytes, read the
      same with more bytes after them. */
  lemma OldBodyExtend(s: seq<byte>, t: seq<byte>, q: nat, h: OldHeader)
    requires q <= |s| && s <= t && 0 <= h.length && OldBody(s, q, h).result != Err(PartialMessage)
    ensures OldBody(t, q, h) == OldBody(s, q, h)
  {
    BodyExtend(s, t, q, h.length);
    FieldExtend(s, t, q + h.length, CHECKSUM_TAG);
  }

  lemma BodyExtend(s: seq<byte>, t: seq<byte>, q: nat, n: nat)
    requires q + n <= |s| && s <= t
    ensures GetBytesAt(t, q, n) == GetBytesAt(s, q, n)
  {
    assert t[q..q + n] == s[q..q + n];
  }

  /** A message not yet wholly arrived is Partial: whatever the whole
      stream `t` holds at `p`, the bytes `s` received so far, ending before
      the parse of `t` would, give a PartialMessageException. */
  lemma PrefixPartial(s: seq<byte>, t: seq<byte>, p: nat)
    requires p <= |s| && s <= t && OldParse(t, p).position > |s|
    ensures OldParse(s, p).result == Err(PartialMessage)
  {
    if OldParse(s, p).result != Err(PartialMessage) {
      OldParseExtend(s, t, p);
    }
  }
}
