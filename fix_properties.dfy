/** What `FixSpec` promises about FIX framing: how fields are read, that a
    well-formed message is framed exactly, that a buffer cut short is
    Partial, how garbled input is reported and skipped, and that the parser
    keeps the `MessageParser` contract. */
module FixProperties {
  import opened Bytes
  import opened Buffers
  import opened Parsing
  import opened FixSpec

  /** `x` lies in `s` at `p`. */
  predicate At(s: seq<byte>, p: nat, x: seq<byte>) {
    p + |x| <= |s| && s[p..p + |x|] == x
  }

  /** The buffer ends inside `x`: the bytes from `p` to the limit are a proper
      prefix of `x`. */
  predicate CutIn(s: seq<byte>, p: nat, x: seq<byte>) {
    p <= |s| < p + |x| && s[p..] == x[..|s| - p]
  }

  lemma AtSplit(s: seq<byte>, p: nat, x: seq<byte>, y: seq<byte>)
    requires At(s, p, x + y)
    ensures At(s, p, x) && At(s, p + |x|, y)
  {
    assert s[p..p + |x|] == s[p..p + |x + y|][..|x|];
    assert (x + y)[..|x|] == x;
    assert s[p + |x|..p + |x| + |y|] == s[p..p + |x + y|][|x|..];
    assert (x + y)[|x|..] == y;
  }

  /** `AtSplit`, naming where `y` starts. */
  lemma AtSplitAt(s: seq<byte>, p: nat, x: seq<byte>, y: seq<byte>, r: nat)
    requires At(s, p, x + y) && r == p + |x|
    ensures At(s, p, x) && At(s, r, y) && r + |y| <= |s|
  {
    AtSplit(s, p, x, y);
  }

  /** `CutSplit`, naming where `y` starts. */
  lemma CutSplitAt(s: seq<byte>, p: nat, x: seq<byte>, y: seq<byte>, r: nat)
    requires CutIn(s, p, x + y) && r == p + |x|
    ensures CutIn(s, p, x) || (At(s, p, x) && CutIn(s, r, y))
  {
    CutSplit(s, p, x, y);
  }

  lemma CutSplit(s: seq<byte>, p: nat, x: seq<byte>, y: seq<byte>)
    requires CutIn(s, p, x + y)
    ensures CutIn(s, p, x) || (At(s, p, x) && CutIn(s, p + |x|, y))
  {
    if |s| < p + |x| {
      assert (x + y)[..|s| - p] == x[..|s| - p];
    } else {
      assert s[p..p + |x|] == s[p..][..|x|];
      assert (x + y)[..|s| - p][..|x|] == x;
      assert s[p + |x|..] == s[p..][|x|..];
      assert (x + y)[..|s| - p][|x|..] == y[..|s| - p - |x|];
    }
  }

  /** A field as it is written: the tag, `=`, the value and SOH. */
  function Field(t: Tag, v: seq<byte>): seq<byte> {
    TagPrefix(t) + v + [SOH]
  }

  /** A value the parser accepts between `=` and SOH. */
  predicate Plain(v: seq<byte>) {
    v != [] && SOH !in v
  }

  /** `match` succeeds exactly when the tag follows, and underflows exactly
      when the buffer ends inside the tag; otherwise it is Garbled. */
  lemma MatchTagMeaning(s: seq<byte>, p: nat, t: Tag)
    requires p <= |s|
    ensures MatchTag(s, p, t).result.Ok? <==> At(s, p, TagPrefix(t))
    ensures MatchTag(s, p, t).result == Err(BufferUnderflow) <==> CutIn(s, p, TagPrefix(t))
    ensures MatchTag(s, p, t).result == Err(BufferUnderflow) ==> MatchTag(s, p, t).position == |s|
  {
    var lit := TagPrefix(t);
    CompareMatched(s, p, lit);
    match Compare(s, p, lit)
    case Matched(_) =>
    case Exhausted =>
      CompareExhausted(s, p, lit);
    case Mismatched(q) =>
      CompareMismatched(s, p, lit);
  }

  /** The first byte that differs from the tag is consumed, and `match` reports
      Garbled there. */
  lemma MatchTagMismatch(s: seq<byte>, p: nat, t: Tag, i: nat)
    requires p + i < |s| && i < |TagPrefix(t)|
    requires s[p..p + i] == TagPrefix(t)[..i] && s[p + i] != TagPrefix(t)[i]
    ensures MatchTag(s, p, t) == Step(Err(GarbledMessage(None, None)), p + i + 1)
  {
    CompareFirstDifference(s, p, TagPrefix(t), i);
  }

  /** `value` reads the bytes up to the first SOH, which it consumes; it
      underflows exactly when no SOH is left, and an SOH right away is an
      empty value. */
  lemma ValueMeaning(s: seq<byte>, p: nat, t: Tag)
    requires p <= |s|
    ensures Value(s, p, t).result == Err(BufferUnderflow) <==> SOH !in s[p..]
    ensures p < |s| && s[p] == SOH ==>
              Value(s, p, t) == Step(Err(GarbledMessage(Some(Empty(Label(t))), None)), p + 1)
    ensures Value(s, p, t).result.Ok? ==>
              var v := Value(s, p, t).result.value;
              Plain(v) && At(s, p, v + [SOH]) && Value(s, p, t).position == p + |v| + 1
  {
    match IndexOf(s, p, SOH)
    case None =>
    case Some(i) =>
      assert s[i] == s[p..][i - p];
      if i > p {
        assert s[p..i + 1] == s[p..i] + [SOH];
      }
  }

  /** A value followed by SOH is read whole. */
  lemma ValueAt(s: seq<byte>, p: nat, t: Tag, v: seq<byte>)
    requires At(s, p, v + [SOH]) && Plain(v)
    ensures Value(s, p, t) == Step(Ok(v), p + |v| + 1)
  {
    AtSplit(s, p, v, [SOH]);
    IndexOfUnique(s, p, SOH, p + |v|);
  }

  /** A value that the buffer cuts short underflows. */
  lemma ValueCut(s: seq<byte>, p: nat, t: Tag, v: seq<byte>)
    requires CutIn(s, p, v + [SOH]) && SOH !in v
    ensures Value(s, p, t).result == Err(BufferUnderflow) && Value(s, p, t).position == |s|
  {
    assert s[p..] == v[..|s| - p];
    ValueMeaning(s, p, t);
  }

  /** A field written in full is read whole. */
  lemma FieldAt(s: seq<byte>, p: nat, t: Tag, v: seq<byte>)
    requires At(s, p, Field(t, v)) && Plain(v)
    ensures ParseField(s, p, t) == Step(Ok(v), p + |Field(t, v)|)
  {
    assert Field(t, v) == TagPrefix(t) + (v + [SOH]);
    AtSplit(s, p, TagPrefix(t), v + [SOH]);
    MatchTagMeaning(s, p, t);
    ValueAt(s, p + |TagPrefix(t)|, t, v);
  }

  /** A field that the buffer cuts short underflows. */
  lemma FieldCut(s: seq<byte>, p: nat, t: Tag, v: seq<byte>)
    requires CutIn(s, p, Field(t, v)) && SOH !in v
    ensures ParseField(s, p, t).result == Err(BufferUnderflow) && ParseField(s, p, t).position == |s|
  {
    assert Field(t, v) == TagPrefix(t) + (v + [SOH]);
    CutSplit(s, p, TagPrefix(t), v + [SOH]);
    MatchTagMeaning(s, p, t);
    if !CutIn(s, p, TagPrefix(t)) {
      ValueCut(s, p + |TagPrefix(t)|, t, v);
    }
  }

  /** `isBeginStringValid` accepts exactly `FIX.` with digits at offsets 4 and
      6, and throws only for `FIX.` followed by nothing, or by a digit and at
      most one more byte. */
  lemma BeginStringValidity(v: seq<byte>)
    ensures IsBeginStringValid(v) == Ok(true) <==>
              FixPrefix(v) && |v| > 6 && IsDigit(v[4]) && IsDigit(v[6])
    ensures IsBeginStringValid(v).Err? <==>
              FixPrefix(v) && (|v| == 4 || (|v| <= 6 && IsDigit(v[4])))
  {
  }

  /** A field that is read ends with its SOH, after at least one value byte. */
  lemma FieldEnds(s: seq<byte>, p: nat, t: Tag)
    requires p <= |s| && ParseField(s, p, t).result.Ok?
    ensures s[ParseField(s, p, t).position - 1] == SOH
  {
    MatchTagMeaning(s, p, t);
    ValueMeaning(s, p + |TagPrefix(t)|, t);
    var f := ParseField(s, p, t);
    assert s[f.position - 1] == s[p + |TagPrefix(t)|..f.position][f.position - 1 - (p + |TagPrefix(t)|)];
  }

  /** A header that is read ends with the SOH of BodyLength, at least six
      bytes after where it began. */
  lemma HeaderEnds(s: seq<byte>, p: nat)
    requires p <= |s| <= INT_MAX && ParseHeader(s, p).result.Ok?
    ensures p + 6 <= ParseHeader(s, p).result.value.bodyStart
    ensures s[ParseHeader(s, p).result.value.bodyStart - 1] == SOH
  {
    var b := ParseField(s, p, BeginString);
    FieldEnds(s, b.position, BodyLength);
  }

  /** A header reported Garbled has consumed at least the byte it objects to. */
  lemma HeaderGarbledAdvances(s: seq<byte>, p: nat)
    requires p <= |s| <= INT_MAX
    requires ParseHeader(s, p).result.Err? && ParseHeader(s, p).result.thrown.GarbledMessage?
    ensures p < ParseHeader(s, p).position
  {
    var b := ParseField(s, p, BeginString);
    var m := MatchTag(s, p, BeginString);
    if m.result.Err? {
      assert b.position == m.position;
    }
  }

  /** A header that throws anything but GarbledMessageException ends the
      parse there, with the mark in place. */
  lemma HeaderThrows(s: seq<byte>, m: nat)
    requires m <= |s| <= INT_MAX
    requires ParseHeader(s, m).result.Err? && !ParseHeader(s, m).result.thrown.GarbledMessage?
    ensures FixParse(View(s, m)) ==
              Parse(Lift(Err(ParseHeader(s, m).result.thrown), data => Message(data)), ParseHeader(s, m).position, m)
  {
  }

  /** Resynchronising after a header reported Garbled at `pos`: the data is
      every byte from the mark to where the scan for SOH `8=` stops, and the
      position is left there. */
  lemma HeaderGarbledAt(s: seq<byte>, m: nat, text: Option<Complaint>, pos: nat)
    requires m <= |s| <= INT_MAX && ParseHeader(s, m) == Step(Err(GarbledMessage(text, None)), pos)
    ensures var r := NextMessagePosition(s, pos);
            m < r && FixParse(View(s, m)) == Parse(Garbled(text, Some(s[m..r])), r, m)
  {
    HeaderGarbledAdvances(s, m);
    var r := NextMessagePosition(s, pos);
    OnParseGarbled(s, m, text, pos);
    OnParseEnds(s, m, Err(GarbledMessage(text, Some(s[m..r]))), r, m);
  }

  /** The `onParse` step of `HeaderGarbledAt`. */
  lemma OnParseGarbled(s: seq<byte>, m: nat, text: Option<Complaint>, pos: nat)
    requires m < pos <= |s| <= INT_MAX && ParseHeader(s, m) == Step(Err(GarbledMessage(text, None)), pos)
    ensures var r := NextMessagePosition(s, pos);
            OnParse(s, m) == Exit(Err(GarbledMessage(text, Some(s[m..r]))), r, m)
  {
    assert OnParse(s, m) == Resynchronise(s, text, pos, m);
  }

  /** What `onParse` returns is what the parse reports. */
  lemma OnParseEnds(s: seq<byte>, m: nat, result: Result<seq<byte>>, pos: nat, mark: int)
    requires m <= |s| <= INT_MAX && OnParse(s, m) == Exit(result, pos, mark)
    ensures FixParse(View(s, m)) == Parse(Lift(result, data => Message(data)), pos, mark)
  {
  }

  /** A field whose tag differs at offset `i` is Garbled after that byte. */
  lemma FieldTagMismatch(s: seq<byte>, p: nat, t: Tag, i: nat)
    requires p + i < |s| && i < |TagPrefix(t)|
    requires s[p..p + i] == TagPrefix(t)[..i] && s[p + i] != TagPrefix(t)[i]
    ensures ParseField(s, p, t) == Step(Err(GarbledMessage(None, None)), p + i + 1)
  {
    MatchTagMismatch(s, p, t, i);
  }

  /** A buffer that does not start with `8=` makes the header Garbled from
      the first byte that differs. */
  lemma NotBeginString(s: seq<byte>, m: nat, i: nat)
    requires m + i < |s| <= INT_MAX && i < |TagPrefix(BeginString)|
    requires s[m..m + i] == TagPrefix(BeginString)[..i] && s[m + i] != TagPrefix(BeginString)[i]
    ensures ParseHeader(s, m) == Step(Err(GarbledMessage(None, None)), m + i + 1)
  {
    FieldTagMismatch(s, m, BeginString, i);
  }

  /** An empty BeginString makes the header Garbled with
      "BeginString(8) is empty". */
  lemma EmptyBeginString(s: seq<byte>, m: nat)
    requires |s| <= INT_MAX && At(s, m, TagPrefix(BeginString) + [SOH])
    ensures ParseHeader(s, m) == Step(Err(GarbledMessage(Some(Empty(Label(BeginString))), None)), m + 3)
  {
    EmptyValueField(s, m, BeginString);
  }

  /** A BeginString that is not `FIX.m.n` makes the header Garbled with the
      offending value, just after its field. */
  lemma InvalidBeginStringGarbled(s: seq<byte>, m: nat, v: seq<byte>)
    requires |s| <= INT_MAX && At(s, m, Field(BeginString, v)) && Plain(v)
    requires IsBeginStringValid(v) == Ok(false)
    ensures ParseHeader(s, m) ==
              Step(Err(GarbledMessage(Some(InvalidBeginString(v)), None)), m + |Field(BeginString, v)|)
  {
    FieldAt(s, m, BeginString, v);
  }

  /** A BeginString so short that `isBeginStringValid` indexes past its end
      (`FIX.` or `FIX.4`, say) escapes as StringIndexOutOfBoundsException
      instead of being reported Garbled. */
  lemma ShortBeginStringCrashes(s: seq<byte>, m: nat, v: seq<byte>)
    requires |s| <= INT_MAX && At(s, m, Field(BeginString, v)) && Plain(v)
    requires FixPrefix(v) && (|v| == 4 || (|v| <= 6 && IsDigit(v[4])))
    ensures FixParse(View(s, m)).outcome == Crash(Unchecked(StringIndexOutOfBoundsException))
  {
    FieldAt(s, m, BeginString, v);
    var q := m + |Field(BeginString, v)|;
    assert ParseHeader(s, m) == Step(Err(Unchecked(StringIndexOutOfBoundsException)), q);
    HeaderThrows(s, m);
  }

  /** After a valid BeginString field ending at `q`, a tag other than `9=`
      makes the header Garbled from the first byte that differs; with
      `HeaderGarbledAt` the parse reports it. */
  lemma NotBodyLength(s: seq<byte>, m: nat, v: seq<byte>, q: nat, i: nat)
    requires |s| <= INT_MAX && Plain(v) && IsBeginStringValid(v) == Ok(true)
    requires At(s, m, Field(BeginString, v)) && q == m + |Field(BeginString, v)|
    requires q + i < |s| && i < |TagPrefix(BodyLength)|
    requires s[q..q + i] == TagPrefix(BodyLength)[..i] && s[q + i] != TagPrefix(BodyLength)[i]
    ensures ParseHeader(s, m) == Step(Err(GarbledMessage(None, None)), q + i + 1)
  {
    FieldAt(s, m, BeginString, v);
    FieldTagMismatch(s, q, BodyLength, i);
    HeaderBodyLengthThrows(s, m, v, q, GarbledMessage(None, None), q + i + 1);
  }

  /** After a valid BeginString field ending at `q`, an empty BodyLength makes
      the header Garbled with "BodyLength(9) is empty". */
  lemma EmptyBodyLength(s: seq<byte>, m: nat, v: seq<byte>, q: nat)
    requires |s| <= INT_MAX && Plain(v) && IsBeginStringValid(v) == Ok(true)
    requires At(s, m, Field(BeginString, v)) && q == m + |Field(BeginString, v)|
    requires At(s, q, TagPrefix(BodyLength) + [SOH])
    ensures ParseHeader(s, m) == Step(Err(GarbledMessage(Some(Empty(Label(BodyLength))), None)), q + 3)
  {
    FieldAt(s, m, BeginString, v);
    EmptyValueField(s, q, BodyLength);
    HeaderBodyLengthThrows(s, m, v, q, GarbledMessage(Some(Empty(Label(BodyLength))), None), q + 3);
  }

  /** A field whose value is empty is Garbled, naming its tag. */
  lemma EmptyValueField(s: seq<byte>, p: nat, t: Tag)
    requires At(s, p, TagPrefix(t) + [SOH])
    ensures ParseField(s, p, t) ==
              Step(Err(GarbledMessage(Some(Empty(Label(t))), None)), p + |TagPrefix(t)| + 1)
  {
    AtSplitAt(s, p, TagPrefix(t), [SOH], p + |TagPrefix(t)|);
    MatchTagMeaning(s, p, t);
    ValueMeaning(s, p + |TagPrefix(t)|, t);
  }

  /** After a valid BeginString field ending at `q`, a BodyLength that
      `Integer.parseInt` rejects escapes as NumberFormatException: `onParse`
      catches only GarbledMessageException. */
  lemma BodyLengthNotANumber(s: seq<byte>, m: nat, v: seq<byte>, q: nat, w: seq<byte>)
    requires |s| <= INT_MAX && Plain(v) && IsBeginStringValid(v) == Ok(true) && Plain(w)
    requires At(s, m, Field(BeginString, v)) && q == m + |Field(BeginString, v)|
    requires At(s, q, Field(BodyLength, w)) && ParseInt(w) == None
    ensures FixParse(View(s, m)).outcome == Crash(Unchecked(NumberFormatException))
  {
    FieldAt(s, m, BeginString, v);
    FieldAt(s, q, BodyLength, w);
    HeaderAfterBeginString(s, m, v, q);
    assert BodyLengthField(s, m, q) == Step(Err(Unchecked(NumberFormatException)), q + |Field(BodyLength, w)|);
    HeaderThrows(s, m);
  }

  /** A FIX message as it is framed: BeginString, BodyLength giving the
      length of the body in decimal, the body, and CheckSum. */
  function Frame(beginString: seq<byte>, body: seq<byte>, checkSum: seq<byte>): seq<byte> {
    Field(BeginString, beginString) + Field(BodyLength, Decimal(|body|)) + body + Field(CheckSum, checkSum)
  }

  /** The fields of a frame as the parser wants them: a valid BeginString and
      non-empty values without SOH. The body may hold anything. */
  predicate WellFormed(beginString: seq<byte>, body: seq<byte>, checkSum: seq<byte>) {
    IsBeginStringValid(beginString) == Ok(true) && SOH !in beginString && Plain(checkSum)
  }

  lemma DecimalPlain(n: nat)
    ensures Plain(Decimal(n))
  {
  }

  /** A header read as a valid BeginString `v` up to `q`, then a BodyLength
      `w` up to `e` that is the number `n`. */
  lemma HeaderRead(s: seq<byte>, p: nat, v: seq<byte>, q: nat, w: seq<byte>, e: nat, n: int)
    requires p <= q <= |s| <= INT_MAX
    requires ParseField(s, p, BeginString) == Step(Ok(v), q) && IsBeginStringValid(v) == Ok(true)
    requires ParseField(s, q, BodyLength) == Step(Ok(w), e) && ParseInt(w) == Some(n)
    ensures ParseHeader(s, p) == Step(Ok(Header(e - p, n, e)), e)
  {
    BodyLengthRead(s, p, q, w, e, n);
    HeaderAfterBeginString(s, p, v, q);
  }

  /** After a valid BeginString read up to `q`, a BodyLength field that
      throws makes the header throw the same. */
  lemma HeaderBodyLengthThrows(s: seq<byte>, p: nat, v: seq<byte>, q: nat, x: Thrown, pos: nat)
    requires p <= q <= |s| <= INT_MAX
    requires ParseField(s, p, BeginString) == Step(Ok(v), q) && IsBeginStringValid(v) == Ok(true)
    requires ParseField(s, q, BodyLength) == Step(Err(x), pos)
    ensures ParseHeader(s, p) == Step(Err(x), pos)
  {
    HeaderAfterBeginString(s, p, v, q);
  }

  lemma BodyLengthRead(s: seq<byte>, p: nat, q: nat, w: seq<byte>, e: nat, n: int)
    requires p <= q <= |s| <= INT_MAX
    requires ParseField(s, q, BodyLength) == Step(Ok(w), e) && ParseInt(w) == Some(n)
    ensures BodyLengthField(s, p, q) == Step(Ok(Header(e - p, n, e)), e)
  {
  }

  lemma HeaderAfterBeginString(s: seq<byte>, p: nat, v: seq<byte>, q: nat)
    requires p <= q <= |s| <= INT_MAX
    requires ParseField(s, p, BeginString) == Step(Ok(v), q) && IsBeginStringValid(v) == Ok(true)
    ensures ParseHeader(s, p) == BodyLengthField(s, p, q)
  {
  }

  /** The header of a frame: a valid BeginString ending at `q`, then the body
      length `n` in decimal ending at `e`. */
  lemma FrameHeader(s: seq<byte>, m: nat, beginString: seq<byte>, n: nat, q: nat, e: nat)
    requires |s| <= INT_MAX && n <= INT_MAX
    requires IsBeginStringValid(beginString) == Ok(true) && SOH !in beginString
    requires q == m + |Field(BeginString, beginString)| && e == q + |Field(BodyLength, Decimal(n))|
    requires At(s, m, Field(BeginString, beginString)) && At(s, q, Field(BodyLength, Decimal(n)))
    ensures ParseHeader(s, m) == Step(Ok(Header(e - m, n, e)), e)
  {
    DecimalPlain(n);
    FieldAt(s, q, BodyLength, Decimal(n));
    FieldAt(s, m, BeginString, beginString);
    ParseIntDecimal(n);
    HeaderRead(s, m, beginString, q, Decimal(n), e, n);
  }

  /** Where the parts of a frame at `m` start: BeginString at `m`, BodyLength
      at `q`, the body at `e`, CheckSum at `t`; it ends at `end`. */
  predicate Layout(m: nat, beginString: seq<byte>, body: seq<byte>, checkSum: seq<byte>,
                   q: nat, e: nat, t: nat, end: nat) {
    && q == m + |Field(BeginString, beginString)|
    && e == q + |Field(BodyLength, Decimal(|body|))|
    && t == e + |body|
    && end == t + |Field(CheckSum, checkSum)|
  }

  lemma LayoutEnd(m: nat, beginString: seq<byte>, body: seq<byte>, checkSum: seq<byte>,
                  q: nat, e: nat, t: nat, end: nat)
    requires Layout(m, beginString, body, checkSum, q, e, t, end)
    ensures end == m + |Frame(beginString, body, checkSum)|
  {
  }

  /** A frame that lies in the buffer lies there part by part. */
  lemma FrameParts(s: seq<byte>, m: nat, beginString: seq<byte>, body: seq<byte>, checkSum: seq<byte>,
                   q: nat, e: nat, t: nat, end: nat)
    requires Layout(m, beginString, body, checkSum, q, e, t, end)
    requires At(s, m, Frame(beginString, body, checkSum))
    ensures At(s, m, Field(BeginString, beginString)) && At(s, q, Field(BodyLength, Decimal(|body|)))
    ensures At(s, t, Field(CheckSum, checkSum)) && end <= |s|
  {
    var f1, f2, f3 := Field(BeginString, beginString), Field(BodyLength, Decimal(|body|)), Field(CheckSum, checkSum);
    AtSplitAt(s, m, f1 + f2 + body, f3, t);
    AtSplitAt(s, m, f1 + f2, body, e);
    AtSplitAt(s, m, f1, f2, q);
  }

  /** A frame that the buffer cuts short is cut in one of its parts, after
      the parts before it. */
  lemma FrameCutParts(s: seq<byte>, m: nat, beginString: seq<byte>, body: seq<byte>, checkSum: seq<byte>,
                      q: nat, e: nat, t: nat, end: nat)
    requires Layout(m, beginString, body, checkSum, q, e, t, end)
    requires CutIn(s, m, Frame(beginString, body, checkSum))
    ensures || CutIn(s, m, Field(BeginString, beginString))
            || (At(s, m, Field(BeginString, beginString)) && CutIn(s, q, Field(BodyLength, Decimal(|body|))))
            || (At(s, m, Field(BeginString, beginString)) && At(s, q, Field(BodyLength, Decimal(|body|))) &&
                |s| < t)
            || (At(s, m, Field(BeginString, beginString)) && At(s, q, Field(BodyLength, Decimal(|body|))) &&
                CutIn(s, t, Field(CheckSum, checkSum)))
  {
    var f1, f2, f3 := Field(BeginString, beginString), Field(BodyLength, Decimal(|body|)), Field(CheckSum, checkSum);
    CutSplitAt(s, m, f1 + f2 + body, f3, t);
    if CutIn(s, m, f1 + f2 + body) {
      CutSplitAt(s, m, f1 + f2, body, e);
      if CutIn(s, m, f1 + f2) {
        CutSplitAt(s, m, f1, f2, q);
      } else {
        AtSplitAt(s, m, f1, f2, q);
      }
    } else {
      AtSplitAt(s, m, f1 + f2, body, e);
      AtSplitAt(s, m, f1, f2, q);
    }
  }

  /** The trailer of a header `h` read at the mark `m`, when a CheckSum
      field runs from `t`, BodyLength bytes after the body's start, to `end`. */
  lemma TrailerRead(s: seq<byte>, m: nat, h: Header, t: nat, end: nat)
    requires m <= h.bodyStart <= t <= end <= |s| <= INT_MAX && t == h.bodyStart + h.bodyLength
    requires IsInt(h.bodyLength)
    requires ParseField(s, t, CheckSum).result.Ok? && ParseField(s, t, CheckSum).position == end
    ensures Trailer(s, h, m) == Moved(Step(Ok(end - t), end), m)
  {
  }

  /** With the trailer read up to `end`, the message is every byte from the
      mark to `end`. */
  lemma MessageRead(s: seq<byte>, m: nat, h: Header, t: nat, end: nat)
    requires m <= h.bodyStart <= t <= end <= |s| <= INT_MAX
    requires h.headerLength == h.bodyStart - m && t == h.bodyStart + h.bodyLength
    requires Trailer(s, h, m) == Moved(Step(Ok(end - t), end), m)
    ensures AfterHeader(s, m, h) == Exit(Ok(s[m..end]), end, m)
  {
  }

  /** The parse of a header `h` read from the mark `m`, then the rest. */
  lemma AfterHeaderParse(s: seq<byte>, m: nat, h: Header)
    requires m <= h.bodyStart <= |s| <= INT_MAX && IsInt(h.headerLength) && IsInt(h.bodyLength)
    requires ParseHeader(s, m) == Step(Ok(h), h.bodyStart)
    ensures var e := AfterHeader(s, m, h);
            FixParse(View(s, m)) == Parse(Lift(e.result, data => Message(data)), e.position, e.mark)
  {
  }

  /** After the header of a frame, the body and a CheckSum field from `t` to
      `end`: the message is every byte from the mark to `end`. */
  lemma ParsedAfterHeader(s: seq<byte>, m: nat, checkSum: seq<byte>, n: nat, e: nat, t: nat, end: nat)
    requires m <= e && t == e + n && end == t + |Field(CheckSum, checkSum)| && end <= |s| <= INT_MAX
    requires ParseHeader(s, m) == Step(Ok(Header(e - m, n, e)), e)
    requires At(s, t, Field(CheckSum, checkSum)) && Plain(checkSum)
    ensures FixParse(View(s, m)) == Parse(Parsed(Message(s[m..end])), end, m)
  {
    var h := Header(e - m, n, e);
    FieldAt(s, t, CheckSum, checkSum);
    TrailerRead(s, m, h, t, end);
    MessageRead(s, m, h, t, end);
    AfterHeaderParse(s, m, h);
  }

  /** A well-formed frame at the mark is parsed into a message holding exactly
      its bytes, and the position is left just after its last SOH, where the
      next message starts. */
  lemma FrameParsed(s: seq<byte>, m: nat, beginString: seq<byte>, body: seq<byte>, checkSum: seq<byte>)
    requires |s| <= INT_MAX && WellFormed(beginString, body, checkSum)
    requires At(s, m, Frame(beginString, body, checkSum))
    ensures FixParse(View(s, m)) ==
              Parse(Parsed(Message(Frame(beginString, body, checkSum))), m + |Frame(beginString, body, checkSum)|, m)
  {
    var f := Frame(beginString, body, checkSum);
    var end := m + |f|;
    var q := m + |Field(BeginString, beginString)|;
    var e := q + |Field(BodyLength, Decimal(|body|))|;
    var t := e + |body|;
    LayoutEnd(m, beginString, body, checkSum, q, e, t, t + |Field(CheckSum, checkSum)|);
    assert s[m..end] == f;
    FrameParts(s, m, beginString, body, checkSum, q, e, t, end);
    FrameHeader(s, m, beginString, |body|, q, e);
    ParsedAfterHeader(s, m, checkSum, |body|, e, t, end);
  }

  /** A header that underflows makes the parse Partial, with the mark kept. */
  lemma HeaderUnderflowPartial(s: seq<byte>, m: nat)
    requires m <= |s| <= INT_MAX && ParseHeader(s, m).result == Err(BufferUnderflow)
    ensures FixParse(View(s, m)).outcome == Partial && FixParse(View(s, m)).mark == m
  {
    HeaderThrows(s, m);
  }

  /** After a valid BeginString field ending at `q`, a BodyLength field that
      the buffer cuts short makes the parse Partial, with the mark kept. */
  lemma BodyLengthCutPartial(s: seq<byte>, m: nat, v: seq<byte>, q: nat, w: seq<byte>)
    requires |s| <= INT_MAX && Plain(v) && IsBeginStringValid(v) == Ok(true) && SOH !in w
    requires At(s, m, Field(BeginString, v)) && q == m + |Field(BeginString, v)|
    requires CutIn(s, q, Field(BodyLength, w))
    ensures FixParse(View(s, m)).outcome == Partial && FixParse(View(s, m)).mark == m
  {
    FieldAt(s, m, BeginString, v);
    FieldCut(s, q, BodyLength, w);
    HeaderBodyLengthThrows(s, m, v, q, BufferUnderflow, |s|);
    HeaderUnderflowPartial(s, m);
  }

  /** A body that runs past the limit makes the parse Partial, with the mark
      kept. */
  lemma BodyCutPartial(s: seq<byte>, m: nat, n: nat, e: nat)
    requires m <= e <= |s| && e + n <= INT_MAX && |s| < e + n
    requires ParseHeader(s, m) == Step(Ok(Header(e - m, n, e)), e)
    ensures FixParse(View(s, m)).outcome == Partial && FixParse(View(s, m)).mark == m
  {
    assert Trailer(s, Header(e - m, n, e), m) == Moved(Step(Err(PartialMessage), e), m);
  }

  /** A CheckSum field that the buffer cuts short makes the parse Partial,
      with the mark kept. */
  lemma CheckSumCutPartial(s: seq<byte>, m: nat, checkSum: seq<byte>, n: nat, e: nat, t: nat)
    requires m <= e && t == e + n && t <= |s| <= INT_MAX
    requires ParseHeader(s, m) == Step(Ok(Header(e - m, n, e)), e)
    requires CutIn(s, t, Field(CheckSum, checkSum)) && SOH !in checkSum
    ensures FixParse(View(s, m)).outcome == Partial && FixParse(View(s, m)).mark == m
  {
    TrailerCut(s, m, Header(e - m, n, e), t, checkSum);
    TrailerThrows(s, m, Header(e - m, n, e), BufferUnderflow, |s|);
  }

  /** A CheckSum field cut short at `t` makes the trailer underflow, the mark
      kept. */
  lemma TrailerCut(s: seq<byte>, m: nat, h: Header, t: nat, checkSum: seq<byte>)
    requires m <= h.bodyStart <= t <= |s| <= INT_MAX && t == h.bodyStart + h.bodyLength && IsInt(h.bodyLength)
    requires CutIn(s, t, Field(CheckSum, checkSum)) && SOH !in checkSum
    ensures Trailer(s, h, m) == Moved(Step(Err(BufferUnderflow), |s|), m)
  {
    FieldCut(s, t, CheckSum, checkSum);
  }

  /** A trailer that throws `x`, other than GarbledMessageException, ends the
      parse where it stopped, the mark kept. */
  lemma TrailerThrows(s: seq<byte>, m: nat, h: Header, x: Thrown, pos: nat)
    requires m <= h.bodyStart <= |s| <= INT_MAX && IsInt(h.headerLength) && IsInt(h.bodyLength)
    requires ParseHeader(s, m) == Step(Ok(h), h.bodyStart) && !x.GarbledMessage?
    requires Trailer(s, h, m) == Moved(Step(Err(x), pos), m)
    ensures FixParse(View(s, m)) == Parse(Lift(Err(x), data => Message(data)), pos, m)
  {
    AfterHeaderParse(s, m, h);
  }

  /** A well-formed frame that the buffer cuts short, anywhere, is Partial,
      with the mark still at its start so that the caller can read more and
      retry; provided the whole frame would fit within the `int` range. */
  lemma FrameCutPartial(s: seq<byte>, m: nat, beginString: seq<byte>, body: seq<byte>, checkSum: seq<byte>)
    requires WellFormed(beginString, body, checkSum)
    requires m + |Frame(beginString, body, checkSum)| <= INT_MAX
    requires CutIn(s, m, Frame(beginString, body, checkSum))
    ensures FixParse(View(s, m)).outcome == Partial && FixParse(View(s, m)).mark == m
  {
    var q := m + |Field(BeginString, beginString)|;
    var e := q + |Field(BodyLength, Decimal(|body|))|;
    var t := e + |body|;
    var end := t + |Field(CheckSum, checkSum)|;
    LayoutEnd(m, beginString, body, checkSum, q, e, t, end);
    FrameCutParts(s, m, beginString, body, checkSum, q, e, t, end);
    DecimalPlain(|body|);
    if CutIn(s, m, Field(BeginString, beginString)) {
      FieldCut(s, m, BeginString, beginString);
      HeaderUnderflowPartial(s, m);
    } else if CutIn(s, q, Field(BodyLength, Decimal(|body|))) {
      BodyLengthCutPartial(s, m, beginString, q, Decimal(|body|));
    } else {
      FrameHeader(s, m, beginString, |body|, q, e);
      if |s| < t {
        BodyCutPartial(s, m, |body|, e);
      } else {
        CheckSumCutPartial(s, m, checkSum, |body|, e, t);
      }
    }
  }


  /** Every way `parseField` fails is an underflow or a Garbled report. */
  lemma FieldFails(s: seq<byte>, p: nat, t: Tag)
    requires p <= |s|
    ensures ParseField(s, p, t).result.Err? ==>
              ParseField(s, p, t).result == Err(BufferUnderflow) ||
              ParseField(s, p, t).result.thrown.GarbledMessage?
  {
  }

  /** A field with an SOH after where its tag would end cannot underflow: the
      whole tag is there to compare, and the value stops at that SOH. */
  lemma FieldBeforeSoh(s: seq<byte>, p: nat, t: Tag, k: nat)
    requires p + |TagPrefix(t)| <= k < |s| && s[k] == SOH
    ensures ParseField(s, p, t).result != Err(BufferUnderflow)
  {
    MatchTagMeaning(s, p, t);
    var mt := MatchTag(s, p, t);
    if mt.result.Ok? {
      ValueMeaning(s, mt.position, t);
      assert s[k] == s[mt.position..][k - mt.position];
    }
  }

  /** After a header read from the mark `m`, the trailer keeps the mark unless
      the body length sends the trailer before it, and then the CheckSum
      field, which finds the header's last SOH, is read or Garbled; a trailer
      read with the mark kept starts `bodyLength` bytes after the body, at or
      after the mark, with no `int` wrap-around. */
  lemma TrailerSettles(s: seq<byte>, m: nat, h: Header)
    requires m + 6 <= h.bodyStart <= |s| <= INT_MAX && IsInt(h.bodyLength) && s[h.bodyStart - 1] == SOH
    ensures var tr := Trailer(s, h, m);
            && (tr.step.result.Ok? && tr.mark == m ==>
                  m <= h.bodyStart + h.bodyLength &&
                  tr.step.position == h.bodyStart + h.bodyLength + tr.step.result.value)
            && (tr.mark != m ==> tr.step.result.Ok? || tr.step.result.thrown.GarbledMessage?)
  {
    var ts := AddInt(h.bodyStart, h.bodyLength);
    if 0 <= ts <= |s| {
      assert ts == h.bodyStart + h.bodyLength;
      if ts < m {
        FieldBeforeSoh(s, ts, CheckSum, h.bodyStart - 1);
        FieldFails(s, ts, CheckSum);
      }
    }
  }

  /** How `onParse` may end so that the parser keeps its contract: a message
      or a Garbled report covers the bytes from the mark to a position past
      it, and only an unchecked exception leaves the mark moved. */
  predicate Settles(s: seq<byte>, m: nat, e: Exit)
    requires m <= |s| && e.position <= |s|
  {
    && (e.result.Ok? ==> e.mark == m && m < e.position && e.result.value == s[m..e.position])
    && (e.result.Err? && e.result.thrown.GarbledMessage? ==>
          e.mark == m && m < e.position && e.result.thrown.data == Some(s[m..e.position]))
    && (e.result == Err(BufferUnderflow) || e.result == Err(PartialMessage) ==> e.mark == m)
  }

  /** The rest of `onParse` after a header settles. */
  lemma AfterHeaderSettles(s: seq<byte>, m: nat, h: Header)
    requires m + 6 <= h.bodyStart <= |s| <= INT_MAX && s[h.bodyStart - 1] == SOH
    requires IsInt(h.bodyLength) && h.headerLength == h.bodyStart - m
    ensures Settles(s, m, AfterHeader(s, m, h))
  {
    TrailerSettles(s, m, h);
    var tr := Trailer(s, h, m);
    if tr.step.result.Ok? && tr.mark == m {
      var ts := h.bodyStart + h.bodyLength;
      assert AddInt(h.headerLength, h.bodyLength) == ts - m;
      assert AddInt(ts - m, tr.step.result.value) == tr.step.position - m;
    }
  }

  /** `onParse` settles on every buffer. */
  lemma OnParseSettles(s: seq<byte>, m: nat)
    requires m <= |s| <= INT_MAX
    ensures Settles(s, m, OnParse(s, m))
  {
    var hd := ParseHeader(s, m);
    if hd.result.Ok? {
      HeaderEnds(s, m);
      AfterHeaderSettles(s, m, hd.result.value);
    } else if hd.result.thrown.GarbledMessage? {
      HeaderGarbledAdvances(s, m);
    }
  }

  /** The FIX parser keeps the parser contract on every buffer: it leaves the
      mark where it was unless an unchecked exception escapes, a message or
      Garbled report moves the position past the mark, and it carries
      exactly the bytes passed over. */
  lemma FixParseKeepsContract()
    ensures Honours(FixParse) && Advances(FixParse) && Spans(FixParse)
  {
    forall v: View | v.Valid()
      ensures Obeys(v, FixParse(v))
      ensures FixParse(v).outcome.Parsed? || FixParse(v).outcome.Garbled? ==> FixParse(v).position > v.position
      ensures FixParse(v).outcome.Parsed? ==>
                v.position <= FixParse(v).position &&
                FixParse(v).outcome.message.payload == v.bytes[v.position..FixParse(v).position]
      ensures FixParse(v).outcome.Garbled? ==>
                v.position <= FixParse(v).position &&
                FixParse(v).outcome.data == Some(v.bytes[v.position..FixParse(v).position])
    {
      OnParseSettles(v.bytes, v.position);
    }
  }

  /** A CheckSum field that is not there or is empty, where the body length
      says the trailer starts, makes the parse Garbled: the data runs from
      the mark to where the scan for SOH `8=`, started at the body, stops. */
  lemma TrailerGarbled(s: seq<byte>, m: nat, h: Header, text: Option<Complaint>)
    requires m <= h.bodyStart <= |s| <= INT_MAX && IsInt(h.headerLength) && IsInt(h.bodyLength)
    requires ParseHeader(s, m) == Step(Ok(h), h.bodyStart)
    requires m <= h.bodyStart + h.bodyLength <= |s|
    requires ParseField(s, h.bodyStart + h.bodyLength, CheckSum).result == Err(GarbledMessage(text, None))
    ensures var r := NextMessagePosition(s, h.bodyStart);
            FixParse(View(s, m)) == Parse(Garbled(text, Some(s[m..r])), r, m)
  {
    CheckSumGarbled(s, m, h, text);
    var r := NextMessagePosition(s, h.bodyStart);
    AfterHeaderResynchronises(s, m, h, text);
    AfterHeaderEnds(s, m, h, Err(GarbledMessage(text, Some(s[m..r]))), r);
  }

  /** A trailer Garbled at the body's start, with the mark kept, sends
      `onParse` to resynchronise from there. */
  lemma AfterHeaderResynchronises(s: seq<byte>, m: nat, h: Header, text: Option<Complaint>)
    requires m <= h.bodyStart <= |s| <= INT_MAX && IsInt(h.headerLength) && IsInt(h.bodyLength)
    requires Trailer(s, h, m) == Moved(Step(Err(GarbledMessage(text, None)), h.bodyStart), m)
    ensures var r := NextMessagePosition(s, h.bodyStart);
            AfterHeader(s, m, h) == Exit(Err(GarbledMessage(text, Some(s[m..r]))), r, m)
  {
  }

  /** What `onParse` does after the header `h` is what the parse reports. */
  lemma AfterHeaderEnds(s: seq<byte>, m: nat, h: Header, result: Result<seq<byte>>, pos: nat)
    requires m <= h.bodyStart <= |s| <= INT_MAX && IsInt(h.headerLength) && IsInt(h.bodyLength)
    requires ParseHeader(s, m) == Step(Ok(h), h.bodyStart)
    requires AfterHeader(s, m, h) == Exit(result, pos, m)
    ensures FixParse(View(s, m)) == Parse(Lift(result, data => Message(data)), pos, m)
  {
    AfterHeaderParse(s, m, h);
  }

  /** The trailer step of `TrailerGarbled`. */
  lemma CheckSumGarbled(s: seq<byte>, m: nat, h: Header, text: Option<Complaint>)
    requires m <= h.bodyStart <= |s| <= INT_MAX && IsInt(h.bodyLength)
    requires m <= h.bodyStart + h.bodyLength <= |s|
    requires ParseField(s, h.bodyStart + h.bodyLength, CheckSum).result == Err(GarbledMessage(text, None))
    ensures Trailer(s, h, m) == Moved(Step(Err(GarbledMessage(text, None)), h.bodyStart), m)
  {
  }

  /** A body length that sends the trailer's start outside `0..INT_MAX`
      (the `int` sum wraps) makes `position` throw IllegalArgumentException,
      which escapes the parser. */
  lemma BodyLengthOverflowCrashes(s: seq<byte>, m: nat, h: Header)
    requires m <= h.bodyStart <= |s| <= INT_MAX && IsInt(h.headerLength) && IsInt(h.bodyLength)
    requires ParseHeader(s, m) == Step(Ok(h), h.bodyStart)
    requires h.bodyStart + h.bodyLength > INT_MAX || h.bodyStart + h.bodyLength < 0
    ensures FixParse(View(s, m)) == Parse(Crash(Unchecked(IllegalArgumentException)), h.bodyStart, m)
  {
    assert Trailer(s, h, m) == Moved(Step(Err(Unchecked(IllegalArgumentException)), h.bodyStart), m);
    TrailerThrows(s, m, h, Unchecked(IllegalArgumentException), h.bodyStart);
  }

  /** The scan for the next message stops at the limit or just after an
      SOH `8=` it has read, on the `8`. */
  lemma {:induction false} NextMessageFound(s: seq<byte>, p: nat)
    requires p <= |s|
    ensures var r := NextMessagePosition(s, p);
            r < |s| ==> 1 <= r && At(s, r - 1, BEGIN_MARKER)
    decreases |s| - p
  {
    if p < |s| {
      CompareMatched(s, p, BEGIN_MARKER);
      match Compare(s, p, BEGIN_MARKER)
      case Exhausted =>
      case Mismatched(q) =>
        NextMessageFound(s, q);
      case Matched(q) =>
    }
  }

  /** The scan finds an SOH `8=` that is there: from `p`, with no SOH before
      the one at `k`, it stops on the `8` just after it. */
  lemma {:induction false} NextMessageReaches(s: seq<byte>, p: nat, k: nat)
    requires p <= k && At(s, k, BEGIN_MARKER)
    requires forall j :: p <= j < k ==> s[j] != SOH
    ensures NextMessagePosition(s, p) == k + 1
    decreases k - p
  {
    if p == k {
      CompareMatched(s, p, BEGIN_MARKER);
    } else {
      CompareFirstDifference(s, p, BEGIN_MARKER, 0);
      NextMessageReaches(s, p + 1, k);
    }
  }

  /** Garbage in front of an SOH `8=`, not starting with `8` and holding no
      SOH: the header is Garbled on its first byte, and the scan from there
      stops on the `8`. */
  lemma {:induction false} GarbageScan(s: seq<byte>, m: nat, g: seq<byte>)
    requires |s| <= INT_MAX && g != [] && g[0] != Ascii('8') && SOH !in g
    requires At(s, m, g + BEGIN_MARKER)
    ensures ParseHeader(s, m) == Step(Err(GarbledMessage(None, None)), m + 1)
    ensures NextMessagePosition(s, m + 1) == m + |g| + 1
    ensures s[m..m + |g| + 1] == g + [SOH]
  {
    AtSplit(s, m, g, BEGIN_MARKER);
    assert s[m] == s[m..m + |g|][0];
    NotBeginString(s, m, 0);
    forall j | m + 1 <= j < m + |g|
      ensures s[j] != SOH
    {
      assert s[j] == s[m..m + |g|][j - m];
    }
    NextMessageReaches(s, m + 1, m + |g|);
    assert s[m + |g|] == s[m + |g|..m + |g| + 3][0];
    assert s[m..m + |g| + 1] == s[m..m + |g|] + [s[m + |g|]];
  }

  /** Garbage in front of an SOH `8=` is reported as Garbled data: every
      byte up to and including that SOH, with the position left on the `8`. */
  lemma {:induction false} GarbageGarbled(s: seq<byte>, m: nat, g: seq<byte>)
    requires |s| <= INT_MAX && g != [] && g[0] != Ascii('8') && SOH !in g
    requires At(s, m, g + BEGIN_MARKER)
    ensures FixParse(View(s, m)) == Parse(Garbled(None, Some(g + [SOH])), m + |g| + 1, m)
  {
    GarbageScan(s, m, g);
    HeaderGarbledAt(s, m, None, m + 1);
  }

  /** Garbage, then SOH, then a well-formed message: the garbage and the SOH
      are reported as Garbled data, and the parse that resumes on the `8`
      returns the message whole. */
  lemma {:induction false} GarbageResynchronises(s: seq<byte>, m: nat, g: seq<byte>, beginString: seq<byte>, body: seq<byte>, checkSum: seq<byte>)
    requires |s| <= INT_MAX && WellFormed(beginString, body, checkSum)
    requires g != [] && g[0] != Ascii('8') && SOH !in g
    requires At(s, m, g + [SOH]) && At(s, m + |g| + 1, Frame(beginString, body, checkSum))
    ensures FixParse(View(s, m)) == Parse(Garbled(None, Some(g + [SOH])), m + |g| + 1, m)
    ensures FixParse(View(s, m + |g| + 1)) ==
              Parse(Parsed(Message(Frame(beginString, body, checkSum))),
                    m + |g| + 1 + |Frame(beginString, body, checkSum)|, m + |g| + 1)
  {
    FrameStart(beginString, body, checkSum);
    GarbageLayout(s, m, g, Frame(beginString, body, checkSum));
    var k := m + |g| + 1;
    FrameParsed(s, k, beginString, body, checkSum);
    assert View(s, k) == View(s, m + |g| + 1);
    GarbageGarbled(s, m, g);
  }

  /** Garbage and SOH in front of bytes starting with `8=`: the garbage is
      followed by an SOH `8=`. */
  lemma GarbageLayout(s: seq<byte>, m: nat, g: seq<byte>, f: seq<byte>)
    requires |f| >= 2 && [SOH] + f[..2] == BEGIN_MARKER
    requires At(s, m, g + [SOH]) && At(s, m + |g| + 1, f)
    ensures At(s, m, g + BEGIN_MARKER)
  {
    AtSplit(s, m + |g| + 1, f[..2], f[2..]);
    assert g + BEGIN_MARKER == (g + [SOH]) + f[..2];
    assert s[m..m + |g| + 3] == s[m..m + |g| + 1] + s[m + |g| + 1..m + |g| + 3];
  }

  /** A frame starts with `8=`. */
  lemma FrameStart(beginString: seq<byte>, body: seq<byte>, checkSum: seq<byte>)
    ensures var f := Frame(beginString, body, checkSum);
            |f| >= 2 && f[..2] == TagPrefix(BeginString) && [SOH] + f[..2] == BEGIN_MARKER
  {
    var f := Frame(beginString, body, checkSum);
    assert f[..2] == Field(BeginString, beginString)[..2];
  }

  /** Each failed comparison consumes the byte that failed, so an SOH `8=`
      whose SOH is that byte is passed over: in SOH SOH `8=` the scan runs to
      the limit. */
  lemma NextMessageSkipsRepeatedSoh()
    ensures var s := [SOH, SOH, Ascii('8'), Ascii('=')];
            At(s, 1, BEGIN_MARKER) && NextMessagePosition(s, 0) == |s|
  {
    var s := [SOH, SOH, Ascii('8'), Ascii('=')];
    assert s[1..4] == BEGIN_MARKER;
    assert Compare(s, 0, BEGIN_MARKER) == Mismatched(2);
    assert Compare(s, 2, BEGIN_MARKER) == Mismatched(3);
    assert Compare(s, 3, BEGIN_MARKER) == Mismatched(4);
  }
}
