/** The `MessageParser` contract (MessageParser.java), the wrapper every
    byte-array parser shares (AbstractMessageParser.java), and the pieces
    of a parse that the concrete parsers have in common. */
module Parsing {
  import opened Bytes
  import opened Buffers

  /** An immutable message payload (Message.java). */
  datatype Message = Message(payload: seq<byte>)

  /** How one call of `MessageParser.parse` ends: a message; PartialMessageException;
      GarbledMessageException with its text and data; or an unchecked
      exception that escapes to the caller. */
  datatype ParseOutcome<+T> =
    | Parsed(message: T)
    | Partial
    | Garbled(text: Option<Complaint>, data: Option<seq<byte>>)
    | Crash(thrown: Thrown)

  /** The receive buffer as a parser is handed it: the bytes below the limit,
      and the position, at which the caller has set the mark. */
  datatype View = View(bytes: seq<byte>, position: nat) {
    predicate Valid() {
      position <= |bytes| <= INT_MAX
    }
  }

  /** What one call of `parse` did: its outcome, and where it left the
      buffer's position and mark. A parser reads the buffer and moves its
      position; it never writes into it or moves the limit. */
  datatype Parse<+T> = Parse(outcome: ParseOutcome<T>, position: nat, mark: int)

  /** A step inside a parser: what it produced or threw, and the position it
      left behind. */
  datatype Step<+T> = Step(result: Result<T>, position: nat)

  /** How reading `|lit|` bytes with relative `get()` from position `p`, and
      comparing each with the next byte of `lit`, ends: all matched, the first
      mismatching byte read (and consumed), or the limit reached first. */
  datatype Scan = Matched(next: nat) | Mismatched(next: nat) | Exhausted

  function Compare(s: seq<byte>, p: nat, lit: seq<byte>): (r: Scan)
    requires p <= |s|
    ensures r.Matched? ==> r.next == p + |lit| <= |s|
    ensures r.Mismatched? ==> p < r.next <= p + |lit| && r.next <= |s|
    ensures r.Exhausted? ==> |s| < p + |lit|
    decreases |lit|
  {
    if lit == [] then Matched(p)
    else if p == |s| then Exhausted
    else if s[p] != lit[0] then Mismatched(p + 1)
    else Compare(s, p + 1, lit[1..])
  }

  /** `Compare` matches exactly when `lit` follows `p`. */
  lemma {:induction false} CompareMatched(s: seq<byte>, p: nat, lit: seq<byte>)
    requires p <= |s|
    ensures Compare(s, p, lit).Matched? <==> p + |lit| <= |s| && s[p..p + |lit|] == lit
    decreases |lit|
  {
    if lit != [] && p < |s| {
      if s[p] == lit[0] {
        CompareMatched(s, p + 1, lit[1..]);
        if p + |lit| <= |s| {
          assert s[p..p + |lit|] == [s[p]] + s[p + 1..p + 1 + |lit[1..]|];
        }
      } else if p + |lit| <= |s| {
        assert s[p..p + |lit|][0] != lit[0];
      }
    }
  }

  /** Before the byte that mismatched, the bytes agree with `lit`. */
  lemma {:induction false} CompareMismatched(s: seq<byte>, p: nat, lit: seq<byte>)
    requires p <= |s| && Compare(s, p, lit).Mismatched?
    ensures var q := Compare(s, p, lit).next;
            s[p..q - 1] == lit[..q - 1 - p] && s[q - 1] != lit[q - 1 - p]
    decreases |lit|
  {
    if s[p] == lit[0] {
      CompareMismatched(s, p + 1, lit[1..]);
      var q := Compare(s, p, lit).next;
      assert s[p..q - 1] == [s[p]] + s[p + 1..q - 1];
      assert lit[..q - 1 - p] == [lit[0]] + lit[1..][..q - 1 - (p + 1)];
    }
  }

  /** The first byte that differs from `lit` is where `Compare` stops. */
  lemma {:induction false} CompareFirstDifference(s: seq<byte>, p: nat, lit: seq<byte>, i: nat)
    requires p + i < |s| && i < |lit|
    requires s[p..p + i] == lit[..i] && s[p + i] != lit[i]
    ensures Compare(s, p, lit) == Mismatched(p + i + 1)
    decreases i
  {
    if i > 0 {
      assert s[p] == s[p..p + i][0];
      assert s[p + 1..p + i] == s[p..p + i][1..];
      assert lit[1..][..i - 1] == lit[..i][1..];
      CompareFirstDifference(s, p + 1, lit[1..], i - 1);
    }
  }

  /** When the limit comes first, all the bytes up to it agree with `lit`. */
  lemma {:induction false} CompareExhausted(s: seq<byte>, p: nat, lit: seq<byte>)
    requires p <= |s| && Compare(s, p, lit).Exhausted?
    ensures s[p..] == lit[..|s| - p]
    decreases |lit|
  {
    if p < |s| {
      CompareExhausted(s, p + 1, lit[1..]);
      assert s[p..] == [s[p]] + s[p + 1..];
      assert lit[..|s| - p] == [lit[0]] + lit[1..][..|s| - (p + 1)];
    }
  }

  /** Bulk `get(new byte[n])` from position `p`: the next `n` bytes, or
      underflow with the position unmoved. */
  function GetBytesAt(s: seq<byte>, p: nat, n: nat): (r: Step<seq<byte>>)
    requires p <= |s|
    ensures r.result.Ok? <==> p + n <= |s|
    ensures r.result.Ok? ==> r.result.value == s[p..p + n] && r.position == p + n
    ensures r.result.Err? ==> r.result == Err(BufferUnderflow) && r.position == p
  {
    if n > |s| - p then Step(Err(BufferUnderflow), p) else Step(Ok(s[p..p + n]), p + n)
  }

  /** `AbstractMessageParser.parse`: the bytes `onParse` returns become a
      message through `newMessage`; a BufferUnderflowException becomes
      Partial; everything else `onParse` throws passes through unchanged,
      because only underflow is caught. */
  function Lift<T>(r: Result<seq<byte>>, newMessage: seq<byte> -> T): (o: ParseOutcome<T>)
    ensures r.Ok? <==> o.Parsed?
    ensures r.Ok? ==> o.message == newMessage(r.value)
    ensures o.Partial? <==> r == Err(BufferUnderflow) || r == Err(PartialMessage)
    ensures r.Err? && r.thrown.GarbledMessage? <==> o.Garbled?
    ensures o.Garbled? ==> o.text == r.thrown.text && o.data == r.thrown.data
    ensures o.Crash? ==> o.thrown == r.thrown
  {
    match r
    case Ok(data) => Parsed(newMessage(data))
    case Err(BufferUnderflow) => Partial
    case Err(PartialMessage) => Partial
    case Err(GarbledMessage(text, data)) => Garbled(text, data)
    case Err(x) => Crash(x)
  }

  /** The rules of MessageParser.java for one call, given how it ended:
      - the buffer stays a valid buffer over the same bytes and limit;
      - the parser never sets a mark of its own, so on every outcome the
        caller handles (message, Partial, Garbled) the mark is still where
        the caller put it, at the start of the message, and the caller can
        reset to it; a returned message therefore leaves the position at or
        after the start of the message.
      The rule against throwing Partial or Garbled after a `reset()` of the
      parser's own is not part of this predicate. */
  ghost predicate Obeys<T>(v: View, p: Parse<T>) {
    && p.position <= |v.bytes|
    && -1 <= p.mark <= p.position
    && (!p.outcome.Crash? ==> p.mark == v.position)
  }

  /** A parser honours the contract on every buffer it can be handed. */
  ghost predicate Honours<T>(parser: View --> Parse<T>) {
    forall v: View | v.Valid() :: parser.requires(v) && Obeys(v, parser(v))
  }

  /** A parser advances: a message or a Garbled report always moves the
      position past the mark. Without this a caller that resumes from the
      parser's position can loop for ever. */
  ghost predicate Advances<T>(parser: View --> Parse<T>)
    requires Honours(parser)
  {
    forall v: View | v.Valid() ::
      (parser(v).outcome.Parsed? || parser(v).outcome.Garbled?) ==> parser(v).position > v.position
  }

  /** A byte-span parser returns, as a message or as Garbled data, exactly
      the bytes from the mark to where it leaves the position. */
  ghost predicate Spans(parser: View --> Parse<Message>)
    requires Honours(parser)
  {
    forall v: View | v.Valid() ::
      && (parser(v).outcome.Parsed? ==>
            v.position <= parser(v).position &&
            parser(v).outcome.message.payload == v.bytes[v.position..parser(v).position])
      && (parser(v).outcome.Garbled? ==>
            v.position <= parser(v).position &&
            parser(v).outcome.data == Some(v.bytes[v.position..parser(v).position]))
  }

  /** The messages `newMessage` makes of `payloads`, in order. */
  function Wrap<T>(payloads: seq<seq<byte>>, newMessage: seq<byte> -> T): seq<T> {
    seq(|payloads|, k requires 0 <= k < |payloads| => newMessage(payloads[k]))
  }
}
