/** The receive side of `Connection`: the loop of `Connection.parse()` that
    hands the receive buffer to a parser message after message, as a
    function of the bytes received and the parser. The parser is any
    function that keeps the `MessageParser` contract and advances on a
    message or a Garbled report. */
module Receiving {
  import opened Bytes
  import opened Buffers
  import opened Parsing

  /** What the loop gathered: the messages and Garbled reports in the order
      the parser produced them, the position it stopped at, and the
      unchecked exception that ended it, if one did. */
  datatype Received<T> = Received(items: seq<ParseOutcome<T>>, rest: nat, thrown: Option<Thrown>)

  /** `items` gathered ahead of a run of the loop. */
  function Then<T>(items: seq<ParseOutcome<T>>, r: Received<T>): Received<T> {
    Received(items + r.items, r.rest, r.thrown)
  }

  /** The loop from position `p`: while bytes remain, mark and parse. A
      message is kept and a Garbled report passed on, and the loop goes on
      from where the parser left the position; Partial goes back to the
      mark and stops; anything else the parser throws ends the loop and
      escapes. */
  function Receive<T>(parser: View --> Parse<T>, s: seq<byte>, p: nat): (r: Received<T>)
    requires p <= |s| <= INT_MAX && Honours(parser) && Advances(parser)
    ensures p <= r.rest <= |s|
    ensures forall k :: 0 <= k < |r.items| ==> r.items[k].Parsed? || r.items[k].Garbled?
    decreases |s| - p
  {
    if p == |s| then Received([], p, None)
    else
      var step := parser(View(s, p));
      match step.outcome
      case Partial => Received([], p, None)
      case Crash(x) => Received([], p, Some(x))
      case _ =>
        var r := Receive(parser, s, step.position);
        Received([step.outcome] + r.items, r.rest, r.thrown)
  }

  /** The messages among the items, in order. */
  function Messages<T>(items: seq<ParseOutcome<T>>): (m: seq<T>)
    ensures |m| <= |items|
  {
    if items == [] then []
    else (if items[0].Parsed? then [items[0].message] else []) + Messages(items[1..])
  }

  /** The bytes each item stands for: a message's payload, a Garbled
      report's data. */
  function Spanned(items: seq<ParseOutcome<Message>>): seq<seq<byte>> {
    seq(|items|, k requires 0 <= k < |items| =>
      match items[k]
      case Parsed(m) => m.payload
      case Garbled(_, Some(data)) => data
      case _ => [])
  }

  /** With a parser that returns exactly the bytes it passes over, the
      loop accounts for every byte it consumed, in order: the payloads and
      Garbled data, end to end, are the bytes from where it began to where
      it stopped. */
  lemma {:induction false} ReceiveSpans(parser: View --> Parse<Message>, s: seq<byte>, p: nat)
    requires p <= |s| <= INT_MAX && Honours(parser) && Advances(parser) && Spans(parser)
    ensures var r := Receive(parser, s, p);
            Flatten(Spanned(r.items)) == s[p..r.rest]
    decreases |s| - p
  {
    if p < |s| {
      var step := parser(View(s, p));
      if step.outcome.Parsed? || step.outcome.Garbled? {
        var x := SpanStep(parser, s, p);
        var q := step.position;
        ReceiveStep(parser, s, p);
        ReceiveSpans(parser, s, q);
        var r := Receive(parser, s, q);
        SpannedCons(step.outcome, r.items, x);
        FlattenCons(x, Spanned(r.items));
        SliceJoin(s, p, q, r.rest);
      }
    }
  }

  /** The bytes one message or Garbled report stands for are those the
      parser passed over. */
  lemma SpanStep(parser: View --> Parse<Message>, s: seq<byte>, p: nat) returns (x: seq<byte>)
    requires p < |s| <= INT_MAX && Honours(parser) && Spans(parser)
    requires parser(View(s, p)).outcome.Parsed? || parser(View(s, p)).outcome.Garbled?
    ensures p <= parser(View(s, p)).position <= |s| && x == s[p..parser(View(s, p)).position]
    ensures parser(View(s, p)).outcome.Parsed? ==> parser(View(s, p)).outcome.message.payload == x
    ensures parser(View(s, p)).outcome.Garbled? ==> parser(View(s, p)).outcome.data == Some(x)
  {
    assert View(s, p).Valid();
    x := s[p..parser(View(s, p)).position];
  }

  lemma SpannedCons(o: ParseOutcome<Message>, items: seq<ParseOutcome<Message>>, x: seq<byte>)
    requires o.Parsed? ==> o.message.payload == x
    requires o.Garbled? ==> o.data == Some(x)
    requires o.Parsed? || o.Garbled?
    ensures Spanned([o] + items) == [x] + Spanned(items)
  {
    assert ([o] + items)[1..] == items;
  }

  /** The loop stops only at the end of the bytes, or where the parser
      reports Partial (the position back at the start of the message, none
      of it consumed) or throws. */
  lemma {:induction false} ReceiveStops<T>(parser: View --> Parse<T>, s: seq<byte>, p: nat)
    requires p <= |s| <= INT_MAX && Honours(parser) && Advances(parser)
    ensures var r := Receive(parser, s, p);
            && (r.thrown.None? ==> r.rest == |s| || parser(View(s, r.rest)).outcome.Partial?)
            && (r.thrown.Some? ==> r.rest < |s| && parser(View(s, r.rest)).outcome == Crash(r.thrown.value))
    decreases |s| - p
  {
    if p < |s| {
      var step := parser(View(s, p));
      assert View(s, p).Valid();
      if step.outcome.Parsed? || step.outcome.Garbled? {
        ReceiveStops(parser, s, step.position);
      }
    }
  }

  /** One turn of the loop that keeps going: the item it gathered, then the
      loop from where the parser left the position. */
  lemma ReceiveStep<T>(parser: View --> Parse<T>, s: seq<byte>, p: nat)
    requires p < |s| <= INT_MAX && Honours(parser) && Advances(parser)
    requires parser(View(s, p)).outcome.Parsed? || parser(View(s, p)).outcome.Garbled?
    ensures parser(View(s, p)).position <= |s|
    ensures Receive(parser, s, p) == Then([parser(View(s, p)).outcome], Receive(parser, s, parser(View(s, p)).position))
  {
    assert View(s, p).Valid();
  }

  lemma ThenNothing<T>(items: seq<ParseOutcome<T>>, r: Received<T>)
    requires r.items == []
    ensures Then(items, r) == Received(items, r.rest, r.thrown)
  {
    assert items + [] == items;
  }

  lemma ThenThen<T>(a: seq<ParseOutcome<T>>, b: seq<ParseOutcome<T>>, r: Received<T>)
    ensures Then(a, Then(b, r)) == Then(a + b, r)
  {
    assert a + (b + r.items) == (a + b) + r.items;
  }

  lemma {:induction false} MessagesAppend<T>(a: seq<ParseOutcome<T>>, b: seq<ParseOutcome<T>>)
    ensures Messages(a + b) == Messages(a) + Messages(b)
  {
    if a == [] {
      assert a + b == b;
    } else {
      assert (a + b)[1..] == a[1..] + b;
      assert (a + b)[0] == a[0];
      MessagesAppend(a[1..], b);
      var h: seq<T> := if a[0].Parsed? then [a[0].message] else [];
      AppendRegroup(h, Messages(a[1..]), Messages(b));
    }
  }
}
