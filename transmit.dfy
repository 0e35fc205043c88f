/** The transmit side of `Connection`: the queue of buffers waiting to be
    written and how `write(ByteBuffer)`, `flush()` and the drain loop of
    `close()` empty it, as functions of the queue and of how the channel
    answers each write. Each queued buffer is represented by the bytes it
    has left to write. */
module Transmitting {
  import opened Bytes

  /** How the channel answers one `channel.write(buffer)`: it takes up to
      `count` bytes (0 when the socket's send buffer is full), or throws an
      IOException. */
  datatype WriteReply = Accepts(count: nat) | WriteFails

  /** How a write or a flush ends: everything written; stopped by a write
      that took no bytes; stopped by an IOException; or stopped by a
      NullPointerException because the connection has no selection key to
      ask for write interest with. */
  datatype Outcome = Done | Stalled | Failed | Unregistered

  /** One buffer written as far as it went: the bytes that went out, the
      bytes left, the replies not yet used, and how it ended. */
  datatype Tx = Tx(written: seq<byte>, left: seq<byte>, replies: seq<WriteReply>, outcome: Outcome)

  /** `write(ByteBuffer)`: `channel.write` while bytes remain; a write that
      takes nothing stops it. A channel whose scripted replies have run out
      takes everything it is given; a closed channel throws IOException
      (ClosedChannelException) on every write, without using a reply. */
  function Transmit(pending: seq<byte>, replies: seq<WriteReply>, open: bool): (t: Tx)
    ensures |t.replies| <= |replies|
    ensures t.outcome == Done || t.outcome == Stalled || t.outcome == Failed
    ensures t.outcome != Done && open ==> |t.replies| < |replies|
    ensures !open ==> t.written == [] && t.replies == replies && (t.outcome == Done <==> pending == [])
    ensures t.outcome == Stalled ==> open
    decreases |replies|
  {
    if pending == [] then Tx([], [], replies, Done)
    else if !open then Tx([], pending, replies, Failed)
    else if replies == [] then Tx(pending, [], [], Done)
    else
      match replies[0]
      case WriteFails => Tx([], pending, replies[1..], Failed)
      case Accepts(k) =>
        if k == 0 then Tx([], pending, replies[1..], Stalled)
        else
          var n := if k < |pending| then k else |pending|;
          var t := Transmit(pending[n..], replies[1..], open);
          Tx(pending[..n] + t.written, t.left, t.replies, t.outcome)
  }

  /** One `channel.write` of a buffer with bytes remaining that takes some
      of them, and the rest of the write. */
  lemma TransmitStep(pending: seq<byte>, replies: seq<WriteReply>, n: nat)
    requires pending != [] && replies != [] && replies[0].Accepts? && replies[0].count > 0
    requires n == if replies[0].count < |pending| then replies[0].count else |pending|
    ensures var t := Transmit(pending[n..], replies[1..], true);
      Transmit(pending, replies, true) == Tx(pending[..n] + t.written, t.left, t.replies, t.outcome)
  {
  }

  /** What a flush did: the bytes that went out, the queue left, the
      replies not yet used, how it ended, and whether it asked for write
      interest. */
  datatype Flushed = Flushed(written: seq<byte>, queue: seq<seq<byte>>, replies: seq<WriteReply>, outcome: Outcome, interest: bool)

  /** `flush()`: the head of the queue is written, and dropped only once it
      is written whole. A write that takes nothing stops the flush and asks
      for write interest, through the selection key: on a connection
      without one that throws NullPointerException. */
  function Drain(queue: seq<seq<byte>>, replies: seq<WriteReply>, registered: bool, open: bool): (d: Flushed)
    ensures |d.replies| <= |replies|
    ensures d.outcome != Done && open ==> |d.replies| < |replies|
    ensures d.interest <==> d.outcome == Stalled
    ensures d.outcome == Stalled ==> registered && open
    ensures d.outcome == Unregistered ==> !registered
    decreases |queue|
  {
    if queue == [] then Flushed([], [], replies, Done, false)
    else
      var t := Transmit(queue[0], replies, open);
      if t.outcome == Done then
        var d := Drain(queue[1..], t.replies, registered, open);
        Flushed(t.written + d.written, d.queue, d.replies, d.outcome, d.interest)
      else if t.outcome == Stalled && !registered then
        Flushed(t.written, [t.left] + queue[1..], t.replies, Unregistered, false)
      else Flushed(t.written, [t.left] + queue[1..], t.replies, t.outcome, t.outcome == Stalled)
  }

  /** A flush preceded by bytes already written. */
  function After(written: seq<byte>, d: Flushed): Flushed {
    d.(written := written + d.written)
  }

  lemma AfterAfter(a: seq<byte>, b: seq<byte>, d: Flushed)
    ensures After(a, After(b, d)) == After(a + b, d)
  {
    assert a + (b + d.written) == (a + b) + d.written;
  }

  /** One turn of `flush()`, by how the write of the head ends. */
  lemma DrainStep(queue: seq<seq<byte>>, replies: seq<WriteReply>, registered: bool, open: bool) returns (t: Tx)
    requires queue != []
    ensures t == Transmit(queue[0], replies, open)
    ensures t.outcome == Done ==>
              Drain(queue, replies, registered, open) == After(t.written, Drain(queue[1..], t.replies, registered, open))
    ensures t.outcome != Done ==>
              var d := Drain(queue, replies, registered, open);
              d.written == t.written && d.queue == [t.left] + queue[1..] && d.replies == t.replies &&
              (d.outcome == Failed <==> t.outcome == Failed)
  {
    t := Transmit(queue[0], replies, open);
  }

  /** The drain loop of `close()`: flush until the queue is empty; an
      IOException ends the loop, and so does NullPointerException from a
      stalled flush without a selection key. */
  function Closing(queue: seq<seq<byte>>, replies: seq<WriteReply>, registered: bool, open: bool): (c: Flushed)
    ensures |c.replies| <= |replies|
    ensures c.outcome != Stalled
    decreases |replies|
  {
    if queue == [] then Flushed([], [], replies, Done, false)
    else
      var d := Drain(queue, replies, registered, open);
      if d.outcome == Stalled then
        var c := Closing(d.queue, d.replies, registered, open);
        Flushed(d.written + c.written, c.queue, c.replies, c.outcome, true)
      else d
  }

  /** One turn of the drain loop of `close()`, by how its flush ends. */
  lemma ClosingTurn(queue: seq<seq<byte>>, replies: seq<WriteReply>, registered: bool, open: bool) returns (d: Flushed)
    requires queue != []
    ensures d == Drain(queue, replies, registered, open)
    ensures d.outcome == Done ==>
              d.queue == [] && Closing(queue, replies, registered, open) == Flushed(d.written, [], d.replies, Done, false)
    ensures d.outcome != Done && d.outcome != Stalled ==> Closing(queue, replies, registered, open) == d && !d.interest
    ensures d.outcome == Stalled ==> d.queue != []
    ensures d.outcome == Stalled ==>
              var c := Closing(d.queue, d.replies, registered, open);
              Closing(queue, replies, registered, open) == Flushed(d.written + c.written, c.queue, c.replies, c.outcome, true)
  {
    d := Drain(queue, replies, registered, open);
    DrainConserves(queue, replies, registered, open);
  }

  /** `flush()` and, when it throws an IOException, `close()`: what `send`
      and `write(SelectionKey)` do on a registered connection. */
  function FlushOrClose(queue: seq<seq<byte>>, replies: seq<WriteReply>, open: bool): (f: Flushed)
  {
    var d := Drain(queue, replies, true, open);
    if d.outcome == Failed then
      var c := Closing(d.queue, d.replies, true, open);
      Flushed(d.written + c.written, c.queue, c.replies, Failed, c.interest)
    else d
  }

  /** A write loses no byte and invents none: what went out, followed by
      what is left, is the buffer; and it ends Done exactly when nothing is
      left. */
  lemma {:induction false} TransmitConserves(pending: seq<byte>, replies: seq<WriteReply>, open: bool)
    ensures var t := Transmit(pending, replies, open);
      t.written + t.left == pending && (t.outcome == Done <==> t.left == [])
    decreases |replies|, 1
  {
    var t := Transmit(pending, replies, open);
    if pending == [] {
      assert t == Tx([], [], replies, Done);
    } else if !open {
      assert t == Tx([], pending, replies, Failed);
    } else if replies == [] {
      assert t == Tx(pending, [], [], Done);
    } else if replies[0].WriteFails? || replies[0].count == 0 {
      assert t.written == [] && t.left == pending && t.outcome != Done;
    } else {
      var k := replies[0].count;
      AcceptedConserves(pending, replies, if k < |pending| then k else |pending|);
    }
  }

  /** The write that takes some bytes, for `TransmitConserves`. */
  lemma {:induction false} AcceptedConserves(pending: seq<byte>, replies: seq<WriteReply>, n: nat)
    requires pending != [] && replies != [] && replies[0].Accepts? && replies[0].count > 0
    requires n == if replies[0].count < |pending| then replies[0].count else |pending|
    ensures var t := Transmit(pending, replies, true);
      t.written + t.left == pending && (t.outcome == Done <==> t.left == [])
    decreases |replies|, 0
  {
    TransmitStep(pending, replies, n);
    TransmitConserves(pending[n..], replies[1..], true);
    var u := Transmit(pending[n..], replies[1..], true);
    AppendRegroup(pending[..n], u.written, u.left);
    TakeDrop(pending, n);
  }

  /** A flush loses no byte, invents none and keeps the order: what went
      out, followed by the queue it leaves, is the queue it was given. It
      ends Done exactly when it leaves the queue empty. */
  lemma {:induction false} DrainConserves(queue: seq<seq<byte>>, replies: seq<WriteReply>, registered: bool, open: bool)
    ensures var d := Drain(queue, replies, registered, open);
      d.written + Flatten(d.queue) == Flatten(queue) &&
      (d.outcome == Done <==> d.queue == []) &&
      |d.queue| <= |queue|
    decreases |queue|
  {
    if queue != [] {
      var t := DrainStep(queue, replies, registered, open);
      TransmitConserves(queue[0], replies, open);
      FlattenCons(queue[0], queue[1..]);
      assert [queue[0]] + queue[1..] == queue;
      if t.outcome == Done {
        var d := Drain(queue[1..], t.replies, registered, open);
        DrainConserves(queue[1..], t.replies, registered, open);
        AppendRegroup(t.written, d.written, Flatten(d.queue));
      } else {
        FlattenCons(t.left, queue[1..]);
        AppendRegroup(t.written, t.left, Flatten(queue[1..]));
      }
    }
  }

  /** A flush that stops leaves, at the head of the queue, what remains of
      the buffer it was writing, and behind it the buffers it had not
      reached, untouched. */
  lemma {:induction false} DrainKeepsTail(queue: seq<seq<byte>>, replies: seq<WriteReply>, registered: bool, open: bool)
    ensures var d := Drain(queue, replies, registered, open);
      d.queue != [] ==> |d.queue| <= |queue| && d.queue[0] != [] && d.queue[1..] == queue[|queue| - |d.queue| + 1..]
    decreases |queue|
  {
    if queue != [] {
      var t := DrainStep(queue, replies, registered, open);
      TransmitConserves(queue[0], replies, open);
      if t.outcome == Done {
        var d := Drain(queue[1..], t.replies, registered, open);
        DrainKeepsTail(queue[1..], t.replies, registered, open);
        if d.queue != [] {
          assert queue[1..][|queue[1..]| - |d.queue| + 1..] == queue[|queue| - |d.queue| + 1..];
        }
      } else {
        var left := [t.left] + queue[1..];
        assert left[1..] == queue[1..];
      }
    }
  }

  /** The drain loop of `close()` loses no byte and keeps the order, and it
      either empties the queue or stops on an exception. */
  lemma {:induction false} ClosingConserves(queue: seq<seq<byte>>, replies: seq<WriteReply>, registered: bool, open: bool)
    ensures var c := Closing(queue, replies, registered, open);
      c.written + Flatten(c.queue) == Flatten(queue) &&
      (c.outcome == Done <==> c.queue == []) &&
      (c.outcome == Unregistered ==> !registered)
    decreases |replies|
  {
    if queue != [] {
      var d := Drain(queue, replies, registered, open);
      DrainConserves(queue, replies, registered, open);
      if d.outcome == Stalled {
        ClosingConserves(d.queue, d.replies, registered, open);
      }
    }
  }

  /** A channel that takes at least one byte on every write. */
  predicate Steady(replies: seq<WriteReply>) {
    forall i :: 0 <= i < |replies| ==> replies[i].Accepts? && replies[i].count > 0
  }

  lemma {:induction false} SteadyTransmit(pending: seq<byte>, replies: seq<WriteReply>, open: bool)
    requires open && Steady(replies)
    ensures var t := Transmit(pending, replies, open);
      t.outcome == Done && t.written == pending && Steady(t.replies)
    decreases |replies|
  {
    if pending != [] && replies != [] {
      var k := replies[0].count;
      var n := if k < |pending| then k else |pending|;
      assert Steady(replies[1..]) by {
        forall i | 0 <= i < |replies[1..]| ensures replies[1..][i].Accepts? && replies[1..][i].count > 0 {
          assert replies[1..][i] == replies[i + 1];
        }
      }
      SteadyTransmit(pending[n..], replies[1..], open);
      TakeDrop(pending, n);
    }
  }

  /** On a channel that never refuses a write, a flush sends the whole
      queue, in order, and leaves it empty. */
  lemma {:induction false} SteadyDrain(queue: seq<seq<byte>>, replies: seq<WriteReply>, registered: bool, open: bool)
    requires open && Steady(replies)
    ensures var d := Drain(queue, replies, registered, open);
      d.outcome == Done && d.queue == [] && d.written == Flatten(queue)
    decreases |queue|
  {
    if queue != [] {
      SteadyTransmit(queue[0], replies, open);
      SteadyDrain(queue[1..], Transmit(queue[0], replies, open).replies, registered, open);
    }
  }

  /** On a channel that never refuses a write, the drain loop of `close()`
      sends the whole queue, in order, with a single flush. */
  lemma SteadyClosing(queue: seq<seq<byte>>, replies: seq<WriteReply>, registered: bool, open: bool)
    requires open && Steady(replies)
    ensures var c := Closing(queue, replies, registered, open);
      c.outcome == Done && c.queue == [] && c.written == Flatten(queue) && !c.interest
  {
    SteadyDrain(queue, replies, registered, open);
  }

  /** `send` and `write(SelectionKey)` lose no byte: what went out, followed
      by the queue left, is the queue; the queue is left non-empty only by a
      stalled write, which leaves the connection open, or by an
      IOException, after which `close()` drains what it can. */
  lemma FlushOrCloseConserves(queue: seq<seq<byte>>, replies: seq<WriteReply>, open: bool)
    ensures var f := FlushOrClose(queue, replies, open);
      f.written + Flatten(f.queue) == Flatten(queue) &&
      (f.outcome == Done ==> f.queue == []) &&
      (f.outcome == Stalled ==> f.queue != []) &&
      (f.outcome == Done || f.outcome == Stalled || f.outcome == Failed)
  {
    var d := Drain(queue, replies, true, open);
    DrainConserves(queue, replies, true, open);
    if d.outcome == Failed {
      ClosingConserves(d.queue, d.replies, true, open);
    }
  }

  /** A closed channel takes nothing and uses up no reply: a flush sends
      nothing, leaves every byte queued, and fails exactly when there is a
      byte to write. */
  lemma {:induction false} ClosedDrain(queue: seq<seq<byte>>, replies: seq<WriteReply>, registered: bool)
    ensures var d := Drain(queue, replies, registered, false);
      && d.written == [] && d.replies == replies && Flatten(d.queue) == Flatten(queue)
      && (d.outcome == Done || d.outcome == Failed)
      && (d.outcome == Done <==> Flatten(queue) == [])
    decreases |queue|
  {
    if queue != [] {
      var t := DrainStep(queue, replies, registered, false);
      FlattenCons(queue[0], queue[1..]);
      assert [queue[0]] + queue[1..] == queue;
      if t.outcome == Done {
        ClosedDrain(queue[1..], replies, registered);
      }
    }
  }

  /** `send` or `write(SelectionKey)` after `close()`: the first write
      throws, so nothing is sent, the queue keeps every byte, and the
      connection goes through `close()` again whenever there is a byte to
      send. */
  lemma ClosedFlushOrClose(queue: seq<seq<byte>>, replies: seq<WriteReply>)
    ensures var f := FlushOrClose(queue, replies, false);
      && f.written == [] && f.replies == replies && Flatten(f.queue) == Flatten(queue)
      && (f.outcome == Failed <==> Flatten(queue) != [])
      && (f.outcome == Done <==> Flatten(queue) == [])
  {
    var d := Drain(queue, replies, true, false);
    ClosedDrain(queue, replies, true);
    if d.outcome == Failed {
      DrainConserves(queue, replies, true, false);
      ClosedDrain(d.queue, replies, true);
    }
  }
}
