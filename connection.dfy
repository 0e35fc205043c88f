/** `Connection` (src/main/java/silvertip/Connection.java): one socket
    connection with a receive buffer that a `MessageParser` reads messages
    from, and a queue of buffers waiting to be written. The socket is the
    `Channel` class below; the callback is an append-only log of the calls
    the connection makes on it. */
module Connections {
  import opened Bytes
  import opened Buffers
  import opened Parsing
  import opened Receiving
  import opened Transmitting

  /** The calls a connection makes on its `Callback`, in the order made. */
  datatype Event<T> =
    | Delivered(messages: seq<T>)
    | Reported(text: Option<Complaint>, data: Option<seq<byte>>)
    | SentBuffer(bytes: seq<byte>)
    | WentIdle

  /** The non-blocking socket channel. Writes are answered from a script of
      replies (a channel whose script has run out takes everything it is
      given); reads deliver the bytes that have arrived, as many as fit. */
  class Channel {
    var open: bool
    /** Every byte written so far, in order. */
    var wire: seq<byte>
    var replies: seq<WriteReply>
    /** Bytes that have arrived and not been read yet. */
    var inbound: seq<byte>
    /** The peer has shut down its side: once `inbound` is empty a read
        reports end of stream. */
    var ended: bool
    /** The connection is broken: every read throws IOException. */
    var broken: bool

    constructor (replies: seq<WriteReply>, inbound: seq<byte>, ended: bool, broken: bool)
      ensures open && wire == [] && this.replies == replies
      ensures this.inbound == inbound && this.ended == ended && this.broken == broken
    {
      open, wire := true, [];
      this.replies, this.inbound, this.ended, this.broken := replies, inbound, ended, broken;
    }

    /** `write(buffer)` with bytes remaining: the number of bytes taken from
        the front of `pending`, or IOException. A closed channel throws
        ClosedChannelException, an IOException, and uses no reply. */
    method Write(pending: seq<byte>) returns (r: Result<nat>)
      requires pending != []
      modifies this`wire, this`replies
      ensures !open ==> r == Err(IoFailure) && wire == old(wire) && replies == old(replies)
      ensures open && old(replies) == [] ==> r == Ok(|pending|) && wire == old(wire) + pending && replies == []
      ensures open && old(replies) != [] && old(replies[0]).WriteFails? ==>
                r == Err(IoFailure) && wire == old(wire) && replies == old(replies[1..])
      ensures open && old(replies) != [] && old(replies[0]).Accepts? ==>
                var n := if old(replies[0]).count < |pending| then old(replies[0]).count else |pending|;
                r == Ok(n) && wire == old(wire) + pending[..n] && replies == old(replies[1..])
    {
      if !open {
        return Err(IoFailure);
      }
      if replies == [] {
        wire := wire + pending;
        return Ok(|pending|);
      }
      var reply := replies[0];
      replies := replies[1..];
      match reply
      case WriteFails =>
        r := Err(IoFailure);
      case Accepts(k) =>
        var n := if k < |pending| then k else |pending|;
        wire := wire + pending[..n];
        r := Ok(n);
    }

    /** `read(buffer)` with `room` bytes free: the bytes read, `None` for
        end of stream (-1), or IOException. A buffer with no room reads no
        bytes without reaching the socket, so it sees neither the end of
        the stream nor a failure. */
    method Read(room: nat) returns (r: Result<Option<seq<byte>>>)
      modifies this`inbound
      ensures room == 0 ==> r == Ok(Some([])) && inbound == old(inbound)
      ensures room > 0 && broken ==> r == Err(IoFailure) && inbound == old(inbound)
      ensures room > 0 && !broken && ended && old(inbound) == [] ==> r == Ok(None) && inbound == []
      ensures room > 0 && !broken && !(ended && old(inbound) == []) ==>
                var n := if room < |old(inbound)| then room else |old(inbound)|;
                r == Ok(Some(old(inbound)[..n])) && inbound == old(inbound)[n..]
    {
      if room == 0 {
        return Ok(Some([]));
      }
      if broken {
        return Err(IoFailure);
      }
      if ended && inbound == [] {
        return Ok(None);
      }
      var n := if room < |inbound| then room else |inbound|;
      r := Ok(Some(inbound[..n]));
      inbound := inbound[n..];
    }
  }

  /** What a flush's outcome raises: an IOException, or the
      NullPointerException of a connection without a selection key. */
  function Raised(o: Outcome): (r: Result<()>)
    ensures r.Ok? <==> o == Done || o == Stalled
  {
    match o
    case Failed => Err(IoFailure)
    case Unregistered => Err(Unchecked(NullPointerException))
    case _ => Ok(())
  }

  /** The `garbledMessage` calls for the Garbled reports among `items`. */
  function Reports<T>(items: seq<ParseOutcome<T>>): (e: seq<Event<T>>)
    ensures |e| <= |items|
  {
    if items == [] then []
    else (if items[0].Garbled? then [Reported(items[0].text, items[0].data)] else []) + Reports(items[1..])
  }

  lemma {:induction false} ReportsAppend<T>(a: seq<ParseOutcome<T>>, b: seq<ParseOutcome<T>>)
    ensures Reports(a + b) == Reports(a) + Reports(b)
  {
    if a == [] {
      assert a + b == b;
    } else {
      assert (a + b)[1..] == a[1..] + b;
      assert (a + b)[0] == a[0];
      ReportsAppend(a[1..], b);
      var h: seq<Event<T>> := if a[0].Garbled? then [Reported(a[0].text, a[0].data)] else [];
      AppendRegroup(h, Reports(a[1..]), Reports(b));
    }
  }

  /** The `messages` call that follows a parse: made only when the parse
      ended normally with at least one message. */
  function Delivery<T>(got: Received<T>): (e: seq<Event<T>>)
    ensures e != [] <==> got.thrown.None? && Messages(got.items) != []
  {
    if got.thrown.None? && Messages(got.items) != [] then [Delivered(Messages(got.items))] else []
  }

  class Connection<T> {
    const rx: ByteBuffer
    const channel: Channel
    const parser: View --> Parse<T>
    /** The connection has a selection key: `register` has been called. */
    const registered: bool
    /** Each queued buffer, by the bytes it has left to write. */
    var txBuffers: seq<seq<byte>>
    /** `OP_WRITE` is in the key's interest set. */
    var writeInterest: bool
    /** The selection key has been cancelled. */
    var cancelled: bool
    var events: seq<Event<T>>

    ghost predicate Valid()
      reads this, rx
    {
      rx.Valid() && Honours(parser) && Advances(parser)
    }

    constructor (channel: Channel, parser: View --> Parse<T>, registered: bool)
      requires Honours(parser) && Advances(parser)
      ensures Valid() && fresh(rx) && fresh(rx.data)
      ensures rx.data.Length == 4096 && rx.position == 0 && rx.limit == 4096 && rx.mark == -1
      ensures this.channel == channel && this.parser == parser && this.registered == registered
      ensures txBuffers == [] && !writeInterest && !cancelled && events == []
    {
      rx := new ByteBuffer.Allocate(4096);
      this.channel, this.parser, this.registered := channel, parser, registered;
      txBuffers, writeInterest, cancelled, events := [], false, false, [];
    }

    /** `read(key)`: on an open channel, reads into the receive buffer; bytes
        read are parsed and the messages handed to the callback; end of
        stream or an IOException closes the connection; a read of no bytes
        does nothing. */
    method Read() returns (r: Result<()>)
      requires Valid()
      modifies rx, rx.data, this`events, this`txBuffers, this`writeInterest, this`cancelled
      modifies channel`inbound, channel`wire, channel`replies, channel`open
      ensures Valid()
      ensures !old(channel.open) ==> r == Ok(()) && unchanged(this, rx, rx.data, channel)
      ensures old(channel.open) && old(rx.limit - rx.position) == 0 ==>
        r == Ok(()) && unchanged(this, rx, rx.data, channel)
      ensures old(channel.open) && old(rx.limit - rx.position) > 0 &&
              (channel.broken || (channel.ended && old(channel.inbound) == [])) ==>
        var c := Closing(old(txBuffers), old(channel.replies), registered, true);
        && txBuffers == c.queue
        && channel.wire == old(channel.wire) + c.written
        && channel.replies == c.replies
        && channel.inbound == old(channel.inbound)
        && events == old(events)
        && unchanged(rx, rx.data)
        && (registered ==> r == Ok(()) && !channel.open && cancelled)
        && (!registered ==> r == Err(Unchecked(NullPointerException)))
      ensures old(channel.open) && old(rx.limit - rx.position) > 0 &&
              !channel.broken && !(channel.ended && old(channel.inbound) == []) ==>
        var room := old(rx.limit - rx.position);
        var n := if room < |old(channel.inbound)| then room else |old(channel.inbound)|;
        && channel.inbound == old(channel.inbound)[n..]
        && unchanged(channel`wire, channel`replies, channel`open)
        && unchanged(this`txBuffers, this`writeInterest, this`cancelled)
        && (n == 0 ==> r == Ok(()) && events == old(events) && unchanged(rx, rx.data))
        && (n > 0 ==>
              var s := old(rx.data[..rx.position]) + old(channel.inbound)[..n];
              var got := Receive(parser, s, 0);
              && events == old(events) + Reports(got.items) + Delivery(got)
              && (got.thrown.None? ==>
                    && r == Ok(())
                    && rx.position == |s| - got.rest && rx.limit == rx.data.Length && rx.mark == -1
                    && rx.data[..rx.position] == s[got.rest..])
              && (got.thrown.Some? ==>
                    && r == Err(got.thrown.value)
                    && rx.data[..] == s + old(rx.data[..])[|s|..] && rx.limit == |s|
                    && rx.position == parser(View(s, got.rest)).position))
    {
      if !channel.open {
        return Ok(());
      }
      var got := channel.Read(rx.limit - rx.position);
      match got
      case Err(_) =>
        r := Close();
      case Ok(None) =>
        r := Close();
      case Ok(Some(bytes)) =>
        r := Ok(());
        if |bytes| > 0 {
          r := Deliver(bytes);
        }
    }

    /** The `len > 0` branch of `read`: the bytes read are in the receive
        buffer; `parse()` runs and the callback gets the messages, if there
        are any. */
    method Deliver(bytes: seq<byte>) returns (r: Result<()>)
      requires Valid() && 0 < |bytes| <= rx.limit - rx.position
      modifies rx, rx.data, this`events
      ensures Valid()
      ensures var s := old(rx.data[..rx.position]) + bytes;
        var got := Receive(parser, s, 0);
        && events == old(events) + Reports(got.items) + Delivery(got)
        && (got.thrown.None? ==>
              && r == Ok(())
              && rx.position == |s| - got.rest && rx.limit == rx.data.Length && rx.mark == -1
              && rx.data[..rx.position] == s[got.rest..])
        && (got.thrown.Some? ==>
              && r == Err(got.thrown.value)
              && rx.data[..] == s + old(rx.data[..])[|s|..] && rx.limit == |s|
              && rx.position == parser(View(s, got.rest)).position)
    {
      var _ := rx.Put(bytes);
      assert rx.data[..rx.position] == old(rx.data[..rx.position]) + bytes;
      var messages := ParseReceived();
      if messages.Err? {
        return Err(messages.thrown);
      }
      if |messages.value| > 0 {
        events := events + [Delivered(messages.value)];
      }
      r := Ok(());
    }

    /** `parse()`: flips the receive buffer and runs the parser from the
        mark, message after message, while bytes remain; a Partial
        message sends the position back to the mark and stops the loop; a
        Garbled report goes to the callback and the loop goes on from where
        the parser left the position; then `compact()` keeps the bytes not
        consumed for the next read. Any other exception the parser throws
        escapes, leaving the buffer flipped. */
    method ParseReceived() returns (r: Result<seq<T>>)
      requires Valid()
      modifies rx, rx.data, this`events
      ensures Valid()
      ensures var s := old(rx.data[..rx.position]);
        var got := Receive(parser, s, 0);
        && events == old(events) + Reports(got.items)
        && (got.thrown.None? ==>
              && r == Ok(Messages(got.items))
              && rx.position == |s| - got.rest && rx.limit == rx.data.Length && rx.mark == -1
              && rx.data[..rx.position] == s[got.rest..]
              && rx.data[rx.position..] == old(rx.data[..])[rx.position..])
        && (got.thrown.Some? ==>
              && r == Err(got.thrown.value)
              && rx.data[..] == old(rx.data[..]) && rx.limit == |s|
              && rx.position == parser(View(s, got.rest)).position)
    {
      rx.Flip();
      assert rx.Window() == old(rx.data[..rx.position]);
      r := ParseAll();
      if r.Ok? {
        rx.Compact();
      }
    }

    /** The loop of `parse()` over the flipped buffer. */
    method ParseAll() returns (r: Result<seq<T>>)
      requires Valid()
      modifies rx`position, rx`mark, this`events
      ensures Valid()
      ensures var got := Receive(parser, rx.Window(), old(rx.position));
        && events == old(events) + Reports(got.items)
        && rx.limit == old(rx.limit)
        && (got.thrown.None? ==> r == Ok(Messages(got.items)) && rx.position == got.rest)
        && (got.thrown.Some? ==>
              r == Err(got.thrown.value) && rx.position == parser(View(rx.Window(), got.rest)).position)
    {
      ghost var s := rx.Window();
      ghost var goal := Receive(parser, s, rx.position);
      ghost var items: seq<ParseOutcome<T>> := [];
      var messages: seq<T> := [];
      while rx.HasRemaining()
        invariant Valid() && rx.limit == old(rx.limit) && rx.Window() == s
        invariant goal == Then(items, Receive(parser, s, rx.position))
        invariant messages == Messages(items)
        invariant events == old(events) + Reports(items)
        decreases rx.limit - rx.position
      {
        var p := rx.position;
        var out := ParseOne();
        match out.outcome
        case Partial =>
          break;
        case Crash(x) =>
          ThenNothing(items, Receive(parser, s, p));
          return Err(x);
        case Parsed(m) =>
          ReceiveStep(parser, s, p);
          ThenThen(items, [out.outcome], Receive(parser, s, out.position));
          MessagesAppend(items, [out.outcome]);
          ReportsAppend(items, [out.outcome]);
          assert Reports([out.outcome]) == [];
          items := items + [out.outcome];
          messages := messages + [m];
        case Garbled(text, data) =>
          ReceiveStep(parser, s, p);
          ThenThen(items, [out.outcome], Receive(parser, s, out.position));
          MessagesAppend(items, [out.outcome]);
          ReportsAppend(items, [out.outcome]);
          AppendRegroup(old(events), Reports(items), Reports([out.outcome]));
          items := items + [out.outcome];
          events := events + [Reported(text, data)];
      }
      ThenNothing(items, Receive(parser, s, rx.position));
      r := Ok(messages);
    }

    /** One turn of the loop of `parse()`: mark, parse, and on a Partial
        message reset to the mark. */
    method ParseOne() returns (out: Parse<T>)
      requires Valid() && rx.HasRemaining()
      modifies rx`position, rx`mark
      ensures Valid() && rx.limit == old(rx.limit)
      ensures out == parser(View(rx.Window(), old(rx.position)))
      ensures out.position <= rx.limit
      ensures out.outcome.Partial? ==> rx.position == old(rx.position)
      ensures !out.outcome.Partial? ==> rx.position == out.position
    {
      rx.Mark();
      var v := View(rx.Window(), rx.position);
      assert v.Valid();
      out := parser(v);
      var _ := rx.SetPosition(out.position);
      if out.outcome.Partial? {
        var _ := rx.Reset();
      }
    }

    /** `write(ByteBuffer)` on the head of the queue: true when it is
        written whole, false when a write takes nothing. */
    method WriteHead() returns (r: Result<bool>)
      requires txBuffers != []
      modifies this`txBuffers, channel`wire, channel`replies
      ensures var t := Transmit(old(txBuffers[0]), old(channel.replies), channel.open);
        && channel.wire == old(channel.wire) + t.written
        && channel.replies == t.replies
        && txBuffers == [t.left] + old(txBuffers[1..])
        && r == (if t.outcome == Done then Ok(true) else if t.outcome == Stalled then Ok(false) else Err(IoFailure))
    {
      ghost var goal := Transmit(txBuffers[0], channel.replies, channel.open);
      ghost var written: seq<byte> := [];
      while txBuffers[0] != []
        invariant txBuffers != [] && txBuffers[1..] == old(txBuffers[1..])
        invariant channel.wire == old(channel.wire) + written
        invariant var u := Transmit(txBuffers[0], channel.replies, channel.open);
          goal == Tx(written + u.written, u.left, u.replies, u.outcome)
        decreases |channel.replies|, |txBuffers[0]|
      {
        ghost var before, head := written, txBuffers[0];
        var once := WriteOnce();
        if once.Err? {
          return Err(once.thrown);
        }
        var n := once.value;
        if n == 0 {
          return Ok(false);
        }
        written := written + head[..n];
        AppendRegroup(old(channel.wire), before, head[..n]);
        ghost var u := Transmit(txBuffers[0], channel.replies, channel.open);
        AppendRegroup(before, head[..n], u.written);
      }
      return Ok(true);
    }

    /** One `channel.write` of the head of the queue, which has bytes left:
        how many bytes it took, and the rest of the write. */
    method WriteOnce() returns (r: Result<nat>)
      requires txBuffers != [] && txBuffers[0] != []
      modifies this`txBuffers, channel`wire, channel`replies
      ensures var t := Transmit(old(txBuffers[0]), old(channel.replies), channel.open);
        && |channel.replies| <= |old(channel.replies)|
        && (r.Err? ==>
              r == Err(IoFailure) && t == Tx([], old(txBuffers[0]), channel.replies, Failed) &&
              txBuffers == old(txBuffers) && channel.wire == old(channel.wire))
        && (r == Ok(0) ==>
              t == Tx([], old(txBuffers[0]), channel.replies, Stalled) &&
              txBuffers == old(txBuffers) && channel.wire == old(channel.wire))
        && (r.Ok? && r.value > 0 ==>
              var n := r.value;
              && n <= |old(txBuffers[0])|
              && txBuffers == [old(txBuffers[0])[n..]] + old(txBuffers[1..])
              && channel.wire == old(channel.wire) + old(txBuffers[0])[..n]
              && (var u := Transmit(txBuffers[0], channel.replies, channel.open);
                  t == Tx(old(txBuffers[0])[..n] + u.written, u.left, u.replies, u.outcome))
              && (|channel.replies| == |old(channel.replies)| ==> txBuffers[0] == []))
    {
      var head := txBuffers[0];
      ghost var replies := channel.replies;
      r := channel.Write(head);
      if r.Ok? && r.value > 0 {
        var n := r.value;
        txBuffers := [head[n..]] + txBuffers[1..];
        if replies != [] {
          TransmitStep(head, replies, n);
        }
      }
    }

    /** `flush()`: writes the queue from its head, dropping each buffer once
        it is written whole; a write that takes nothing asks for write
        interest and stops, which throws NullPointerException on a
        connection without a selection key. */
    method Flush() returns (r: Result<()>)
      modifies this`txBuffers, this`writeInterest, channel`wire, channel`replies
      ensures var d := Drain(old(txBuffers), old(channel.replies), registered, channel.open);
        && txBuffers == d.queue
        && channel.wire == old(channel.wire) + d.written
        && channel.replies == d.replies
        && writeInterest == (old(writeInterest) || d.interest)
        && r == Raised(d.outcome)
    {
      ghost var goal := Drain(txBuffers, channel.replies, registered, channel.open);
      ghost var written: seq<byte> := [];
      assert goal == After(written, goal);
      r := Ok(());
      while txBuffers != []
        invariant channel.wire == old(channel.wire) + written
        invariant writeInterest == old(writeInterest)
        invariant goal == After(written, Drain(txBuffers, channel.replies, registered, channel.open))
        decreases |txBuffers|
      {
        ghost var queue, replies, before := txBuffers, channel.replies, written;
        ghost var t := DrainStep(queue, replies, registered, channel.open);
        var head := WriteHead();
        AppendRegroup(old(channel.wire), before, t.written);
        if head.Err? {
          r := Err(head.thrown);
          break;
        }
        if !head.value {
          if !registered {
            r := Err(Unchecked(NullPointerException));
            break;
          }
          writeInterest := true;
          break;
        }
        written := written + t.written;
        txBuffers := txBuffers[1..];
        AfterAfter(before, t.written, Drain(txBuffers, channel.replies, registered, channel.open));
      }
    }

    /** `close()`: flushes until the queue is empty or a write throws
        IOException (which is swallowed), then closes the channel and
        cancels the selection key; without a selection key it throws
        NullPointerException instead, at the latest when it reaches the
        key. */
    method Close() returns (r: Result<()>)
      modifies this`txBuffers, this`writeInterest, this`cancelled, channel`wire, channel`replies, channel`open
      ensures var c := Closing(old(txBuffers), old(channel.replies), registered, old(channel.open));
        && txBuffers == c.queue
        && channel.wire == old(channel.wire) + c.written
        && channel.replies == c.replies
        && writeInterest == (old(writeInterest) || c.interest)
      ensures registered ==> r == Ok(()) && !channel.open && cancelled
      ensures !registered ==>
                r == Err(Unchecked(NullPointerException)) && channel.open == old(channel.open) && cancelled == old(cancelled)
    {
      var _ := FlushAll();
      if !registered {
        return Err(Unchecked(NullPointerException));
      }
      channel.open := false;
      cancelled := true;
      r := Ok(());
    }

    /** The drain loop of `close()`: `flush()` while the queue is not empty,
        until a flush throws. IOException ends the loop quietly;
        NullPointerException escapes. */
    method FlushAll() returns (r: Result<()>)
      modifies this`txBuffers, this`writeInterest, channel`wire, channel`replies
      ensures var c := Closing(old(txBuffers), old(channel.replies), registered, old(channel.open));
        && txBuffers == c.queue
        && channel.wire == old(channel.wire) + c.written
        && channel.replies == c.replies
        && writeInterest == (old(writeInterest) || c.interest)
        && r == (if c.outcome == Unregistered then Err(Unchecked(NullPointerException)) else Ok(()))
    {
      ghost var goal := Closing(txBuffers, channel.replies, registered, channel.open);
      ghost var written: seq<byte> := [];
      ghost var interest := false;
      while txBuffers != []
        invariant channel.wire == old(channel.wire) + written
        invariant writeInterest == (old(writeInterest) || interest)
        invariant var c := Closing(txBuffers, channel.replies, registered, channel.open);
          goal == Flushed(written + c.written, c.queue, c.replies, c.outcome, interest || c.interest)
        decreases |channel.replies|, |txBuffers|
      {
        ghost var d := ClosingTurn(txBuffers, channel.replies, registered, channel.open);
        ghost var before := written;
        var f := Flush();
        written := written + d.written;
        AppendRegroup(old(channel.wire), before, d.written);
        if f.Err? {
          if f.thrown != IoFailure {
            return f;
          }
          break;
        }
        if txBuffers != [] {
          interest := true;
          ghost var c := Closing(txBuffers, channel.replies, registered, channel.open);
          AppendRegroup(before, d.written, c.written);
        }
      }
      r := Ok(());
    }

    /** `send(buffer)`: reports the buffer to the callback and queues it;
        IllegalStateException without a selection key; otherwise flushes,
        and closes the connection if a write throws IOException. */
    method Send(buffer: seq<byte>) returns (r: Result<()>)
      modifies this`events, this`txBuffers, this`writeInterest, this`cancelled, channel`wire, channel`replies, channel`open
      ensures events == old(events) + [SentBuffer(buffer)]
      ensures !registered ==>
                && r == Err(Unchecked(IllegalStateException))
                && txBuffers == old(txBuffers) + [buffer]
                && channel.wire == old(channel.wire) && channel.replies == old(channel.replies)
                && writeInterest == old(writeInterest) && cancelled == old(cancelled) && channel.open == old(channel.open)
      ensures registered ==> var f := FlushOrClose(old(txBuffers) + [buffer], old(channel.replies), old(channel.open));
                && r == Ok(())
                && txBuffers == f.queue
                && channel.wire == old(channel.wire) + f.written
                && channel.replies == f.replies
                && writeInterest == (old(writeInterest) || f.interest)
                && channel.open == (old(channel.open) && f.outcome != Failed)
                && cancelled == (old(cancelled) || f.outcome == Failed)
    {
      events := events + [SentBuffer(buffer)];
      txBuffers := txBuffers + [buffer];
      if !registered {
        return Err(Unchecked(IllegalStateException));
      }
      FlushThenClose();
      r := Ok(());
    }

    /** `write(SelectionKey)`: the channel is ready for writing; flush, close
        on IOException, and take write interest away once the queue is
        empty. The selector calls it with the connection's own key, so the
        connection is registered. Changing the interest of a key that
        `close()` has cancelled throws CancelledKeyException, and the
        interest stays as the flush left it. */
    method WriteReady() returns (r: Result<()>)
      requires registered
      modifies this`txBuffers, this`writeInterest, this`cancelled, channel`wire, channel`replies, channel`open
      ensures var f := FlushOrClose(old(txBuffers), old(channel.replies), old(channel.open));
        && txBuffers == f.queue
        && channel.wire == old(channel.wire) + f.written
        && channel.replies == f.replies
        && channel.open == (old(channel.open) && f.outcome != Failed)
        && cancelled == (old(cancelled) || f.outcome == Failed)
        && (f.queue != [] ==> r == Ok(()) && writeInterest == (old(writeInterest) || f.interest))
        && (f.queue == [] && !cancelled ==> r == Ok(()) && !writeInterest)
        && (f.queue == [] && cancelled ==>
              r == Err(Unchecked(CancelledKeyException)) && writeInterest == (old(writeInterest) || f.interest))
    {
      FlushThenClose();
      if txBuffers == [] {
        if cancelled {
          return Err(Unchecked(CancelledKeyException));
        }
        writeInterest := false;
      }
      r := Ok(());
    }

    /** The `try { flush(); } catch (IOException e) { close(); }` that
        `send` and `write(SelectionKey)` share. */
    method FlushThenClose()
      requires registered
      modifies this`txBuffers, this`writeInterest, this`cancelled, channel`wire, channel`replies, channel`open
      ensures var f := FlushOrClose(old(txBuffers), old(channel.replies), old(channel.open));
        && txBuffers == f.queue
        && channel.wire == old(channel.wire) + f.written
        && channel.replies == f.replies
        && writeInterest == (old(writeInterest) || f.interest)
        && channel.open == (old(channel.open) && f.outcome != Failed)
        && cancelled == (old(cancelled) || f.outcome == Failed)
    {
      var f := Flush();
      if f.Err? {
        var _ := Close();
      }
    }

    /** `timeout()`: the connection has been idle; tell the callback. */
    method Timeout()
      modifies this`events
      ensures events == old(events) + [WentIdle]
    {
      events := events + [WentIdle];
    }
  }
}
