/** `MessageHeaderParser`, the early length-prefixed framer: each message is
    `L=<d>|` followed by `d` payload bytes, `d` one decimal digit. Like the
    newline framers it flips the caller's buffer, frames what it can and
    compacts the rest to the front. A header byte that does not match ends
    that header attempt right after it; a header or payload cut short by the
    limit is left for later by resetting to the mark set where its header
    began; a length byte that is not a digit throws NumberFormatException,
    which escapes `parse` before the buffer is compacted. */
module MessageHeader {
  import opened Bytes
  import opened Buffers
  import opened Parsing

  const L: byte := Ascii('L')
  const EQUALS: byte := Ascii('=')
  const BAR: byte := Ascii('|')

  /** `match(buffer, c)`: one relative `get()`, compared with `c`. */
  function MatchByte(s: seq<byte>, p: nat, c: byte): (r: Step<bool>)
    requires p <= |s|
  {
    if p == |s| then Step(Err(BufferUnderflow), p) else Step(Ok(s[p] == c), p + 1)
  }

  /** `header(buffer)`: `L`, `=`, a length read with
      `Integer.parseInt(Character.toString((char) b))`, then `|`. A byte that
      does not match gives -1 right after it. */
  function ReadHeader(s: seq<byte>, p: nat): (r: Step<int>)
    requires p <= |s|
    ensures p <= r.position <= |s|
  {
    var l := MatchByte(s, p, L);
    if l.result.Err? then Step(Err(l.result.thrown), l.position)
    else if !l.result.value then Step(Ok(-1), l.position)
    else
      var e := MatchByte(s, p + 1, EQUALS);
      if e.result.Err? then Step(Err(e.result.thrown), e.position)
      else if !e.result.value then Step(Ok(-1), e.position)
      else if p + 2 == |s| then Step(Err(BufferUnderflow), p + 2)
      else
        match ParseInt([s[p + 2]])
        case None => Step(Err(Unchecked(NumberFormatException)), p + 3)
        case Some(len) =>
          var b := MatchByte(s, p + 3, BAR);
          if b.result.Err? then Step(Err(b.result.thrown), b.position)
          else if !b.result.value then Step(Ok(-1), b.position)
          else Step(Ok(len), b.position)
  }

  /** How `process(buffer)` ends: the payloads framed, or the exception that
      escaped it; the position; and the mark. */
  datatype Run = Run(result: Result<seq<seq<byte>>>, position: nat, mark: int)

  /** `frames` framed ahead of a run; an exception discards them. */
  function PrependAll(frames: seq<seq<byte>>, r: Run): (q: Run)
    ensures q.position == r.position && q.mark == r.mark
    ensures r.result.Ok? <==> q.result.Ok?
  {
    if r.result.Ok? then r.(result := Ok(frames + r.result.value)) else r
  }

  /** One turn of the loop of `process(buffer)` at position `p`: it ends the
      loop with the run's outcome, skips to `next` after a header that does
      not match, or frames a payload ending at `next`. */
  datatype Turn = Done(run: Run) | Skip(next: nat) | Framed(payload: seq<byte>, next: nat)

  /** The turn taken at `p`, with the mark set there: the `try` around the
      header and the one around the payload. */
  function NextTurn(s: seq<byte>, p: nat): (t: Turn)
    requires p < |s|
    ensures t.Done? ==> p <= t.run.position <= |s| && t.run.mark == p
    ensures !t.Done? ==> p < t.next <= |s|
  {
    var h := ReadHeader(s, p);
    match h.result
    case Err(x) =>
      if x == BufferUnderflow then Done(Run(Ok([]), p, p))
      else Done(Run(Err(x), h.position, p))
    case Ok(n) =>
      if n < 0 then Skip(h.position)
      else if n > |s| - h.position then Done(Run(Ok([]), p, p))
      else Framed(s[h.position..h.position + n], h.position + n)
  }

  /** The loop of `process(buffer)` from position `p` with the mark at `m`:
      turns are taken while bytes remain. */
  function Frames(s: seq<byte>, p: nat, m: int): (r: Run)
    requires p <= |s|
    ensures p <= r.position <= |s|
    decreases |s| - p
  {
    if p == |s| then Run(Ok([]), p, m)
    else
      match NextTurn(s, p)
      case Done(r) => r
      case Skip(q) => Frames(s, q, p)
      case Framed(payload, q) => PrependAll([payload], Frames(s, q, p))
  }

  /** `match(buffer, c)`. */
  method MatchByteAt(buf: ByteBuffer, c: byte) returns (r: Result<bool>)
    requires buf.Valid()
    modifies buf`position
    ensures buf.Valid()
    ensures Step(r, buf.position) == MatchByte(buf.Window(), old(buf.position), c)
  {
    var b := buf.Get();
    match b {
      case Err(x) => return Err(x);
      case Ok(v) => return Ok(v == c);
    }
  }

  /** `header(buffer)`. */
  method Header(buf: ByteBuffer) returns (r: Result<int>)
    requires buf.Valid()
    modifies buf`position
    ensures buf.Valid()
    ensures Step(r, buf.position) == ReadHeader(buf.Window(), old(buf.position))
  {
    var l :- MatchByteAt(buf, L);
    if !l {
      return Ok(-1);
    }
    var e :- MatchByteAt(buf, EQUALS);
    if !e {
      return Ok(-1);
    }
    var d :- buf.Get();
    var len: int;
    match ParseInt([d]) {
      case None =>
        return Err(Unchecked(NumberFormatException));
      case Some(v) =>
        len := v;
    }
    var b :- MatchByteAt(buf, BAR);
    if !b {
      return Ok(-1);
    }
    return Ok(len);
  }

  /** One turn of the loop: mark, then the header and the payload, each in
      the source's `try`, a BufferUnderflowException resetting to the mark. */
  method TakeTurn(buf: ByteBuffer) returns (t: Turn)
    requires buf.Valid() && buf.position < buf.limit
    modifies buf`position, buf`mark
    ensures buf.Valid() && t == NextTurn(buf.Window(), old(buf.position))
    ensures buf.mark == old(buf.position)
    ensures buf.position == if t.Done? then t.run.position else t.next
  {
    var p := buf.position;
    buf.Mark();
    var length := Header(buf);
    if length.Err? {
      if length.thrown == BufferUnderflow {
        var _ := buf.Reset();
        return Done(Run(Ok([]), p, p));
      }
      return Done(Run(Err(length.thrown), buf.position, p));
    }
    if length.value < 0 {
      return Skip(buf.position);
    }
    var payload := buf.GetBytes(length.value);
    if payload.Err? {
      var _ := buf.Reset();
      return Done(Run(Ok([]), p, p));
    }
    return Framed(payload.value, buf.position);
  }

  /** `process(buffer)`: the framing loop, whose messages, position and
      mark are those of `Frames`. */
  method Process(buf: ByteBuffer) returns (r: Result<seq<Message>>)
    requires buf.Valid()
    modifies buf`position, buf`mark
    ensures buf.Valid()
    ensures var run := Frames(buf.Window(), old(buf.position), old(buf.mark));
            && buf.position == run.position && buf.mark == run.mark
            && (run.result.Ok? ==> r == Ok(Wrap(run.result.value, payload => Message(payload))))
            && (run.result.Err? ==> r == Err(run.result.thrown))
  {
    ghost var w := buf.Window();
    ghost var whole := Frames(w, buf.position, buf.mark);
    ghost var frames: seq<seq<byte>> := [];
    var result: seq<Message> := [];
    PrependNothing(whole);
    while buf.position < buf.limit
      invariant buf.Valid() && buf.Window() == w
      invariant result == Wrap(frames, payload => Message(payload))
      invariant whole == PrependAll(frames, Frames(w, buf.position, buf.mark))
      decreases buf.limit - buf.position
    {
      ghost var here := Frames(w, buf.position, buf.mark);
      var t := TakeTurn(buf);
      match t {
        case Done(run) =>
          if run.result.Err? {
            return Err(run.result.thrown);
          }
          Stopped(whole, frames, here);
          return Ok(result);
        case Skip(_) =>
        case Framed(payload, _) =>
          PrependAllAppend(frames, payload, Frames(w, buf.position, buf.mark));
          frames := frames + [payload];
          result := result + [Message(payload)];
      }
    }
    Stopped(whole, frames, Frames(w, buf.position, buf.mark));
    return Ok(result);
  }

  /** `parse(buffer)`: flip, frame, and compact when framing ended normally.
      A NumberFormatException escapes with the buffer still flipped, the
      position past the bad length byte and the mark at its header. */
  method Parse(buf: ByteBuffer) returns (r: Result<seq<Message>>)
    requires buf.Valid()
    modifies buf, buf.data
    ensures buf.Valid()
    ensures var run := Frames(old(buf.data[..buf.position]), 0, -1);
            && (run.result.Ok? ==>
                  && r == Ok(Wrap(run.result.value, payload => Message(payload)))
                  && buf.data[..buf.position] == old(buf.data[..buf.position])[run.position..]
                  && buf.limit == buf.data.Length && buf.mark == -1)
            && (run.result.Err? ==>
                  && r == Err(run.result.thrown)
                  && buf.data[..] == old(buf.data[..])
                  && buf.limit == old(buf.position)
                  && buf.position == run.position && buf.mark == run.mark)
  {
    buf.Flip();
    r := Process(buf);
    if r.Ok? {
      buf.Compact();
    }
  }

  lemma PrependAllAppend(frames: seq<seq<byte>>, payload: seq<byte>, r: Run)
    ensures PrependAll(frames, PrependAll([payload], r)) == PrependAll(frames + [payload], r)
  {
    if r.result.Ok? {
      assert frames + ([payload] + r.result.value) == (frames + [payload]) + r.result.value;
    }
  }

  lemma PrependNothing(r: Run)
    ensures PrependAll([], r) == r
  {
    if r.result.Ok? {
      assert [] + r.result.value == r.result.value;
    }
  }

  /** A run that framed nothing more leaves `frames` as the whole result. */
  lemma Stopped(whole: Run, frames: seq<seq<byte>>, r: Run)
    requires whole == PrependAll(frames, r) && r.result == Ok([])
    ensures whole == Run(Ok(frames), r.position, r.mark)
  {
    assert frames + [] == frames;
  }

  /** The header announcing a payload of `n` bytes. */
  function HeaderBytes(n: nat): (h: seq<byte>)
    requires n <= 9
    ensures |h| == 4
  {
    [L, EQUALS, Ascii('0') + n as byte, BAR]
  }

  /** A message as the sender lays it out: the header, then the payload,
      whose length must fit the one digit. */
  function Encode(payload: seq<byte>): (e: seq<byte>)
    requires |payload| <= 9
    ensures |e| == |payload| + 4
  {
    HeaderBytes(|payload|) + payload
  }

  /** Messages laid out one after the other. */
  function EncodeAll(payloads: seq<seq<byte>>): (e: seq<byte>)
    requires forall k :: 0 <= k < |payloads| ==> |payloads[k]| <= 9
  {
    if payloads == [] then [] else Encode(payloads[0]) + EncodeAll(payloads[1..])
  }

  /** A run moved `k` bytes further on. */
  function ShiftRun(r: Run, k: nat): (q: Run)
    ensures q.result == r.result
  {
    Run(r.result, r.position + k, r.mark + k)
  }

  /** `Integer.parseInt` of a one-character string: the digit's value, or
      failure for anything else, a lone sign included. */
  lemma ParseIntOneByte(b: byte)
    ensures ParseInt([b]) == if IsDigit(b) then Some((b - Ascii('0')) as int) else None
  {
    assert [b][0] == b;
    if IsDigit(b) {
      assert AllDigits([b]);
      assert [b][..0] == [];
      assert DigitsValue([b]) == (b - Ascii('0')) as int;
    }
  }

  /** A header is read as a length of 0 or more exactly when the next four
      bytes are the header announcing it. */
  lemma ReadHeaderMeaning(s: seq<byte>, p: nat, n: int)
    requires p <= |s|
    ensures ReadHeader(s, p).result == Ok(n) && n >= 0 <==>
              0 <= n <= 9 && p + 4 <= |s| && s[p..p + 4] == HeaderBytes(n)
    ensures ReadHeader(s, p).result == Ok(n) && n >= 0 ==> ReadHeader(s, p).position == p + 4
  {
    if p + 2 < |s| {
      ParseIntOneByte(s[p + 2]);
    }
    if 0 <= n <= 9 && p + 4 <= |s| && s[p..p + 4] == HeaderBytes(n) {
      assert s[p] == L && s[p + 1] == EQUALS && s[p + 2] == Ascii('0') + n as byte && s[p + 3] == BAR;
    }
    if ReadHeader(s, p).result == Ok(n) && n >= 0 {
      assert s[p..p + 4] == [s[p], s[p + 1], s[p + 2], s[p + 3]];
    }
  }

  /** A whole message at `p` is framed by one turn. */
  lemma EncodedTurn(s: seq<byte>, p: nat, payload: seq<byte>)
    requires |payload| <= 9 && p + |payload| + 4 <= |s|
    requires s[p..p + |payload| + 4] == Encode(payload)
    ensures NextTurn(s, p) == Framed(payload, p + |payload| + 4)
  {
    var e := Encode(payload);
    assert s[p..p + 4] == e[..4] == HeaderBytes(|payload|);
    assert s[p + 4..p + 4 + |payload|] == e[4..] == payload;
    ReadHeaderMeaning(s, p, |payload|);
  }

  /** A message cut short by the end of the bytes takes a turn that stops
      the loop at its start. */
  lemma CutTurn(s: seq<byte>, p: nat, payload: seq<byte>, k: nat)
    requires |payload| <= 9 && 0 < k < |payload| + 4 && p + k == |s|
    requires s[p..] == Encode(payload)[..k]
    ensures NextTurn(s, p) == Done(Run(Ok([]), p, p))
  {
    var e := Encode(payload);
    assert s[p] == e[0] == L;
    if k > 1 {
      assert s[p + 1] == e[1] == EQUALS;
    }
    if k > 2 {
      assert s[p + 2] == e[2] == Ascii('0') + |payload| as byte;
      ParseIntOneByte(s[p + 2]);
    }
    if k > 3 {
      assert s[p + 3] == e[3] == BAR;
    }
  }

  /** Messages laid out one after the other, followed by the first `k`
      bytes of another (none when `k` is 0), are framed back exactly, and
      the position stops at the start of the one cut short. */
  lemma {:induction false} FramesEncoded(s: seq<byte>, p: nat, m: int, payloads: seq<seq<byte>>,
                                         next: seq<byte>, k: nat)
    requires forall i :: 0 <= i < |payloads| ==> |payloads[i]| <= 9
    requires |next| <= 9 && k < |next| + 4
    requires p <= |s| && s[p..] == EncodeAll(payloads) + Encode(next)[..k]
    ensures Frames(s, p, m).result == Ok(payloads)
    ensures Frames(s, p, m).position == |s| - k
    decreases |payloads|
  {
    if payloads == [] {
      FramesCut(s, p, m, next, k);
    } else {
      var x := payloads[0];
      var q := p + |x| + 4;
      assert EncodeAll(payloads) + Encode(next)[..k] == Encode(x) + (EncodeAll(payloads[1..]) + Encode(next)[..k]);
      Ahead(s, p, Encode(x), EncodeAll(payloads[1..]) + Encode(next)[..k]);
      EncodedTurn(s, p, x);
      FramesTurn(s, p, m, x, q);
      FramesEncoded(s, q, p, payloads[1..], next, k);
      assert [x] + payloads[1..] == payloads;
    }
  }

  /** Only part of a message left: nothing is framed, and the position
      stays at its start. */
  lemma FramesCut(s: seq<byte>, p: nat, m: int, next: seq<byte>, k: nat)
    requires |next| <= 9 && k < |next| + 4
    requires p <= |s| && s[p..] == Encode(next)[..k]
    ensures Frames(s, p, m).result == Ok([]) && Frames(s, p, m).position == |s| - k
  {
    if k > 0 {
      CutTurn(s, p, next, k);
    }
  }

  /** A turn that frames a payload puts it ahead of the rest of the run. */
  lemma FramesTurn(s: seq<byte>, p: nat, m: int, payload: seq<byte>, q: nat)
    requires p < |s| && NextTurn(s, p) == Framed(payload, q)
    ensures Frames(s, p, m) == PrependAll([payload], Frames(s, q, p))
  {
  }

  /** A turn that ends the loop ends the run. */
  lemma FramesDone(s: seq<byte>, p: nat, m: int, r: Run)
    requires p < |s| && NextTurn(s, p) == Done(r)
    ensures Frames(s, p, m) == r
  {
  }

  /** A turn that skips a header goes on after it, with the mark at it. */
  lemma FramesSkip(s: seq<byte>, p: nat, m: int, q: nat)
    requires p < |s| && NextTurn(s, p) == Skip(q)
    ensures Frames(s, p, m) == Frames(s, q, p)
  {
  }

  /** Bytes `a` then `b` ahead of `p`, each seen on its own. */
  lemma Ahead(s: seq<byte>, p: nat, a: seq<byte>, b: seq<byte>)
    requires p <= |s| && s[p..] == a + b
    ensures p + |a| <= |s| && s[p..p + |a|] == a && s[p + |a|..] == b
  {
    assert s[p..p + |a|] == s[p..][..|a|];
    assert s[p + |a|..] == s[p..][|a|..];
  }

  /** The sender's layout read back: every whole message is framed, in
      order, and a message still in transit is left for the next read. */
  lemma EncodeRoundTrip(payloads: seq<seq<byte>>, next: seq<byte>, k: nat)
    requires forall i :: 0 <= i < |payloads| ==> |payloads[i]| <= 9
    requires |next| <= 9 && k < |next| + 4
    ensures var s := EncodeAll(payloads) + Encode(next)[..k];
            Frames(s, 0, -1) == Run(Ok(payloads), |EncodeAll(payloads)|, Frames(s, 0, -1).mark)
  {
    var s := EncodeAll(payloads) + Encode(next)[..k];
    assert s[0..] == s;
    FramesEncoded(s, 0, -1, payloads, next, k);
  }

  /** A header read that did not run out of bytes reads the same with more
      bytes after them. */
  lemma ReadHeaderExtend(a: seq<byte>, b: seq<byte>, p: nat)
    requires p <= |a| && ReadHeader(a, p).result != Err(BufferUnderflow)
    ensures ReadHeader(a + b, p) == ReadHeader(a, p)
  {
    var h := ReadHeader(a, p);
    assert p < |a| && (a + b)[p] == a[p];
    if a[p] == L {
      assert p + 1 < |a| && (a + b)[p + 1] == a[p + 1];
      if a[p + 1] == EQUALS {
        assert p + 2 < |a| && (a + b)[p + 2] == a[p + 2];
        if ParseInt([a[p + 2]]).Some? {
          assert p + 3 < |a| && (a + b)[p + 3] == a[p + 3];
        }
      }
    }
  }

  /** A turn that did not stop for want of bytes is taken alike with more
      bytes after them. */
  lemma NextTurnExtend(a: seq<byte>, b: seq<byte>, p: nat)
    requires p < |a| && NextTurn(a, p) != Done(Run(Ok([]), p, p))
    ensures NextTurn(a + b, p) == NextTurn(a, p)
  {
    var h := ReadHeader(a, p);
    ReadHeaderExtend(a, b, p);
    if h.result.Ok? && h.result.value >= 0 {
      var n := h.result.value;
      assert (a + b)[h.position..h.position + n] == a[h.position..h.position + n];
    }
  }

  /** Where the loop stands once it has started: the mark it came in with
      is overwritten by the first turn. */
  lemma FramesMarkFree(s: seq<byte>, p: nat, m: int, m': int)
    requires p < |s|
    ensures Frames(s, p, m) == Frames(s, p, m')
  {
  }

  lemma PrependAllConcat(f: seq<seq<byte>>, g: seq<seq<byte>>, r: Run)
    ensures PrependAll(f, PrependAll(g, r)) == PrependAll(f + g, r)
  {
    if r.result.Ok? {
      assert f + (g + r.result.value) == (f + g) + r.result.value;
    }
  }

  /** More bytes after the end change none of the messages already framed:
      the loop goes on from where it stopped. */
  lemma {:induction false} FramesExtend(a: seq<byte>, b: seq<byte>, p: nat, m: int)
    requires p <= |a| && Frames(a, p, m).result.Ok?
    ensures var r := Frames(a, p, m);
            Frames(a + b, p, m) == PrependAll(r.result.value, Frames(a + b, r.position, r.mark))
    decreases |a| - p
  {
    var r := Frames(a, p, m);
    if p == |a| {
      PrependNothing(Frames(a + b, p, m));
    } else {
      match NextTurn(a, p)
      case Done(run) =>
        assert run == Run(Ok([]), p, p);
        FramesMarkFree(a + b, p, m, p);
        PrependNothing(Frames(a + b, p, p));
      case Skip(q) =>
        NextTurnExtend(a, b, p);
        FramesExtend(a, b, q, p);
      case Framed(x, q) =>
        NextTurnExtend(a, b, p);
        FramesExtend(a, b, q, p);
        var t := Frames(a, q, p);
        PrependAllConcat([x], t.result.value, Frames(a + b, t.position, t.mark));
    }
  }

  /** A turn moved `k` bytes further on. */
  function ShiftTurn(t: Turn, k: nat): (u: Turn)
    ensures u.Framed? <==> t.Framed?
  {
    match t
    case Done(r) => Done(ShiftRun(r, k))
    case Skip(q) => Skip(q + k)
    case Framed(payload, q) => Framed(payload, q + k)
  }

  /** Reading a header behind a prefix `c` reads the same, `|c|` further on. */
  lemma ReadHeaderShift(c: seq<byte>, s: seq<byte>, p: nat)
    requires p <= |s|
    ensures ReadHeader(c + s, |c| + p) ==
              Step(ReadHeader(s, p).result, |c| + ReadHeader(s, p).position)
  {
    forall i | p <= i < |s|
      ensures (c + s)[|c| + i] == s[i]
    {
    }
  }

  /** A turn behind a prefix `c` is the same turn, `|c|` further on. */
  lemma NextTurnShift(c: seq<byte>, s: seq<byte>, p: nat)
    requires p < |s|
    ensures NextTurn(c + s, |c| + p) == ShiftTurn(NextTurn(s, p), |c|)
  {
    var h := ReadHeader(s, p);
    ReadHeaderShift(c, s, p);
    if h.result.Ok? && h.result.value >= 0 && h.result.value <= |s| - h.position {
      TurnFramedShift(c, s, p, h.result.value, h.position);
    }
  }

  lemma TurnFramedShift(c: seq<byte>, s: seq<byte>, p: nat, n: int, q: nat)
    requires p < |s| && ReadHeader(s, p) == Step(Ok(n), q) && 0 <= n <= |s| - q
    requires ReadHeader(c + s, |c| + p) == Step(Ok(n), |c| + q)
    ensures NextTurn(c + s, |c| + p) == Framed(s[q..q + n], |c| + q + n)
  {
    SliceShift(c, s, q, q + n);
  }

  /** Framing behind a prefix `c` frames the same messages, `|c|` further on. */
  lemma {:induction false} FramesShift(c: seq<byte>, s: seq<byte>, p: nat, m: int)
    requires p <= |s|
    ensures Frames(c + s, |c| + p, |c| + m) == ShiftRun(Frames(s, p, m), |c|)
    decreases |s| - p
  {
    if p < |s| {
      NextTurnShift(c, s, p);
      match NextTurn(s, p)
      case Done(r) =>
        ShiftDone(c, s, p, m, r);
      case Skip(q) =>
        FramesShift(c, s, q, p);
        ShiftSkip(c, s, p, m, q);
      case Framed(x, q) =>
        FramesShift(c, s, q, p);
        ShiftFramed(c, s, p, m, x, q);
    }
  }

  lemma ShiftDone(c: seq<byte>, s: seq<byte>, p: nat, m: int, r: Run)
    requires p < |s| && NextTurn(s, p) == Done(r)
    requires NextTurn(c + s, |c| + p) == Done(ShiftRun(r, |c|))
    ensures Frames(c + s, |c| + p, |c| + m) == ShiftRun(Frames(s, p, m), |c|)
  {
    FramesDone(s, p, m, r);
    FramesDone(c + s, |c| + p, |c| + m, ShiftRun(r, |c|));
  }

  lemma ShiftSkip(c: seq<byte>, s: seq<byte>, p: nat, m: int, q: nat)
    requires p < |s| && NextTurn(s, p) == Skip(q)
    requires NextTurn(c + s, |c| + p) == Skip(|c| + q)
    requires Frames(c + s, |c| + q, |c| + p) == ShiftRun(Frames(s, q, p), |c|)
    ensures Frames(c + s, |c| + p, |c| + m) == ShiftRun(Frames(s, p, m), |c|)
  {
    FramesSkip(s, p, m, q);
    FramesSkip(c + s, |c| + p, |c| + m, |c| + q);
  }

  lemma ShiftFramed(c: seq<byte>, s: seq<byte>, p: nat, m: int, x: seq<byte>, q: nat)
    requires p < |s| && NextTurn(s, p) == Framed(x, q)
    requires NextTurn(c + s, |c| + p) == Framed(x, |c| + q)
    requires Frames(c + s, |c| + q, |c| + p) == ShiftRun(Frames(s, q, p), |c|)
    ensures Frames(c + s, |c| + p, |c| + m) == ShiftRun(Frames(s, p, m), |c|)
  {
    FramesTurn(s, p, m, x, q);
    FramesTurn(c + s, |c| + p, |c| + m, x, |c| + q);
  }

  /** Framing in chunks, as the parse/compact/read cycle does, frames the
      same messages as framing the whole stream at once: what `a` leaves
      unframed, followed by the next bytes `b`, gives the remaining ones. */
  lemma FramesChunked(a: seq<byte>, b: seq<byte>, m: int)
    requires Frames(a, 0, m).result.Ok?
    ensures var r := Frames(a, 0, m);
            var t := Frames(a[r.position..] + b, 0, r.mark - r.position);
            Frames(a + b, 0, m) == PrependAll(r.result.value, ShiftRun(t, r.position))
  {
    var r := Frames(a, 0, m);
    var c := a[..r.position];
    var s := a[r.position..] + b;
    FramesExtend(a, b, 0, m);
    assert a + b == c + s;
    FramesShift(c, s, 0, r.mark - r.position);
  }
}
