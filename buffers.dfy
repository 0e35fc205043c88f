/** The part of `java.nio.ByteBuffer` the framing code relies on, and the
    exceptions it and the parsers raise, turned into values. */
module Buffers {
  import opened Bytes

  /** What a call can throw. `BufferUnderflow`, `PartialMessage`,
      `GarbledMessage` and `IoFailure` are the exceptions the framing code
      catches; `Unchecked` is any other runtime exception, named by its class,
      which nothing in the core catches. A Java `null` is `None`. */
  datatype Thrown =
    | BufferUnderflow
    | PartialMessage
    | GarbledMessage(text: Option<Complaint>, data: Option<seq<byte>>)
    | IoFailure
    | Unchecked(exception: RuntimeException)

  /** What the text of a GarbledMessageException says: that a field is
      empty, or that its value is invalid. `Text` spells it out. */
  datatype Complaint = Empty(field: string) | Invalid(field: string, expected: string, value: seq<byte>) {
    function Text(): string {
      match this
      case Empty(field) => field + " is empty"
      case Invalid(field, expected, value) =>
        field + " is invalid, expected format " + expected + ": " + JavaText(value)
    }
  }

  /** The runtime exceptions, by class, that the core can raise and does not
      catch. */
  datatype RuntimeException =
    | BufferOverflowException
    | CancelledKeyException
    | IllegalArgumentException
    | IllegalStateException
    | IndexOutOfBoundsException
    | InvalidMarkException
    | NegativeArraySizeException
    | NullPointerException
    | NumberFormatException
    | StringIndexOutOfBoundsException

  /** A value, or what was thrown instead of it. */
  datatype Result<+T> = Ok(value: T) | Err(thrown: Thrown) {
    predicate IsFailure() {
      Err?
    }

    function PropagateFailure<U>(): Result<U>
      requires Err?
    {
      Err(thrown)
    }

    function Extract(): T
      requires Ok?
    {
      value
    }
  }

  /** The mark after `position(n)`: a mark beyond the new position is discarded. */
  function Reposition(mark: int, n: nat): (m: int)
    ensures m <= n
    ensures m == mark || m == -1
    ensures mark <= n ==> m == mark
  {
    if mark > n then -1 else mark
  }

  /** A heap byte buffer. `data` is the backing array (its length is the
      capacity); the buffer's invariant is `-1 <= mark <= position <= limit
      <= capacity`, with `mark == -1` for "no mark". Java arrays hold fewer
      than 2^31 elements, so every index fits an `int`. */
  class ByteBuffer {
    const data: array<byte>
    var position: nat
    var limit: nat
    var mark: int

    ghost predicate Valid()
      reads this
    {
      -1 <= mark <= position <= limit <= data.Length <= INT_MAX
    }

    /** The bytes a reader may see: those below the limit. */
    function Window(): (w: seq<byte>)
      reads this, data
      requires Valid()
      ensures |w| == limit
    {
      data[..limit]
    }

    function Remaining(): nat
      reads this
      requires Valid()
    {
      limit - position
    }

    predicate HasRemaining()
      reads this
      requires Valid()
    {
      position < limit
    }

    /** `ByteBuffer.allocate(capacity)`: zero-filled, position 0, limit at the capacity. */
    constructor Allocate(capacity: nat)
      requires capacity <= INT_MAX
      ensures Valid() && fresh(data)
      ensures data.Length == capacity && data[..] == seq(capacity, _ => 0)
      ensures position == 0 && limit == capacity && mark == -1
    {
      data := new byte[capacity](_ => 0);
      position, limit, mark := 0, capacity, -1;
    }

    /** Relative `get()`: the byte at the position, which moves past it;
        underflow at the limit. */
    method Get() returns (r: Result<byte>)
      requires Valid()
      modifies this`position
      ensures Valid()
      ensures old(position) < limit ==> r == Ok(Window()[old(position)]) && position == old(position) + 1
      ensures old(position) >= limit ==> r == Err(BufferUnderflow) && position == old(position)
    {
      if position >= limit {
        return Err(BufferUnderflow);
      }
      r := Ok(data[position]);
      position := position + 1;
    }

    /** Absolute `get(i)`: the byte at index `i`; the position does not move. */
    method GetAt(i: int) returns (r: Result<byte>)
      requires Valid()
      ensures 0 <= i < limit ==> r == Ok(Window()[i])
      ensures !(0 <= i < limit) ==> r == Err(Unchecked(IndexOutOfBoundsException))
    {
      if i < 0 || i >= limit {
        return Err(Unchecked(IndexOutOfBoundsException));
      }
      r := Ok(data[i]);
    }

    /** Bulk `get(dst)` into a new array of `n` bytes: the next `n` bytes,
        or underflow, moving nothing, when fewer remain. */
    method GetBytes(n: nat) returns (r: Result<seq<byte>>)
      requires Valid()
      modifies this`position
      ensures Valid()
      ensures n <= old(limit - position) ==>
                r == Ok(Window()[old(position)..old(position) + n]) && position == old(position) + n
      ensures n > old(limit - position) ==> r == Err(BufferUnderflow) && position == old(position)
    {
      if n > limit - position {
        return Err(BufferUnderflow);
      }
      r := Ok(data[position..position + n]);
      assert data[position..position + n] == Window()[position..position + n];
      position := position + n;
    }

    /** `position(n)`: rejects a position outside `[0, limit]`; a mark beyond it is discarded. */
    method SetPosition(n: int) returns (r: Result<()>)
      requires Valid()
      modifies this`position, this`mark
      ensures Valid()
      ensures 0 <= n <= limit ==> r == Ok(()) && position == n && mark == Reposition(old(mark), n)
      ensures !(0 <= n <= limit) ==>
                r == Err(Unchecked(IllegalArgumentException)) && position == old(position) && mark == old(mark)
    {
      if n < 0 || n > limit {
        return Err(Unchecked(IllegalArgumentException));
      }
      position := n;
      mark := Reposition(mark, n);
      r := Ok(());
    }

    /** `mark()`: remembers the position. */
    method Mark()
      requires Valid()
      modifies this`mark
      ensures Valid() && mark == position
    {
      mark := position;
    }

    /** `reset()`: back to the mark; InvalidMarkException when there is none. */
    method Reset() returns (r: Result<()>)
      requires Valid()
      modifies this`position
      ensures Valid()
      ensures old(mark) >= 0 ==> r == Ok(()) && position == old(mark)
      ensures old(mark) < 0 ==> r == Err(Unchecked(InvalidMarkException)) && position == old(position)
    {
      if mark < 0 {
        return Err(Unchecked(InvalidMarkException));
      }
      position := mark;
      r := Ok(());
    }

    /** `flip()`: what was written becomes what is read. */
    method Flip()
      requires Valid()
      modifies this`position, this`limit, this`mark
      ensures Valid()
      ensures limit == old(position) && position == 0 && mark == -1
    {
      limit, position, mark := position, 0, -1;
    }

    /** `compact()`: moves the unread bytes `[position, limit)` to the front
        and makes the rest of the array writable again. */
    method Compact()
      requires Valid()
      modifies this, data
      ensures Valid()
      ensures position == old(limit - position) && limit == data.Length && mark == -1
      ensures data[..position] == old(data[position..limit])
      ensures data[position..] == old(data[..])[position..]
    {
      var n := limit - position;
      var i := 0;
      while i < n
        invariant 0 <= i <= n
        invariant forall k :: 0 <= k < i ==> data[k] == old(data[position + k])
        invariant forall k :: i <= k < data.Length ==> data[k] == old(data[k])
        modifies data
      {
        data[i] := data[position + i];
        i := i + 1;
      }
      position, limit, mark := n, data.Length, -1;
    }

    /** Bulk `put(src)`: writes `src` at the position, which moves past it;
        BufferOverflowException when it does not fit. */
    method Put(src: seq<byte>) returns (r: Result<()>)
      requires Valid()
      modifies this`position, data
      ensures Valid()
      ensures |src| <= old(limit - position) ==>
                r == Ok(()) && position == old(position) + |src| &&
                data[..] == old(data[..position]) + src + old(data[..])[old(position) + |src|..]
      ensures |src| > old(limit - position) ==>
                r == Err(Unchecked(BufferOverflowException)) && position == old(position) &&
                data[..] == old(data[..])
    {
      if |src| > limit - position {
        return Err(Unchecked(BufferOverflowException));
      }
      var i := 0;
      while i < |src|
        invariant 0 <= i <= |src|
        invariant forall k :: 0 <= k < data.Length ==>
                    data[k] == if position <= k < position + i then src[k - position] else old(data[k])
        modifies data
      {
        data[position + i] := src[i];
        i := i + 1;
      }
      assert data[..] == old(data[..position]) + src + old(data[..])[position + |src|..];
      position := position + |src|;
      r := Ok(());
    }
  }
}
