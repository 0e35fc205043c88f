/** Bytes as the framing code sees them: Java `byte` values, the ASCII
    characters the protocols compare them with, Java `int` arithmetic and
    `Integer.parseInt`. */
module Bytes {

  /** A Java `byte`, held as the unsigned value of its eight bits. Every
      comparison in the framers is against an ASCII character, for which the
      signed and the unsigned reading agree. */
  type byte = b: int | 0 <= b < 256

  datatype Option<+T> = None | Some(value: T)

  /** The byte of an ASCII character. */
  function Ascii(c: char): byte
    requires c as int < 128
  {
    c as int
  }

  /** FIX field delimiter SOH (`'\001'`). */
  const SOH: byte := 0x01
  /** Line terminator of the newline framers. */
  const NEWLINE: byte := 0x0A

  const INT_MIN: int := -0x8000_0000
  const INT_MAX: int := 0x7fff_ffff

  predicate IsInt(x: int) {
    INT_MIN <= x <= INT_MAX
  }

  /** Java `int` addition: the sum wrapped into 32 bits. */
  function AddInt(a: int, b: int): (r: int)
    requires IsInt(a) && IsInt(b)
    ensures IsInt(r)
    ensures IsInt(a + b) ==> r == a + b
    ensures a + b > INT_MAX ==> r == a + b - 0x1_0000_0000 && r < 0
    ensures a + b < INT_MIN ==> r == a + b + 0x1_0000_0000 && r >= 0
  {
    var sum := a + b;
    if sum > INT_MAX then sum - 0x1_0000_0000
    else if sum < INT_MIN then sum + 0x1_0000_0000
    else sum
  }

  /** `(char) b` in Java: a byte is sign-extended, so bytes 0x80..0xFF
      become the characters U+FF80..U+FFFF. */
  function JavaChar(b: byte): (c: char)
    ensures b < 128 ==> c as int == b
  {
    if b < 128 then b as char else (0xFF00 + b) as char
  }

  /** The text `new StringBuilder().append((char) b)...` builds from bytes. */
  function JavaText(bs: seq<byte>): (s: string)
    ensures |s| == |bs|
    ensures forall i :: 0 <= i < |bs| ==> s[i] == JavaChar(bs[i])
  {
    if bs == [] then [] else [JavaChar(bs[0])] + JavaText(bs[1..])
  }

  /** The index of the first `b` in `s[from..]`, found as the framers find it:
      by looking at one index after the other. */
  function IndexOf(s: seq<byte>, from: nat, b: byte): (r: Option<nat>)
    requires from <= |s|
    ensures r.Some? ==> from <= r.value < |s| && s[r.value] == b && b !in s[from..r.value]
    ensures r.None? ==> b !in s[from..]
    decreases |s| - from
  {
    if from == |s| then None
    else if s[from] == b then Some(from)
    else IndexOf(s, from + 1, b)
  }

  /** `IndexOf` finds the first occurrence and nothing else. */
  lemma IndexOfUnique(s: seq<byte>, from: nat, b: byte, i: nat)
    requires from <= i < |s| && s[i] == b && b !in s[from..i]
    ensures IndexOf(s, from, b) == Some(i)
  {
  }

  /** What `IndexOf` finds in a sequence it also finds in any extension of it. */
  lemma {:induction false} IndexOfExtended(s: seq<byte>, t: seq<byte>, from: nat, b: byte)
    requires from <= |s| && s <= t
    ensures IndexOf(s, from, b).Some? ==> IndexOf(t, from, b) == IndexOf(s, from, b)
    ensures IndexOf(s, from, b).None? ==>
              IndexOf(t, from, b).None? || IndexOf(t, from, b).value >= |s|
    decreases |s| - from
  {
    if from < |s| {
      assert s[from] == t[from];
      if s[from] != b {
        IndexOfExtended(s, t, from + 1, b);
      }
    }
  }

  /** All the parts of `parts`, one after the other. */
  function Flatten(parts: seq<seq<byte>>): (r: seq<byte>)
  {
    if parts == [] then [] else parts[0] + Flatten(parts[1..])
  }

  lemma {:induction false} FlattenAppend(a: seq<seq<byte>>, b: seq<seq<byte>>)
    ensures Flatten(a + b) == Flatten(a) + Flatten(b)
  {
    if a == [] {
      assert a + b == b;
    } else {
      assert (a + b)[1..] == a[1..] + b;
      FlattenAppend(a[1..], b);
    }
  }

  /** Concatenation regroups freely. */
  lemma AppendRegroup<T>(a: seq<T>, b: seq<T>, c: seq<T>)
    ensures a + (b + c) == (a + b) + c
  {
  }

  /** A sequence is its first `n` elements and the rest. */
  lemma TakeDrop<T>(s: seq<T>, n: nat)
    requires n <= |s|
    ensures s[..n] + s[n..] == s
  {
  }

  /** Two consecutive slices join up. */
  lemma SliceJoin<T>(s: seq<T>, p: nat, q: nat, e: nat)
    requires p <= q <= e <= |s|
    ensures s[p..e] == s[p..q] + s[q..e]
  {
  }

  /** A slice behind a prefix `c` is the same slice, `|c|` further on. */
  lemma SliceShift<T>(c: seq<T>, s: seq<T>, a: nat, b: nat)
    requires a <= b <= |s|
    ensures (c + s)[|c| + a..|c| + b] == s[a..b]
  {
    forall i | 0 <= i < b - a
      ensures (c + s)[|c| + a..|c| + b][i] == s[a..b][i]
    {
      assert (c + s)[|c| + a + i] == s[a + i];
    }
  }

  lemma FlattenCons(x: seq<byte>, xs: seq<seq<byte>>)
    ensures Flatten([x] + xs) == x + Flatten(xs)
  {
    assert ([x] + xs)[1..] == xs;
  }

  predicate IsDigit(b: byte) {
    Ascii('0') <= b <= Ascii('9')
  }

  predicate AllDigits(s: seq<byte>) {
    forall i :: 0 <= i < |s| ==> IsDigit(s[i])
  }

  /** The value of a string of decimal digits. */
  function DigitsValue(s: seq<byte>): nat
    requires AllDigits(s)
  {
    if s == [] then 0 else DigitsValue(s[..|s| - 1]) * 10 + (s[|s| - 1] - Ascii('0'))
  }

  /** `Integer.parseInt(s)`, with `s` the text built from the bytes `s`:
      an optional sign, at least one decimal digit and nothing else, and a
      value that fits an `int`; anything else raises NumberFormatException
      (`None`). Bytes 0x80..0xFF become characters U+FF80..U+FFFF, none of
      which is a decimal digit, so only `'0'..'9'` count as digits. */
  function ParseInt(s: seq<byte>): (r: Option<int>)
    ensures r.Some? ==> IsInt(r.value)
  {
    if s == [] then None
    else
      var signed := s[0] == Ascii('-') || s[0] == Ascii('+');
      var digits := if signed then s[1..] else s;
      if digits == [] || !AllDigits(digits) then None
      else
        var magnitude: int := DigitsValue(digits);
        var value: int := if s[0] == Ascii('-') then -magnitude else magnitude;
        if IsInt(value) then Some(value) else None
  }

  /** The decimal digits of `n`, most significant first, without leading zeros. */
  function Decimal(n: nat): (r: seq<byte>)
    ensures |r| >= 1 && AllDigits(r)
  {
    if n < 10 then [Ascii('0') + n] else Decimal(n / 10) + [Ascii('0') + n % 10]
  }

  lemma {:induction false} DecimalValue(n: nat)
    ensures DigitsValue(Decimal(n)) == n
  {
    if n >= 10 {
      var d := Decimal(n);
      assert d[..|d| - 1] == Decimal(n / 10);
      DecimalValue(n / 10);
    }
  }

  /** `Integer.parseInt` reads back every non-negative `int` written in decimal. */
  lemma ParseIntDecimal(n: nat)
    requires n <= INT_MAX
    ensures ParseInt(Decimal(n)) == Some(n)
  {
    DecimalValue(n);
  }

  /** A value that is not a number makes `Integer.parseInt` fail. */
  lemma ParseIntRejectsNonDigit(s: seq<byte>, i: nat)
    requires 0 < i < |s| && !IsDigit(s[i])
    ensures ParseInt(s) == None
  {
    var digits := if s[0] == Ascii('-') || s[0] == Ascii('+') then s[1..] else s;
    if digits == s[1..] {
      assert digits[i - 1] == s[i];
    } else {
      assert digits[i] == s[i];
    }
  }
}
