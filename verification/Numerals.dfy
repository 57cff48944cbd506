/** Bytes and the printing and reading of numbers in decimal and upper-case hexadecimal. */
module Numerals {
  import opened Wrappers

  type Byte = x: int | 0 <= x < 256
  type Bytes = seq<Byte>

  const CR: Byte := 13
  const LF: Byte := 10
  const CRLF: Bytes := [CR, LF]

  type Base = b: int | 2 <= b <= 16 witness 10

  /** The byte of one digit: `0`-`9`, then `A`-`F`. */
  function DigitByte(d: nat): Byte
    requires d < 16
  {
    if d < 10 then 48 + d else 55 + d
  }

  /** The value of a digit byte, letters in either case; none for other bytes. */
  function DigitOf(c: Byte, base: Base): (d: Option<nat>)
    ensures d.Some? ==> d.value < base
  {
    var v := if 48 <= c <= 57 then c - 48 else if 65 <= c <= 70 then c - 55 else if 97 <= c <= 102 then c - 87 else 16;
    if v < base then Some(v) else None
  }

  predicate IsDigit(c: Byte, base: Base) {
    DigitOf(c, base).Some?
  }

  predicate AllDigits(s: Bytes, base: Base) {
    forall i :: 0 <= i < |s| ==> IsDigit(s[i], base)
  }

  lemma {:induction false} DivideByBase(n: nat, base: Base)
    ensures n == (n / base) * base + n % base && 0 <= n % base < base
    ensures n >= base ==> 0 < n / base < n
  {
  }

  /** The shortest numeral of `n`, most significant digit first. */
  function Print(n: nat, base: Base): (s: Bytes)
    ensures s != [] && AllDigits(s, base)
    ensures n > 0 ==> s[0] != 48
    ensures forall i :: 0 <= i < |s| ==> 48 <= s[i] <= 57 || 65 <= s[i] <= 70
  {
    if n < base then [DigitByte(n)]
    else
      DivideByBase(n, base);
      Print(n / base, base) + [DigitByte(n % base)]
  }

  /** Reading digits left to right on top of what was read before. */
  function ReadOn(s: Bytes, before: nat, base: Base): nat
    requires AllDigits(s, base)
  {
    if s == [] then before else ReadOn(s[1..], before * base + DigitOf(s[0], base).value, base)
  }

  lemma {:induction false} ReadOnLast(s: Bytes, c: Byte, before: nat, base: Base)
    requires AllDigits(s + [c], base)
    ensures AllDigits(s, base) && IsDigit(c, base)
    ensures ReadOn(s + [c], before, base) == ReadOn(s, before, base) * base + DigitOf(c, base).value
  {
    assert forall i :: 0 <= i < |s| ==> s[i] == (s + [c])[i];
    assert (s + [c])[|s|] == c;
    if s == [] {
      assert s + [c] == [c];
    } else {
      assert (s + [c])[1..] == s[1..] + [c];
      ReadOnLast(s[1..], c, before * base + DigitOf(s[0], base).value, base);
    }
  }

  /** Reading what was printed gives the number back. */
  lemma {:induction false} PrintedReadsBack(n: nat, base: Base)
    ensures ReadOn(Print(n, base), 0, base) == n
  {
    if n >= base {
      DivideByBase(n, base);
      PrintedReadsBack(n / base, base);
      ReadOnLast(Print(n / base, base), DigitByte(n % base), 0, base);
    }
  }

  /** Concatenation of the parts in order. */
  function Concat<T>(parts: seq<seq<T>>): seq<T> {
    if parts == [] then [] else parts[0] + Concat(parts[1..])
  }

  lemma {:induction false} ConcatLast<T>(parts: seq<seq<T>>, last: seq<T>)
    ensures Concat(parts + [last]) == Concat(parts) + last
  {
    if parts == [] {
      assert parts + [last] == [last];
      assert Concat([last][1..]) == [];
    } else {
      assert (parts + [last])[1..] == parts[1..] + [last];
      ConcatLast(parts[1..], last);
    }
  }
}
