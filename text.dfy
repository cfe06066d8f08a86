/** Decimal text of integers, written the way Python's str() writes them,
    and a small reader that takes such text apart again. */
module Text {

  /** The usual optional value; usable with `:-`. */
  datatype Option<+T> = None | Some(value: T) {
    predicate IsFailure() { None? }

    function PropagateFailure<U>(): Option<U>
      requires None?
    {
      None
    }

    function Extract(): T
      requires Some?
    {
      value
    }
  }

  predicate IsDigit(c: char) { '0' <= c <= '9' }

  predicate AllDigits(s: string) { forall i :: 0 <= i < |s| ==> IsDigit(s[i]) }

  function DigitChar(d: nat): (c: char)
    requires d < 10
    ensures IsDigit(c) && c as int - '0' as int == d
  {
    ('0' as int + d) as char
  }

  function DigitValue(c: char): (d: nat)
    requires IsDigit(c)
    ensures d < 10 && DigitChar(d) == c
  {
    c as int - '0' as int
  }

  /** str(n) for a non-negative n: decimal digits only, and a leading zero
      only in "0" itself. */
  function FromNat(n: nat): (s: string)
    ensures |s| > 0 && AllDigits(s)
    ensures (s[0] == '0') == (n == 0)
    ensures (|s| == 1) == (n < 10)
  {
    if n < 10 then [DigitChar(n)] else FromNat(n / 10) + [DigitChar(n % 10)]
  }

  /** str(n) for any integer: a minus sign in front of the digits of a negative n. */
  function FromInt(n: int): (s: string)
    ensures n >= 0 ==> s == FromNat(n)
    ensures n < 0 ==> s == "-" + FromNat(-n)
  {
    if n < 0 then "-" + FromNat(-n) else FromNat(n)
  }

  /** The value of a string of decimal digits (the empty string reads as 0). */
  function ToNat(s: string): nat
    requires AllDigits(s)
  {
    if s == [] then 0 else ToNat(s[..|s| - 1]) * 10 + DigitValue(s[|s| - 1])
  }

  /** Writing a number and reading it back gives the number. */
  lemma {:induction false} ToNatFromNat(n: nat)
    ensures ToNat(FromNat(n)) == n
  {
    if n >= 10 {
      var front := FromNat(n / 10);
      var s := FromNat(n);
      ToNatFromNat(n / 10);
      assert s == front + [DigitChar(n % 10)];
      assert s[..|s| - 1] == front;
      assert DigitValue(s[|s| - 1]) == n % 10;
    }
  }

  /** The length of the run of digits at the start of s. */
  function DigitRun(s: string): (k: nat)
    ensures k <= |s|
    ensures forall i :: 0 <= i < k ==> IsDigit(s[i])
    ensures k < |s| ==> !IsDigit(s[k])
  {
    if s == [] || !IsDigit(s[0]) then 0 else 1 + DigitRun(s[1..])
  }

  /** Reads the non-empty run of digits at the start of s, giving its value
      and the rest of s. */
  function ReadNat(s: string): (r: Option<(nat, string)>)
    ensures r.Some? <==> |s| > 0 && IsDigit(s[0])
  {
    var k := DigitRun(s);
    if k == 0 then None
    else
      assert AllDigits(s[..k]);
      Some((ToNat(s[..k]), s[k..]))
  }

  /** Reads an optional minus sign followed by a run of digits. */
  function ReadInt(s: string): Option<(int, string)> {
    var negative := |s| > 0 && s[0] == '-';
    match ReadNat(if negative then s[1..] else s)
    case None => None
    case Some((n, rest)) => Some((if negative then 0 - n else n, rest))
  }

  /** The rest of s after the literal lit, when s starts with lit. */
  function Expect(lit: string, s: string): (r: Option<string>)
    ensures r.Some? <==> lit <= s
    ensures r.Some? ==> s == lit + r.value
  {
    if lit <= s then Some(s[|lit|..]) else None
  }

  lemma {:induction false} DigitRunOfDigits(a: string, rest: string)
    requires AllDigits(a)
    requires rest == [] || !IsDigit(rest[0])
    ensures DigitRun(a + rest) == |a|
  {
    if a != [] {
      assert (a + rest)[1..] == a[1..] + rest;
      DigitRunOfDigits(a[1..], rest);
    }
  }

  /** What FromNat writes, ReadNat reads back, when the text that follows
      does not itself start with a digit. */
  lemma {:induction false} ReadNatFromNat(n: nat, rest: string)
    requires rest == [] || !IsDigit(rest[0])
    ensures ReadNat(FromNat(n) + rest) == Some((n, rest))
  {
    var a := FromNat(n);
    DigitRunOfDigits(a, rest);
    assert (a + rest)[..|a|] == a;
    assert (a + rest)[|a|..] == rest;
    ToNatFromNat(n);
  }

  /** What FromInt writes, ReadInt reads back. */
  lemma {:induction false} ReadIntFromInt(n: int, rest: string)
    requires rest == [] || !IsDigit(rest[0])
    ensures ReadInt(FromInt(n) + rest) == Some((n, rest))
  {
    if n < 0 {
      ReadIntFromNegative(-n, rest);
    } else {
      ReadIntFromNonNegative(n, rest);
    }
  }

  lemma {:induction false} ReadIntFromNegative(n: nat, rest: string)
    requires n > 0
    requires rest == [] || !IsDigit(rest[0])
    ensures ReadInt("-" + FromNat(n) + rest) == Some((-(n as int), rest))
  {
    var s := "-" + FromNat(n) + rest;
    assert s[1..] == FromNat(n) + rest;
    ReadNatFromNat(n, rest);
  }

  lemma {:induction false} ReadIntFromNonNegative(n: nat, rest: string)
    requires rest == [] || !IsDigit(rest[0])
    ensures ReadInt(FromNat(n) + rest) == Some((n, rest))
  {
    var s := FromNat(n) + rest;
    assert s[0] == FromNat(n)[0];
    ReadNatFromNat(n, rest);
  }

  lemma ExpectLiteral(lit: string, rest: string)
    ensures Expect(lit, lit + rest) == Some(rest)
  {
    assert lit <= lit + rest;
    assert (lit + rest)[|lit|..] == rest;
  }
}
