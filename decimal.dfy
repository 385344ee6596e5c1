/** Decimal integers as text: `fmt.Sprintf("%d", n)` for a non-negative
    `n`, and `strconv.Atoi` on a run of ASCII digits (what `\d+` captures). */
module Decimal {
  import opened Common

  /** The largest Go `int` on a 64-bit platform. */
  const MaxInt: int := 0x7FFF_FFFF_FFFF_FFFF

  predicate IsDigit(b: byte) { 0x30 <= b <= 0x39 }

  predicate AllDigits(d: bytes) { forall i :: 0 <= i < |d| ==> IsDigit(d[i]) }

  /** `%d` of a non-negative integer: no sign, no leading zeros. */
  function Format(n: nat): (d: bytes)
    ensures 0 < |d| && AllDigits(d)
    ensures |d| > 1 ==> d[0] != 0x30
  {
    if n < 10 then [(0x30 + n) as byte] else Format(n / 10) + [(0x30 + n % 10) as byte]
  }

  /** The number a run of digits denotes (leading zeros allowed). */
  function Value(d: bytes): nat
    requires AllDigits(d)
  {
    if d == [] then 0 else Value(d[..|d| - 1]) * 10 + (d[|d| - 1] - 0x30) as nat
  }

  /** `strconv.Atoi` on a non-empty run of digits: the value, or MaxInt when
      the value does not fit (the range error it also returns is ignored by
      its caller). */
  function Atoi(d: bytes): (n: int)
    requires AllDigits(d)
    ensures 0 <= n <= MaxInt
    ensures Value(d) <= MaxInt ==> n == Value(d)
  {
    if Value(d) <= MaxInt then Value(d) else MaxInt
  }

  /** Length of the longest prefix of `s` made of digits (what `\d+`
      matches greedily, when it is not zero). */
  function DigitRun(s: bytes): (n: nat)
    ensures n <= |s|
    ensures forall i :: 0 <= i < n ==> IsDigit(s[i])
    ensures n < |s| ==> !IsDigit(s[n])
  {
    if s == [] || !IsDigit(s[0]) then 0 else 1 + DigitRun(s[1..])
  }

  /** Reading back what `%d` wrote gives the number. */
  lemma {:induction false} FormatValue(n: nat)
    ensures Value(Format(n)) == n
  {
    if n >= 10 {
      var d := Format(n);
      assert d[..|d| - 1] == Format(n / 10);
      FormatValue(n / 10);
    }
  }

  /** The digit run at the start of `f + rest` is exactly `f` when `f` is
      all digits and `rest` does not start with one. */
  lemma DigitRunOf(f: bytes, rest: bytes)
    requires AllDigits(f)
    requires rest == [] || !IsDigit(rest[0])
    ensures DigitRun(f + rest) == |f|
  {
    var s := f + rest;
    var m := DigitRun(s);
    assert forall i :: 0 <= i < |f| ==> s[i] == f[i];
    if rest != [] {
      assert s[|f|] == rest[0];
    }
    if m < |f| {
      assert false;
    } else if m > |f| {
      assert false;
    }
  }
}
