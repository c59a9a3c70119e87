/** Numbers as text: the digit loops of kernel/printf.c and the parser of
    kernel/stdlib.c, and that they are inverse to each other. */
module Numerals {
  /** The numbers that a quad can hold, on every machine. */
  const QUAD: nat := 0x1_0000_0000_0000_0000

  /** The numbers that a long can hold: it has 32 bits on ARMv7 and 64 on other machines. */
  type Long = w: nat | w == 0x1_0000_0000 || w == 0x1_0000_0000_0000_0000 witness 0x1_0000_0000

  datatype Base = Oct | Dec | Hex {
    function Num(): (b: nat) { if Oct? then 8 else if Dec? then 10 else 16 }
  }

  // ---------- Digits ----------

  function DigitChar(d: nat, upper: bool): (c: char)
    requires d < 16
  {
    if d < 10 then '0' + d as char else if upper then 'A' + (d - 10) as char else 'a' + (d - 10) as char
  }

  predicate IsDigit(c: char) { '0' <= c <= '9' }

  predicate IsXDigit(c: char) { IsDigit(c) || 'a' <= c <= 'f' || 'A' <= c <= 'F' }

  /** ascii_to_int on a digit. */
  function DigitValue(c: char): (d: nat)
    requires IsXDigit(c)
    ensures d < 16
  {
    if IsDigit(c) then c as nat - '0' as nat
    else if 'a' <= c <= 'f' then 10 + c as nat - 'a' as nat
    else 10 + c as nat - 'A' as nat
  }

  lemma DigitRoundTrip(d: nat, upper: bool)
    requires d < 16
    ensures IsXDigit(DigitChar(d, upper)) && DigitValue(DigitChar(d, upper)) == d
    ensures d < 10 ==> IsDigit(DigitChar(d, upper))
    ensures d < 8 ==> '0' <= DigitChar(d, upper) <= '7'
    ensures if upper then !('a' <= DigitChar(d, upper) <= 'f') else !('A' <= DigitChar(d, upper) <= 'F')
  {}

  /** The numeral, most significant digit first. */
  function Digits(v: nat, b: nat, upper: bool): (s: string)
    requires 2 <= b <= 16
    ensures s != []
    decreases v
  {
    if v < b then [DigitChar(v, upper)] else Digits(v / b, b, upper) + [DigitChar(v % b, upper)]
  }

  function Power(b: nat, k: nat): (r: nat)
    ensures b > 0 ==> r > 0
  {
    if k == 0 then 1 else b * Power(b, k - 1)
  }

  /** A numeral has at most `k` digits exactly if the number is below the k-th power. */
  lemma {:induction false} DigitsBound(v: nat, b: nat, upper: bool, k: nat)
    requires 2 <= b <= 16 && k > 0
    ensures |Digits(v, b, upper)| <= k <==> v < Power(b, k)
    decreases k
  {
    hide DigitChar;
    if k == 1 {
      assert Power(b, 1) == b * Power(b, 0);
      assert Power(b, 0) == 1;
    } else if v < b {
      PowerAtLeast(b, k);
    } else {
      DigitsBound(v / b, b, upper, k - 1);
      QuotientBelow(v, b, Power(b, k - 1));
    }
  }

  lemma {:induction false} PowerAtLeast(b: nat, k: nat)
    requires b >= 2 && k > 0
    ensures Power(b, k) >= b
    decreases k
  {
    if k > 1 {
      PowerAtLeast(b, k - 1);
      assert b * Power(b, k - 1) >= Power(b, k - 1);
    }
  }

  lemma QuotientBelow(v: nat, b: nat, p: nat)
    requires b > 0
    ensures v / b < p <==> v < b * p
  {
    var q, r := v / b, v % b;
    assert v == b * q + r;
    if q < p {
      assert b * (q + 1) <= b * p;
    } else {
      assert b * q >= b * p;
    }
  }

  // ---------- The scratch buffer of kprintf ----------

  const BUFSIZE: nat := 23

  /** A number with the alternate form of octal, which has a leading zero. */
  function NumberText(v: nat, base: Base, upper: bool, alt: bool): string {
    var ds := Digits(v, base.Num(), upper && base.Hex?);
    if base.Oct? && alt && ds[0] != '0' then "0" + ds else ds
  }

  /** The octal and hexadecimal loops: digits are stored downwards from the end of the
      buffer until nothing is left of the number. */
  method StoreUntilZero(v0: nat, b: nat, upper: bool, bf: array<char>) returns (cp: nat)
    requires bf.Length == BUFSIZE && v0 < QUAD && (b == 8 || b == 16)
    modifies bf
    ensures 1 <= cp <= bf.Length && bf[cp..] == Digits(v0, b, upper)
  {
    hide Digits; hide DigitChar; hide Power;
    Room(v0, b);
    Shorter(v0, b, BUFSIZE - 1);
    DigitsLast(v0, b, upper);
    cp := BUFSIZE - 1;
    bf[cp] := DigitChar(v0 % b, upper);
    var v: nat := v0 / b;
    while v != 0
      invariant 1 <= cp <= BUFSIZE - 1 && v < Power(b, cp - 1)
      invariant Digits(v0, b, upper) == Rest(v, b, upper) + bf[cp..]
    {
      DigitsLast(v, b, upper);
      PowerZero(b);
      Shorter(v, b, cp - 1);
      cp := cp - 1;
      bf[cp] := DigitChar(v % b, upper);
      v := v / b;
    }
  }

  /** The digits in front of those that have been stored. */
  function Rest(v: nat, b: nat, upper: bool): string
    requires 2 <= b <= 16
  {
    if v == 0 then "" else Digits(v, b, upper)
  }

  lemma DigitsLast(v: nat, b: nat, upper: bool)
    requires 2 <= b <= 16
    ensures Digits(v, b, upper) == Rest(v / b, b, upper) + [DigitChar(v % b, upper)]
  {
    hide DigitChar;
    SmallQuotient(v, b);
  }

  lemma SmallQuotient(v: nat, b: nat)
    requires b > 0
    ensures v / b == 0 <==> v < b
    ensures v < b ==> v % b == v
  {}

  lemma Shorter(v: nat, b: nat, k: nat)
    requires b >= 2 && k > 0 && v < Power(b, k)
    ensures v / b < Power(b, k - 1)
  {
    QuotientBelow(v, b, Power(b, k - 1));
  }

  lemma PowerZero(b: nat)
    ensures Power(b, 0) == 1
  {}

  /** The decimal loop, which stops at the last digit. */
  method StoreDecimal(v0: nat, bf: array<char>) returns (cp: nat)
    requires bf.Length == BUFSIZE && v0 < QUAD
    modifies bf
    ensures 1 <= cp <= bf.Length && bf[cp..] == Digits(v0, 10, false)
  {
    var b, upper := 10, false;
    hide Digits; hide DigitChar; hide Power;
    var v: nat := v0;
    cp := BUFSIZE;
    Room(v0, b);
    DigitsCons(v, b, upper);
    while v >= b
      invariant 2 <= cp <= BUFSIZE && v < Power(b, cp - 1)
      invariant Digits(v0, b, upper) == Digits(v, b, upper) + bf[cp..]
    {
      DigitsCons(v, b, upper);
      Shrink(v, b, cp - 1);
      cp := cp - 1;
      bf[cp] := DigitChar(v % b, upper);
      v := v / b;
    }
    DigitsCons(v, b, upper);
    cp := cp - 1;
    bf[cp] := DigitChar(v, upper);
  }

  lemma DigitsCons(v: nat, b: nat, upper: bool)
    requires 2 <= b <= 16
    ensures v < b ==> Digits(v, b, upper) == [DigitChar(v, upper)]
    ensures v >= b ==> Digits(v, b, upper) == Digits(v / b, b, upper) + [DigitChar(v % b, upper)]
  {}

  lemma Shrink(v: nat, b: nat, k: nat)
    requires 2 <= b <= v < Power(b, k)
    ensures k >= 2 && v / b < Power(b, k - 1)
  {
    assert Power(b, 0) == 1 && Power(b, 1) == b * Power(b, 0) == b;
    assert k >= 2;
    QuotientBelow(v, b, Power(b, k - 1));
  }

  lemma Room(v: nat, b: nat)
    requires v < QUAD && (b == 8 || b == 10 || b == 16)
    ensures v < Power(b, BUFSIZE - 1)
  {
    assert Power(8, 22) == 0x4_0000_0000_0000_0000 by { PowerOf8(); }
    PowerGrows(8, b, 22);
  }

  lemma PowerOf8()
    ensures Power(8, 21) == 0x8000_0000_0000_0000 && Power(8, 22) == 0x4_0000_0000_0000_0000
  {
    assert Power(8, 7) == 0x20_0000;
    PowerAdd(8, 7, 7);
    PowerAdd(8, 14, 7);
    PowerAdd(8, 21, 1);
    assert Power(8, 1) == 8 * Power(8, 0);
  }

  lemma {:induction false} PowerAdd(b: nat, m: nat, n: nat)
    ensures Power(b, m + n) == Power(b, m) * Power(b, n)
    decreases n
  {
    if n > 0 {
      PowerAdd(b, m, n - 1);
      assert Power(b, m + n) == b * (Power(b, m) * Power(b, n - 1));
    } else {
      assert Power(b, 0) == 1;
    }
  }

  lemma {:induction false} PowerGrows(a: nat, b: nat, k: nat)
    requires 0 < a <= b
    ensures Power(a, k) <= Power(b, k)
    decreases k
  {
    if k > 0 {
      PowerGrows(a, b, k - 1);
      ProductGrows(a, b, Power(a, k - 1), Power(b, k - 1));
    }
  }

  lemma ProductGrows(a: nat, b: nat, c: nat, d: nat)
    requires a <= b && c <= d
    ensures a * c <= b * d
  {
    assert a * c <= a * d && a * d <= b * d;
  }

  /** The number conversion of kprintf never runs out of its scratch buffer. */
  method Convert(v: nat, base: Base, upper: bool, alt: bool, bf: array<char>) returns (cp: nat)
    requires bf.Length == BUFSIZE && v < QUAD
    modifies bf
    ensures cp <= bf.Length && bf[cp..] == NumberText(v, base, upper, alt)
  {
    hide Digits;
    match base
    case Oct =>
      cp := StoreUntilZero(v, 8, false, bf);
      if alt && bf[cp] != '0' {
        cp := cp - 1;
        bf[cp] := '0';
      }
    case Dec => cp := StoreDecimal(v, bf);
    case Hex => cp := StoreUntilZero(v, 16, upper, bf);
  }

  /** Nor is there a byte to spare. */
  lemma ScratchIsTight()
    ensures |NumberText(QUAD - 1, Oct, false, true)| == BUFSIZE
    ensures forall v: nat, base: Base, upper: bool, alt: bool :: v < QUAD ==>
      |NumberText(v, base, upper, alt)| <= BUFSIZE
  {
    hide Digits;
    PowerOf8();
    DigitsBound(QUAD - 1, 8, false, 22);
    DigitsBound(QUAD - 1, 8, false, 21);
    LeadingDigit(QUAD - 1, 8, false);
    forall v: nat, base: Base, upper: bool, alt: bool | v < QUAD ensures |NumberText(v, base, upper, alt)| <= BUFSIZE {
      Room(v, base.Num());
      DigitsBound(v, base.Num(), upper && base.Hex?, 22);
    }
  }

  /** Only zero is written with a leading zero. */
  lemma {:induction false} LeadingDigit(v: nat, b: nat, upper: bool)
    requires 2 <= b <= 16
    ensures Digits(v, b, upper)[0] == '0' <==> v == 0
    decreases v
  {
    hide DigitChar;
    SmallQuotient(v, b);
    if v >= b {
      LeadingDigit(v / b, b, upper);
      assert Digits(v, b, upper)[0] == Digits(v / b, b, upper)[0];
    } else {
      ZeroChar(v, upper);
    }
  }

  lemma ZeroChar(d: nat, upper: bool)
    requires d < 16
    ensures DigitChar(d, upper) == '0' <==> d == 0
  {}

  // ---------- Parsing ----------

  predicate DigitOf(c: char, b: nat) {
    (b == 8 && '0' <= c <= '7') || (b == 10 && IsDigit(c)) || (b == 16 && IsXDigit(c))
  }

  /** How many characters strtoul takes. */
  function Span(s: string, b: nat): (n: nat)
    ensures n <= |s| && (forall i :: 0 <= i < n ==> DigitOf(s[i], b)) && (n < |s| ==> !DigitOf(s[n], b))
  {
    if s == [] || !DigitOf(s[0], b) then 0 else
      var n := Span(s[1..], b) + 1;
      assert forall i :: 0 < i < n ==> s[i] == s[1..][i - 1];
      n
  }

  /** The number that a string of digits stands for. */
  function Value(s: string, b: nat): (v: nat)
    requires forall i :: 0 <= i < |s| ==> DigitOf(s[i], b)
  {
    if s == [] then 0 else
      assert DigitOf(s[|s| - 1], b);
      Value(s[..|s| - 1], b) * b + DigitValue(s[|s| - 1])
  }

  /** strtoul: the value of the longest digit prefix modulo the size of a long, and where it ends. */
  method Strtoul(s: string, b: nat, long: Long) returns (v: nat, end: nat)
    requires b == 10 || b == 16
    ensures end == Span(s, b) && v == Value(s[..end], b) % long
  {
    hide Span; hide Value;
    v, end := 0, 0;
    ValueEmpty(b);
    assert s[..0] == [];
    while end < |s| && DigitOf(s[end], b)
      invariant end <= |s| && (forall i :: 0 <= i < end ==> DigitOf(s[i], b))
      invariant v == Value(s[..end], b) % long
    {
      ValueStep(s, end, b);
      Wraps(Value(s[..end], b), b, DigitValue(s[end]), long);
      v := (v * b + DigitValue(s[end])) % long;
      end := end + 1;
    }
    SpanIs(s, b, end);
  }

  lemma ValueEmpty(b: nat)
    ensures Value([], b) == 0
  {}

  lemma ValueStep(s: string, n: nat, b: nat)
    requires n < |s| && forall i :: 0 <= i <= n ==> DigitOf(s[i], b)
    ensures Value(s[..n + 1], b) == Value(s[..n], b) * b + DigitValue(s[n])
  {
    assert s[..n + 1][..n] == s[..n];
  }

  lemma SpanIs(s: string, b: nat, n: nat)
    requires n <= |s| && (forall i :: 0 <= i < n ==> DigitOf(s[i], b)) && (n < |s| ==> !DigitOf(s[n], b))
    ensures Span(s, b) == n
  {}

  lemma Wraps(x: nat, b: nat, d: nat, long: Long)
    ensures (x % long * b + d) % long == (x * b + d) % long
  {
    var q, r := x / long, x % long;
    WrapsBy(q, r, b, d, long);
    ModuloShift(q * b, r * b + d, long);
  }

  lemma WrapsBy(q: nat, r: nat, b: nat, d: nat, long: nat)
    ensures (q * long + r) * b + d == (q * b) * long + (r * b + d)
  {}

  lemma ModuloShift(k: int, x: int, long: Long)
    ensures (k * long + x) % long == x % long
  {
    if long == QUAD { ModuloShift64(k, x); } else { ModuloShift32(k, x); }
  }

  lemma ModuloShift64(k: int, x: int)
    ensures (k * 0x1_0000_0000_0000_0000 + x) % 0x1_0000_0000_0000_0000 == x % 0x1_0000_0000_0000_0000
  {}

  lemma ModuloShift32(k: int, x: int)
    ensures (k * 0x1_0000_0000 + x) % 0x1_0000_0000 == x % 0x1_0000_0000
  {}

  /** Printing and parsing are inverse. */
  lemma {:induction false} DigitsValue(v: nat, b: nat, upper: bool)
    requires b == 8 || b == 10 || b == 16
    ensures forall i :: 0 <= i < |Digits(v, b, upper)| ==> DigitOf(Digits(v, b, upper)[i], b)
    ensures Value(Digits(v, b, upper), b) == v
    decreases v
  {
    hide DigitChar;
    if v < b {
      DigitRoundTrip(v, upper);
      assert Digits(v, b, upper)[..0] == [];
    } else {
      hide DigitOf;
      DigitsValue(v / b, b, upper);
      var s, t := Digits(v, b, upper), Digits(v / b, b, upper);
      LastDigit(v, b, upper, t);
      assert s == t + [DigitChar(v % b, upper)] && s[..|s| - 1] == t;
    }
  }

  lemma LastDigit(v: nat, b: nat, upper: bool, t: string)
    requires b == 8 || b == 10 || b == 16
    requires (forall i :: 0 <= i < |t| ==> DigitOf(t[i], b)) && Value(t, b) == v / b
    ensures var s := t + [DigitChar(v % b, upper)];
      (forall i :: 0 <= i < |s| ==> DigitOf(s[i], b)) && Value(s, b) == v
  {
    hide DigitChar;
    DigitRoundTrip(v % b, upper);
    var s := t + [DigitChar(v % b, upper)];
    assert s[..|s| - 1] == t;
    Euclid(v, b);
  }

  lemma Euclid(v: nat, b: nat)
    requires b > 0
    ensures v / b * b + v % b == v
  {}

  /** Letters are all lower case or all upper case. */
  lemma {:induction false} DigitsCase(v: nat, b: nat, upper: bool)
    requires 2 <= b <= 16
    ensures forall c :: c in Digits(v, b, upper) ==> if upper then !('a' <= c <= 'f') else !('A' <= c <= 'F')
    decreases v
  {
    hide DigitChar;
    if v < b {
      DigitRoundTrip(v, upper);
    } else {
      DigitsCase(v / b, b, upper);
      DigitRoundTrip(v % b, upper);
    }
  }

  /** strtoul reads back a number that was printed in base 10 or 16 exactly if it fits a
      long, and stops right behind it in any case. */
  lemma PrintThenParse(v: nat, b: nat, upper: bool, rest: string, long: Long)
    requires (b == 10 || b == 16) && (rest == [] || !DigitOf(rest[0], b))
    ensures var s := Digits(v, b, upper) + rest;
      && Span(s, b) == |Digits(v, b, upper)|
      && Value(s[..Span(s, b)], b) % long == v % long
      && (Value(s[..Span(s, b)], b) % long == v <==> v < long)
  {
    hide Span; hide Value; hide Digits;
    DigitsValue(v, b, upper);
    var s := Digits(v, b, upper) + rest;
    SpanIs(s, b, |Digits(v, b, upper)|);
    assert s[..|Digits(v, b, upper)|] == Digits(v, b, upper);
    Remainder(v, long);
  }

  lemma Remainder(v: nat, long: Long)
    ensures v % long == v <==> v < long
  {}
}
