/** Number formatting: digits written backwards into a buffer and reversed in place. */
module Numerals {
  import opened Machine

  const BUFFER: nat := 32
  const NUL: char := '\0'

  /** A C int above INT_MIN, whose negation is again an int. */
  type PositiveRange = x: int | -0x8000_0000 < x < 0x8000_0000

  /** The bases that printk uses. */
  type Base = x: int | x == 10 || x == 16 witness 10

  function Times(x: int, base: Base): int {
    if base == 10 then 10 * x else 16 * x
  }

  function Quotient(v: nat, base: Base): nat {
    if base == 10 then v / 10 else v / 16
  }

  function Rest(v: nat, base: Base): (r: nat)
    ensures r < base && v == Times(Quotient(v, base), base) + r
    ensures v != 0 ==> Quotient(v, base) < v
  {
    if base == 10 then v % 10 else v % 16
  }

  lemma DivMod(v: nat, base: Base)
    ensures v / base == Quotient(v, base) && v % base == Rest(v, base)
  {
  }

  /** The letter for digit ten: lower or upper case. */
  type Ten = c: char | c == 'a' || c == 'A' witness 'a'

  function DigitChar(d: nat, ten: Ten): char
    requires d < 16
  {
    if d > 9 then (d - 10) as char + ten else d as char + '0'
  }

  /** The digits of v, lowest first; nothing for 0. */
  function LowFirst(v: nat, base: Base, ten: Ten): seq<char>
  {
    if v == 0 then [] else [DigitChar(Rest(v, base), ten)] + LowFirst(Quotient(v, base), base, ten)
  }

  function Reversed(s: seq<char>): (r: seq<char>)
    ensures |r| == |s| && forall i :: 0 <= i < |s| ==> r[i] == s[|s| - 1 - i]
  {
    if s == [] then [] else Reversed(s[1..]) + [s[0]]
  }

  /** The numeral of v. */
  function Numeral(v: nat, base: Base, ten: Ten): seq<char>
  {
    if v == 0 then "0" else Reversed(LowFirst(v, base, ten))
  }

  // ---------------------------------------------------------------- what a numeral is

  /** The value of a digit character, or -1. */
  function DigitValue(c: char): int {
    if '0' <= c <= '9' then c as int - '0' as int
    else if 'a' <= c <= 'f' then c as int - 'a' as int + 10
    else if 'A' <= c <= 'F' then c as int - 'A' as int + 10
    else -1
  }

  /** The value of a string of digits in positional notation. */
  function Value(s: seq<char>, base: Base): int {
    if s == [] then 0 else Times(Value(s[..|s| - 1], base), base) + DigitValue(s[|s| - 1])
  }

  predicate IsDigit(c: char, base: Base, ten: Ten) {
    0 <= DigitValue(c) < base && (DigitValue(c) >= 10 ==> c == DigitChar10(DigitValue(c), ten))
  }

  function DigitChar10(d: int, ten: Ten): char {
    if 10 <= d < 16 then DigitChar(d, ten) else '0'
  }

  /** Digits of the base only, and no leading zero except for 0 itself. */
  predicate Canonical(s: seq<char>, base: Base, ten: Ten) {
    && s != []
    && (forall i :: 0 <= i < |s| ==> IsDigit(s[i], base, ten))
    && (s[0] == '0' ==> |s| == 1)
  }

  lemma DigitCharValue(d: nat, base: Base, ten: Ten)
    requires d < base
    ensures DigitValue(DigitChar(d, ten)) == d && IsDigit(DigitChar(d, ten), base, ten)
    ensures DigitChar(d, ten) == '0' <==> d == 0
  {
  }

  lemma ReversedSnoc(s: seq<char>)
    requires s != []
    ensures Reversed(s)[..|s| - 1] == Reversed(s[1..]) && Reversed(s)[|s| - 1] == s[0]
  {
  }

  lemma LowFirstStep(v: nat, base: Base, ten: Ten)
    requires 0 < v
    ensures var r, h := Reversed(LowFirst(v, base, ten)), Reversed(LowFirst(Quotient(v, base), base, ten));
            |r| == |h| + 1 && r[..|r| - 1] == h && r[|r| - 1] == DigitChar(Rest(v, base), ten)
  {
    var l := LowFirst(v, base, ten);
    ReversedSnoc(l);
    assert l[1..] == LowFirst(Quotient(v, base), base, ten);
  }

  lemma {:induction false} LowFirstValue(v: nat, base: Base, ten: Ten)
    requires 0 < v
    ensures var r := Reversed(LowFirst(v, base, ten));
            r != [] && Value(r, base) == v && (forall i :: 0 <= i < |r| ==> IsDigit(r[i], base, ten)) && r[0] != '0'
    decreases v
  {
    hide DigitChar, DigitValue, IsDigit, LowFirst, Reversed, Times;
    LowFirstStep(v, base, ten);
    DigitCharValue(Rest(v, base), base, ten);
    var r, h := Reversed(LowFirst(v, base, ten)), Reversed(LowFirst(Quotient(v, base), base, ten));
    if Quotient(v, base) == 0 {
      NoDigits(base, ten);
      TimesZero(base);
    } else {
      LowFirstValue(Quotient(v, base), base, ten);
      assert r[0] == h[0];
      assert forall i :: 0 <= i < |h| ==> r[i] == h[i];
    }
  }

  lemma NoDigits(base: Base, ten: Ten)
    ensures Reversed(LowFirst(0, base, ten)) == []
  {
  }

  lemma TimesZero(base: Base)
    ensures Times(0, base) == 0
  {
  }

  /** The numeral of v denotes v and is canonical. */
  lemma NumeralValue(v: nat, base: Base, ten: Ten)
    ensures Value(Numeral(v, base, ten), base) == v && Canonical(Numeral(v, base, ten), base, ten)
  {
    if v == 0 {
      assert "0"[..0] == "";
      assert Value("0", base) == Times(Value("", base), base) + DigitValue('0');
    } else {
      hide LowFirst, Reversed, Value, IsDigit;
      LowFirstValue(v, base, ten);
    }
  }

  lemma SameDigit(c: char, d: char, base: Base, ten: Ten)
    requires IsDigit(c, base, ten) && IsDigit(d, base, ten) && DigitValue(c) == DigitValue(d)
    ensures c == d
  {
  }

  lemma {:induction false} CanonicalPositive(s: seq<char>, base: Base, ten: Ten)
    requires Canonical(s, base, ten) && s[0] != '0'
    ensures Value(s, base) > 0
    decreases |s|
  {
    if |s| == 1 {
      assert s[..0] == "";
      SameDigitZero(s[0], base, ten);
    } else {
      CanonicalPositive(s[..|s| - 1], base, ten);
    }
  }

  lemma SameDigitZero(c: char, base: Base, ten: Ten)
    requires IsDigit(c, base, ten) && c != '0'
    ensures DigitValue(c) > 0
  {
  }

  lemma Positional(x: nat, d: nat, y: nat, e: nat, base: Base)
    requires d < base && e < base && Times(x, base) + d == Times(y, base) + e
    ensures x == y && d == e
  {
  }

  lemma {:induction false} NonNegative(s: seq<char>, base: Base, ten: Ten)
    requires forall i :: 0 <= i < |s| ==> IsDigit(s[i], base, ten)
    ensures 0 <= Value(s, base)
    decreases |s|
  {
    if s != [] {
      NonNegative(s[..|s| - 1], base, ten);
    }
  }

  /** A value has only one canonical string, so the numeral is the canonical numeral. */
  lemma {:induction false} CanonicalUnique(s: seq<char>, t: seq<char>, base: Base, ten: Ten)
    requires Canonical(s, base, ten) && Canonical(t, base, ten) && Value(s, base) == Value(t, base)
    ensures s == t
    decreases |s|
  {
    var s', t' := s[..|s| - 1], t[..|t| - 1];
    NonNegative(s', base, ten);
    NonNegative(t', base, ten);
    Positional(Value(s', base), DigitValue(s[|s| - 1]), Value(t', base), DigitValue(t[|t| - 1]), base);
    SameDigit(s[|s| - 1], t[|t| - 1], base, ten);
    hide IsDigit, DigitValue;
    assert s == s' + [s[|s| - 1]] && t == t' + [t[|t| - 1]];
    if |s| > 1 && |t| > 1 {
      CanonicalUnique(s', t', base, ten);
    } else if |s| > 1 {
      CanonicalPositive(s', base, ten);
    } else if |t| > 1 {
      CanonicalPositive(t', base, ten);
    }
  }

  function Power(base: Base, n: nat): nat {
    if n == 0 then 1 else Times(Power(base, n - 1), base)
  }

  /** The number of digits is bounded by the value, so every 32-bit numeral fits. */
  lemma {:induction false} LowFirstLength(v: nat, base: Base, ten: Ten, n: nat)
    requires v < Power(base, n)
    ensures |LowFirst(v, base, ten)| <= n
    decreases n
  {
    if v != 0 && 0 < n {
      LowFirstLength(Quotient(v, base), base, ten, n - 1);
    }
  }

  lemma {:induction false} PowerAtLeast(base: Base, n: nat)
    ensures Power(base, n) >= Power(10, n)
  {
    if 0 < n {
      PowerAtLeast(base, n - 1);
    }
  }

  lemma Length32(v: Word32, base: Base, ten: Ten)
    ensures |LowFirst(v, base, ten)| <= 10
  {
    assert Power(10, 5) == 100000;
    assert Power(10, 10) == 10000000000;
    PowerAtLeast(base, 10);
    LowFirstLength(v, base, ten, 10);
  }
}
