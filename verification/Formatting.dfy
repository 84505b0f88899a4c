/** utoa, utoa_upper and itoa as they run, in a 32-byte buffer, and the decimal parser of
    the shell that reads their output back. */
module Formatting {
  import opened Machine
  import opened Numerals

  /** Swap from both ends towards the middle. */
  method ReverseString(str: array<char>, length: nat)
    requires length <= str.Length
    modifies str
    ensures str[..length] == Reversed(old(str[..length]))
    ensures forall k :: length <= k < str.Length ==> str[k] == old(str[k])
  {
    ghost var was := str[..length];
    var start, end := 0, length - 1;
    while start < end
      invariant 0 <= start && start + end == length - 1 && start <= end + 1
      invariant forall k :: 0 <= k < start || end < k < length ==> str[k] == was[length - 1 - k]
      invariant forall k :: start <= k <= end ==> str[k] == was[k]
      invariant forall k :: length <= k < str.Length ==> str[k] == old(str[k])
    {
      str[start], str[end] := str[end], str[start];
      start, end := start + 1, end - 1;
    }
    ghost var r := Reversed(was);
    assert forall k :: 0 <= k < length ==> str[k] == r[k];
  }

  /** Write the digits of value from position 0 on, lowest first. */
  method WriteDigits(value: Word32, str: array<char>, base: Base, ten: Ten) returns (i: nat)
    requires str.Length == BUFFER
    modifies str
    ensures i <= 10 && str[..i] == LowFirst(value, base, ten)
  {
    hide DigitChar, LowFirst;
    Length32(value, base, ten);
    NoMoreDigits(base, ten);
    i := 0;
    var v := value;
    while v != 0
      invariant 0 <= v < WORD_LIMIT && i + |LowFirst(v, base, ten)| <= 10
      invariant str[..i] + LowFirst(v, base, ten) == LowFirst(value, base, ten)
      decreases v
    {
      NextDigit(v, base, ten);
      ghost var before := str[..i];
      str[i] := DigitChar(v % base, ten);
      assert str[..i + 1] == before + [str[i]];
      i := i + 1;
      v := v / base;
    }
  }

  lemma NextDigit(v: nat, base: Base, ten: Ten)
    requires v != 0
    ensures 0 <= v % base < 16 && 0 <= v / base < v
    ensures LowFirst(v, base, ten) == [DigitChar(v % base, ten)] + LowFirst(v / base, base, ten)
  {
    DivMod(v, base);
  }

  lemma NoMoreDigits(base: Base, ten: Ten)
    ensures LowFirst(0, base, ten) == []
  {
  }

  /** utoa for ten == 'a', utoa_upper for ten == 'A'. */
  method FormatUnsigned(value: Word32, str: array<char>, base: Base, ten: Ten) returns (i: nat)
    requires str.Length == BUFFER
    modifies str
    ensures i <= 10 && str[..i] == Numeral(value, base, ten) && str[i] == NUL
  {
    if value == 0 {
      str[0] := '0';
      str[1] := NUL;
      assert str[..1] == "0";
      return 1;
    }
    i := WriteDigits(value, str, base, ten);
    str[i] := NUL;
    assert str[..i] == LowFirst(value, base, ten);
    ReverseString(str, i);
  }

  method Utoa(value: Word32, str: array<char>, base: Base) returns (i: nat)
    requires str.Length == BUFFER
    modifies str
    ensures i <= 10 && str[..i] == Numeral(value, base, 'a') && str[i] == NUL
  {
    i := FormatUnsigned(value, str, base, 'a');
  }

  method UtoaUpper(value: Word32, str: array<char>, base: Base) returns (i: nat)
    requires str.Length == BUFFER
    modifies str
    ensures i <= 10 && str[..i] == Numeral(value, base, 'A') && str[i] == NUL
  {
    i := FormatUnsigned(value, str, base, 'A');
  }

  /** The decimal numeral of an int. */
  function SignedNumeral(v: PositiveRange): seq<char> {
    if v < 0 then "-" + Numeral(-v, 10, 'a') else Numeral(v, 10, 'a')
  }

  /** itoa in base 10: the sign goes behind the digits and comes first by the reversal. */
  method Itoa(value: PositiveRange, str: array<char>) returns (i: nat)
    requires str.Length == BUFFER
    modifies str
    ensures i <= 11 && str[..i] == SignedNumeral(value) && str[i] == NUL
  {
    if value == 0 {
      str[0] := '0';
      str[1] := NUL;
      assert str[..1] == "0";
      return 1;
    }
    var v: Word32 := if value < 0 then -value else value;
    i := WriteDigits(v, str, 10, 'a');
    ghost var digits := LowFirst(v, 10, 'a');
    if value < 0 {
      str[i] := '-';
      i := i + 1;
      assert str[..i] == digits + ['-'];
      ReversedAppend(digits, '-');
    }
    str[i] := NUL;
    assert str[..i] == if value < 0 then digits + ['-'] else digits;
    ReverseString(str, i);
  }

  lemma {:induction false} ReversedAppend(s: seq<char>, c: char)
    ensures Reversed(s + [c]) == [c] + Reversed(s)
  {
    if s == [] {
      assert s + [c] == [c];
      assert [c][1..] == [];
    } else {
      assert (s + [c])[1..] == s[1..] + [c];
      ReversedAppend(s[1..], c);
    }
  }

  // ---------------------------------------------------------------- reading back

  predicate IsDecimal(c: char) {
    '0' <= c <= '9'
  }

  /** What the digits at the start of s add to a number read so far, in 32 bits. */
  function ParseFrom(s: seq<char>, pid: Word32): Word32
    decreases |s|
  {
    if s == [] || !IsDecimal(s[0]) then pid
    else ParseFrom(s[1..], (pid * 10 + (s[0] as int - '0' as int)) % WORD_LIMIT)
  }

  lemma DecimalDigit(c: char)
    requires IsDecimal(c)
    ensures 0 <= DigitValue(c) == c as int - '0' as int
  {
  }

  lemma {:induction false} DecimalValue(s: seq<char>)
    requires forall i :: 0 <= i < |s| ==> IsDecimal(s[i])
    ensures 0 <= Value(s, 10)
    decreases |s|
  {
    if s != [] {
      DecimalValue(s[..|s| - 1]);
      DecimalDigit(s[|s| - 1]);
    }
  }

  /** One more digit, in 32 bits and in unbounded arithmetic. */
  lemma WrapLater(v: nat, d: nat)
    ensures (v % WORD_LIMIT * 10 + d) % WORD_LIMIT == (10 * v + d) % WORD_LIMIT
  {
    var q, r := v / WORD_LIMIT, v % WORD_LIMIT;
    assert v == WORD_LIMIT * q + r;
    assert 10 * v + d == WORD_LIMIT * (10 * q) + (r * 10 + d);
  }

  lemma {:induction false} ParseValue(s: seq<char>, rest: seq<char>, k: nat)
    requires k <= |s| && forall i :: 0 <= i < |s| ==> IsDecimal(s[i])
    requires rest == [] || !IsDecimal(rest[0])
    ensures 0 <= Value(s[..k], 10) && 0 <= Value(s, 10)
    ensures ParseFrom(s[k..] + rest, Value(s[..k], 10) % WORD_LIMIT) == Value(s, 10) % WORD_LIMIT
    decreases |s| - k
  {
    hide IsDecimal, DigitValue;
    DecimalValue(s);
    DecimalValue(s[..k]);
    var t := s[k..] + rest;
    if k == |s| {
      assert t == rest && s[..k] == s;
    } else {
      DecimalDigit(s[k]);
      WrapLater(Value(s[..k], 10), DigitValue(s[k]));
      assert t == [s[k]] + (s[k + 1..] + rest);
      assert s[..k + 1][..k] == s[..k];
      ParseValue(s, rest, k + 1);
    }
  }

  /** The parser computes the decimal value of the leading digits modulo 2^32: of any number
      of digits, leading zeros included, whatever non-digit follows. */
  lemma ParseIsDecimalValue(s: seq<char>, rest: seq<char>)
    requires forall i :: 0 <= i < |s| ==> IsDecimal(s[i])
    requires rest == [] || !IsDecimal(rest[0])
    ensures 0 <= Value(s, 10) && ParseFrom(s + rest, 0) == Value(s, 10) % WORD_LIMIT
  {
    ParseValue(s, rest, 0);
    assert s[0..] == s && s[..0] == [];
  }

  /** How many digits s begins with. */
  function Leading(s: seq<char>): (n: nat)
    ensures n <= |s| && (forall i :: 0 <= i < n ==> IsDecimal(s[i])) && (n < |s| ==> !IsDecimal(s[n]))
  {
    if s == [] || !IsDecimal(s[0]) then 0 else 1 + Leading(s[1..])
  }

  /** The loop of the shell that reads a PID: the decimal value of the digits at the start of
      the argument, modulo 2^32. */
  method ParsePid(args: seq<char>) returns (pid: Word32)
    ensures 0 <= Value(args[..Leading(args)], 10)
    ensures pid == Value(args[..Leading(args)], 10) % WORD_LIMIT
  {
    hide Value, Leading;
    pid := 0;
    var i := 0;
    assert args[0..] == args;
    while i < |args| && IsDecimal(args[i])
      invariant 0 <= i <= |args|
      invariant ParseFrom(args[i..], pid) == ParseFrom(args, 0)
    {
      assert args[i..][1..] == args[i + 1..];
      pid := (pid * 10 + (args[i] as int - '0' as int)) % WORD_LIMIT;
      i := i + 1;
    }
    ghost var n := Leading(args);
    ParseIsDecimalValue(args[..n], args[n..]);
    assert args[..n] + args[n..] == args;
  }

  lemma NumeralIsDecimal(v: nat)
    ensures forall i :: 0 <= i < |Numeral(v, 10, 'a')| ==> IsDecimal(Numeral(v, 10, 'a')[i])
  {
    NumeralValue(v, 10, 'a');
    hide Numeral, Value;
  }

  /** The shell's parser undoes base-10 utoa on every 32-bit value, whatever non-digit
      follows. */
  lemma ParseUndoesNumeral(v: Word32, rest: seq<char>)
    requires rest == [] || !IsDecimal(rest[0])
    ensures ParseFrom(Numeral(v, 10, 'a') + rest, 0) == v
  {
    hide Numeral, ParseFrom;
    NumeralValue(v, 10, 'a');
    NumeralIsDecimal(v);
    ParseIsDecimalValue(Numeral(v, 10, 'a'), rest);
  }

  /** Read an optional sign and digits. */
  function ParseSigned(s: seq<char>): int {
    if s != [] && s[0] == '-' then 0 - ParseFrom(s[1..], 0) else ParseFrom(s, 0)
  }

  /** Every int above INT_MIN can be read back from its numeral. */
  lemma SignedRoundTrip(v: PositiveRange)
    ensures ParseSigned(SignedNumeral(v)) == v
  {
    hide Numeral, ParseFrom, IsDigit;
    var w: Word32 := if v < 0 then -v else v;
    var n := Numeral(w, 10, 'a');
    ParseUndoesNumeral(w, []);
    assert n + [] == n;
    if v < 0 {
      assert ("-" + n)[1..] == n;
    } else {
      NumeralValue(w, 10, 'a');
      NotASign(n[0]);
    }
  }

  lemma NotASign(c: char)
    requires IsDigit(c, 10, 'a')
    ensures c != '-'
  {
  }
}
