/** itoa and atoi of stdlib.c. Characters are their codes; a string is given without its
    terminating zero. */
module Stdlib {
  import opened Words
  import opened Arith

  const ZERO := 0x30
  const LOWER_A := 0x61
  const MINUS := 0x2D
  const PLUS := 0x2B
  const BLANK := 0x20

  /** `a / b` of C for a positive divisor: the quotient rounded towards zero. */
  function CQuot(a: int, b: int): (q: int)
    requires b > 0
  {
    if a >= 0 then Quot(a, b) else 0 - Quot(-a, b)
  }

  /** `a % b` of C for a positive divisor: the remainder with the sign of a. */
  function CRem(a: int, b: int): int
    requires b > 0
  {
    if a >= 0 then Rem(a, b) else 0 - Rem(-a, b)
  }

  lemma {:induction false} CDivMod(a: int, b: int)
    requires b > 0
    ensures CQuot(a, b) == if a >= 0 then a / b else -(-a / b)
    ensures CRem(a, b) == if a >= 0 then a % b else -(-a % b)
  {
    QuotRemIsDivMod(if a >= 0 then a else -a, b);
  }

  /** The character itoa writes for a remainder. */
  function DigitChar(d: int): int
  {
    if d < 10 then d + ZERO else d + LOWER_A - 10
  }

  /** The digits of bases up to 36. */
  lemma {:induction false} DigitCharIs(d: int)
    requires 0 <= d < 36
    ensures DigitChar(d) == "0123456789abcdefghijklmnopqrstuvwxyz"[d] as int
    ensures DigitOf(DigitChar(d)) == d
  {
  }

  /** A negative remainder is written as the character that far before '0'. */
  lemma {:induction false} NegativeDigitChar(d: int)
    requires -36 < d < 0
    ensures DigitChar(d) == '0' as int + d
  {
  }

  /** The digit a character stands for. */
  function DigitOf(c: int): int
  {
    if c < LOWER_A then c - ZERO else c - LOWER_A + 10
  }

  function Magnitude(v: int): nat
  {
    if v < 0 then -v else v
  }

  /** The characters of a value, most significant first. */
  function Numeral(value: int, base: int): (s: seq<int>)
    requires base >= 2
    ensures |s| >= 1
    decreases Magnitude(value)
  {
    QuotientShrinks(value, base);
    var q := CQuot(value, base);
    (if q == 0 then [] else Numeral(q, base)) + [DigitChar(CRem(value, base))]
  }

  lemma {:induction false} QuotientShrinks(value: int, base: int)
    requires base >= 2
    ensures CQuot(value, base) != 0 ==> Magnitude(CQuot(value, base)) < Magnitude(value)
  {
    QuotLess(Magnitude(value), base);
  }

  lemma {:induction false} QuotLess(m: nat, base: int)
    requires base >= 2
    ensures Quot(m, base) > 0 ==> Quot(m, base) < m
  {
    if m >= base {
      QuotLess(m - base, base);
    }
  }

  /** The number a string of digits stands for. */
  function ValueOf(s: seq<int>, base: int): int
  {
    if s == [] then 0 else ValueOf(s[..|s| - 1], base) * base + DigitOf(s[|s| - 1])
  }

  lemma {:induction false} ValueAppend(s: seq<int>, c: int, base: int)
    ensures ValueOf(s + [c], base) == ValueOf(s, base) * base + DigitOf(c)
  {
    assert (s + [c])[..|s|] == s;
  }

  lemma {:induction false} DigitCharMeansDigit(d: int)
    requires 0 <= d < 36
    ensures DigitOf(DigitChar(d)) == d
    ensures DigitChar(d) == ZERO <==> d == 0
  {
  }

  /** Quotient and remainder of a non-negative value. */
  lemma {:induction false} Divided(n: nat, base: int)
    requires base >= 2
    ensures Quot(n, base) * base + Rem(n, base) == n
  {
    if n >= base {
      Divided(n - base, base);
      assert Quot(n, base) * base == Quot(n - base, base) * base + base;
    }
  }

  /** The numeral of a non-negative value stands for that value, consists of digits of the base
      and has no leading zero. */
  lemma {:induction false} NumeralMeansValue(n: nat, base: int)
    requires 2 <= base <= 36
    ensures ValueOf(Numeral(n, base), base) == n
    ensures forall k :: 0 <= k < |Numeral(n, base)| ==> 0 <= DigitOf(Numeral(n, base)[k]) < base
    ensures Numeral(n, base)[0] == ZERO ==> n == 0
    decreases n
  {
    var q, d := CQuot(n, base), CRem(n, base);
    DigitCharMeansDigit(d);
    QuotientShrinks(n, base);
    ZeroQuotient(n, base);
    var high := if q == 0 then [] else Numeral(q, base);
    assert Numeral(n, base) == high + [DigitChar(d)];
    if q != 0 {
      NumeralMeansValue(q, base);
    }
    AppendDigit(high, n, base);
  }

  lemma {:induction false} ZeroQuotient(n: nat, base: int)
    requires base >= 2
    ensures CQuot(n, base) == 0 ==> CRem(n, base) == n
  {
  }

  lemma {:induction false} AppendDigit(high: seq<int>, n: nat, base: int)
    requires 2 <= base <= 36 && ValueOf(high, base) == CQuot(n, base)
    ensures ValueOf(high + [DigitChar(CRem(n, base))], base) == n
  {
    ValueAppend(high, DigitChar(CRem(n, base)), base);
    Divided(n, base);
    DigitCharMeansDigit(CRem(n, base));
  }

  /** itoa, into a buffer with room for the characters and the terminator. */
  method Itoa(value: int, str: array<int>, base: int) returns (length: nat)
    requires 2 <= base <= 36 && |Numeral(value, base)| < str.Length
    modifies str
    ensures length == |Numeral(value, base)|
    ensures str[..length] == Numeral(value, base) && str[length] == 0
  {
    length := WriteReversed(value, str, base);
    str[length] := 0;
    ReverseInPlace(str, length);
    ReverseTwice(Numeral(value, base));
  }

  function Reverse(s: seq<int>): (r: seq<int>)
    ensures |r| == |s|
    ensures forall k :: 0 <= k < |s| ==> r[k] == s[|s| - 1 - k]
  {
    if s == [] then [] else [s[|s| - 1]] + Reverse(s[..|s| - 1])
  }

  lemma {:induction false} ReverseTwice(s: seq<int>)
    ensures Reverse(Reverse(s)) == s
  {
  }

  /** The first loop of itoa: digits, least significant first. */
  method WriteReversed(value: int, str: array<int>, base: int) returns (i: nat)
    requires base >= 2 && |Numeral(value, base)| < str.Length
    modifies str
    ensures i == |Numeral(value, base)| && str[..i] == Reverse(Numeral(value, base))
  {
    ghost var s := Numeral(value, base);
    var v := value;
    i := 0;
    var more := true;
    while more
      invariant 0 <= i <= |s| && (more ==> i < |s| && s[..|s| - i] == Numeral(v, base))
      invariant !more ==> i == |s|
      invariant forall k :: 0 <= k < i ==> str[k] == s[|s| - 1 - k]
      decreases more, Magnitude(v)
    {
      QuotientShrinks(v, base);
      assert s[..|s| - i][|s| - i - 1] == DigitChar(CRem(v, base));
      str[i] := DigitChar(CRem(v, base));
      i := i + 1;
      v := CQuot(v, base);
      assert v != 0 ==> s[..|s| - i] == Numeral(v, base);
      more := v != 0;
    }
  }

  /** The second loop of itoa: the first n characters are turned round. */
  method ReverseInPlace(str: array<int>, n: nat)
    requires n < str.Length
    modifies str
    ensures str[..n] == Reverse(old(str[..n])) && str[n..] == old(str[n..])
  {
    var j, i := 0, n - 1;
    while j < i
      invariant 0 <= j <= i + 2 && j + i == n - 1
      invariant forall k :: 0 <= k < j || i < k < n ==> str[k] == old(str[n - 1 - k])
      invariant forall k :: j <= k <= i || n <= k < str.Length ==> str[k] == old(str[k])
    {
      str[j], str[i] := str[i], str[j];
      j := j + 1;
      i := i - 1;
    }
    ghost var r := Reverse(old(str[..n]));
    assert forall k :: 0 <= k < n ==> str[..n][k] == r[k];
  }

  // ----- atoi -----

  predicate IsBlank(c: int)
  {
    c == BLANK || 9 <= c < 14
  }

  predicate IsDigit(c: int)
  {
    ZERO <= c < ZERO + 10
  }

  /** Blanks, digits and signs are those of ASCII. */
  lemma {:induction false} AsciiClasses(c: char)
    ensures IsBlank(c as int) <==> c == ' ' || c == '\t' || c == '\n' || c == '\r' || c as int == 11 || c as int == 12
    ensures IsDigit(c as int) <==> '0' <= c <= '9'
    ensures MINUS == '-' as int && PLUS == '+' as int
  {
  }

  function SkipBlanks(s: seq<int>): seq<int>
  {
    if s != [] && IsBlank(s[0]) then SkipBlanks(s[1..]) else s
  }

  function DigitRun(s: seq<int>): (d: seq<int>)
    ensures d <= s && forall k :: 0 <= k < |d| ==> IsDigit(d[k])
  {
    if s != [] && IsDigit(s[0]) then
      assert forall k :: 0 <= k < |s| - 1 ==> s[1..][k] == s[k + 1];
      [s[0]] + DigitRun(s[1..])
    else []
  }

  /** The string behind a sign. */
  function Unsigned(s: seq<int>): seq<int>
  {
    if s != [] && (s[0] == MINUS || s[0] == PLUS) then s[1..] else s
  }

  /** What a string means as a 32-bit integer: the digits behind blanks and a sign, wrapped. */
  function Meaning(s: seq<int>): int
  {
    var t := SkipBlanks(s);
    var v := I32(ValueOf(DigitRun(Unsigned(t)), 10));
    if t != [] && t[0] == MINUS then I32(-v) else v
  }

  /** Accumulating with wrap-around is wrapping the exact value. */
  lemma {:induction false} WrapStep(x: int, c: int)
    ensures I32(I32(I32(I32(x) * 10) + c) - ZERO) == I32(x * 10 + (c - ZERO))
  {
    var k := (x - I32(x)) / WORD_RANGE;
    WrapIsCongruent(x);
    WrapIsCongruent(I32(x) * 10);
    WrapIsCongruent(I32(I32(x) * 10) + c);
    var a := (I32(x) * 10 - I32(I32(x) * 10)) / WORD_RANGE;
    var b := (I32(I32(x) * 10) + c - I32(I32(I32(x) * 10) + c)) / WORD_RANGE;
    assert I32(I32(I32(x) * 10) + c) - ZERO + WORD_RANGE * (b + a + 10 * k) == x * 10 + (c - ZERO);
    SameWrap(I32(I32(I32(x) * 10) + c) - ZERO, b + a + 10 * k);
  }

  lemma {:induction false} WrapIsCongruent(x: int)
    ensures x == I32(x) + WORD_RANGE * ((x - I32(x)) / WORD_RANGE)
  {
    var q := (x + 0x8000_0000) / WORD_RANGE;
    assert x - I32(x) == WORD_RANGE * q;
  }

  lemma {:induction false} SameWrap(x: int, k: int)
    ensures I32(x + WORD_RANGE * k) == I32(x)
  {
    assert (x + 0x8000_0000 + WORD_RANGE * k) % WORD_RANGE == (x + 0x8000_0000) % WORD_RANGE;
  }

  /** atoi. */
  method Atoi(s: seq<int>) returns (result: int)
    requires forall k :: 0 <= k < |s| ==> s[k] != 0
    ensures result == Meaning(s)
  {
    var i := 0;
    while i < |s| && IsBlank(s[i])
      invariant 0 <= i <= |s| && SkipBlanks(s[i..]) == SkipBlanks(s)
    {
      assert s[i..][1..] == s[i + 1..];
      i := i + 1;
    }
    ghost var t := s[i..];
    var negative := false;
    if i < |s| && s[i] == MINUS {
      negative := true;
      i := i + 1;
    } else if i < |s| && s[i] == PLUS {
      i := i + 1;
    }
    ghost var u := Unsigned(t);
    assert u == s[i..];
    var v := ReadDigits(s, i);
    result := if negative then I32(-v) else v;
  }

  /** The digits read so far and what is left make up the run, and v is their wrapped value. */
  ghost predicate Reading(s: seq<int>, run: seq<int>, i: nat, read: seq<int>, v: int)
  {
    i <= |s| && run == read + DigitRun(s[i..]) && v == I32(ValueOf(read, 10))
  }

  /** One step of the digit loop, in 32-bit arithmetic. */
  method TakeDigit(s: seq<int>, i: nat, v: int, ghost run: seq<int>, ghost read: seq<int>) returns (v': int)
    requires Reading(s, run, i, read, v) && i < |s| && IsDigit(s[i])
    ensures Reading(s, run, i + 1, read + [s[i]], v')
  {
    assert s[i..][1..] == s[i + 1..];
    assert read + ([s[i]] + DigitRun(s[i + 1..])) == (read + [s[i]]) + DigitRun(s[i + 1..]);
    ValueAppend(read, s[i], 10);
    WrapStep(ValueOf(read, 10), s[i]);
    v' := I32(I32(I32(v * 10) + s[i]) - ZERO);
  }

  lemma {:induction false} StartReading(s: seq<int>, from: nat)
    requires from <= |s|
    ensures Reading(s, DigitRun(s[from..]), from, [], 0)
  {
    assert [] + DigitRun(s[from..]) == DigitRun(s[from..]);
  }

  lemma {:induction false} EndReading(s: seq<int>, run: seq<int>, i: nat, read: seq<int>, v: int)
    requires Reading(s, run, i, read, v) && (i == |s| || !IsDigit(s[i]))
    ensures v == I32(ValueOf(run, 10))
  {
    assert read + [] == read;
  }

  /** The digit loop of atoi. */
  method ReadDigits(s: seq<int>, from: nat) returns (v: int)
    requires from <= |s|
    ensures v == I32(ValueOf(DigitRun(s[from..]), 10))
  {
    ghost var run := DigitRun(s[from..]);
    ghost var read: seq<int> := [];
    StartReading(s, from);
    v := 0;
    var i := from;
    while i < |s| && IsDigit(s[i])
      invariant from <= i <= |s| && Reading(s, run, i, read, v)
    {
      v := TakeDigit(s, i, v, run, read);
      read := read + [s[i]];
      i := i + 1;
    }
    EndReading(s, run, i, read, v);
  }

  // ----- the round trip -----

  lemma {:induction false} AllDigits(s: seq<int>)
    requires forall k :: 0 <= k < |s| ==> IsDigit(s[k])
    ensures DigitRun(s) == s
  {
    if s != [] {
      AllDigits(s[1..]);
    }
  }

  lemma {:induction false} NonNegativeRoundTrip(n: int)
    requires 0 <= n < 0x8000_0000
    ensures Meaning(Numeral(n, 10)) == n
  {
    NumeralMeansValue(n, 10);
    DigitsMeanTheirValue(Numeral(n, 10), n);
  }

  /** A string of decimal digits means its value. */
  lemma {:induction false} DigitsMeanTheirValue(s: seq<int>, n: int)
    requires s != [] && ValueOf(s, 10) == n && 0 <= n < 0x8000_0000
    requires forall k :: 0 <= k < |s| ==> 0 <= DigitOf(s[k]) < 10
    ensures Meaning(s) == n
  {
    forall k | 0 <= k < |s| ensures IsDigit(s[k]) {
      DigitsOnly(s[k]);
    }
    AllDigits(s);
    MeaningUnsigned(s);
    SmallIsItself(n);
  }

  lemma {:induction false} MeaningUnsigned(s: seq<int>)
    requires s != [] && IsDigit(s[0])
    ensures Meaning(s) == I32(ValueOf(DigitRun(s), 10))
  {
    assert SkipBlanks(s) == s && Unsigned(s) == s;
  }

  lemma {:induction false} DigitsOnly(c: int)
    requires 0 <= DigitOf(c) < 10
    ensures IsDigit(c)
  {
  }

  lemma {:induction false} SmallIsItself(n: int)
    requires 0 <= n < 0x8000_0000
    ensures I32(n) == n
  {
  }

  /** For a negative value the characters lie at or below '0', the first one strictly below. */
  lemma {:induction false} NegativeNumeral(n: int)
    requires n < 0
    ensures forall k :: 0 <= k < |Numeral(n, 10)| ==> ZERO - 9 <= Numeral(n, 10)[k] <= ZERO
    ensures Numeral(n, 10)[0] < ZERO
    decreases -n
  {
    var q := CQuot(n, 10);
    Divided(-n, 10);
    QuotientShrinks(n, 10);
    if q != 0 {
      NegativeNumeral(q);
    }
  }

  lemma {:induction false} ZerosAreWorthless(s: seq<int>)
    requires forall k :: 0 <= k < |s| ==> s[k] == ZERO
    ensures ValueOf(s, 10) == 0
  {
    if s != [] {
      ZerosAreWorthless(s[..|s| - 1]);
    }
  }

  /** For example: the character of -1 is the one before '0', which atoi takes for no digit. */
  lemma {:induction false} MinusOneLost()
    ensures Numeral(-1, 10) == [ZERO - 1] && Meaning(Numeral(-1, 10)) == 0
  {
    RoundTripExactly(-1);
    assert CQuot(-1, 10) == 0;
  }

  /** atoi undoes itoa in base ten exactly for the non-negative integers; a negative one comes back as 0. */
  lemma {:induction false} RoundTripExactly(n: int)
    requires -0x8000_0000 <= n < 0x8000_0000
    ensures Meaning(Numeral(n, 10)) == n <==> n >= 0
    ensures n < 0 ==> Meaning(Numeral(n, 10)) == 0
  {
    if n >= 0 {
      NonNegativeRoundTrip(n);
    } else {
      var s := Numeral(n, 10);
      NegativeNumeral(n);
      assert SkipBlanks(s) == s;
      var run := DigitRun(Unsigned(s));
      forall k | 0 <= k < |run| ensures run[k] == ZERO {
        assert run[k] == Unsigned(s)[k];
      }
      ZerosAreWorthless(run);
    }
  }

  /** With blanks and a sign before it the numeral of n means n or -n. */
  lemma {:induction false} SignedMeaning(blanks: seq<int>, n: int)
    requires 0 <= n < 0x8000_0000 && forall k :: 0 <= k < |blanks| ==> IsBlank(blanks[k])
    ensures Meaning(blanks + (['-' as int] + Numeral(n, 10))) == -n
    ensures Meaning(blanks + (['+' as int] + Numeral(n, 10))) == n
    ensures Meaning(blanks + Numeral(n, 10)) == n
  {
    var s := Numeral(n, 10);
    NumeralIsDigits(n);
    BlanksMeanNothing(blanks, ['-' as int] + s);
    BlanksMeanNothing(blanks, ['+' as int] + s);
    BlanksMeanNothing(blanks, s);
    NonNegativeRoundTrip(n);
    SignMeaning(s, n, '-' as int);
    SignMeaning(s, n, '+' as int);
  }

  lemma {:induction false} BlanksMeanNothing(blanks: seq<int>, s: seq<int>)
    requires (forall k :: 0 <= k < |blanks| ==> IsBlank(blanks[k])) && s != [] && !IsBlank(s[0])
    ensures Meaning(blanks + s) == Meaning(s)
  {
    BlanksSkipped(blanks, s);
    assert SkipBlanks(s) == s;
  }

  lemma {:induction false} SignMeaning(s: seq<int>, n: int, sign: int)
    requires s != [] && IsDigit(s[0]) && Meaning(s) == n && 0 <= n < 0x8000_0000
    requires sign == '-' as int || sign == '+' as int
    ensures Meaning([sign] + s) == if sign == '-' as int then -n else n
  {
    var t := [sign] + s;
    MeaningUnsigned(s);
    assert t[1..] == s;
    assert SkipBlanks(t) == t && Unsigned(t) == s;
    SmallIsItself(n);
    Negated(n);
  }

  lemma {:induction false} Negated(n: int)
    requires 0 <= n < 0x8000_0000
    ensures I32(-n) == -n
  {
  }

  lemma {:induction false} NumeralIsDigits(n: int)
    requires 0 <= n
    ensures Numeral(n, 10) != [] && forall k :: 0 <= k < |Numeral(n, 10)| ==> IsDigit(Numeral(n, 10)[k])
  {
    NumeralMeansValue(n, 10);
    forall k | 0 <= k < |Numeral(n, 10)| ensures IsDigit(Numeral(n, 10)[k]) {
      DigitsOnly(Numeral(n, 10)[k]);
    }
  }

  lemma {:induction false} BlanksSkipped(blanks: seq<int>, s: seq<int>)
    requires (forall k :: 0 <= k < |blanks| ==> IsBlank(blanks[k])) && s != [] && !IsBlank(s[0])
    ensures SkipBlanks(blanks + s) == s
  {
    if blanks == [] {
      assert [] + s == s;
    } else {
      assert (blanks + s)[1..] == blanks[1..] + s;
      BlanksSkipped(blanks[1..], s);
    }
  }
}
