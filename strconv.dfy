/**
 * The part of Go's strconv package the meta flag codec relies on:
 * FormatUint/FormatInt in base 10, and ParseUint/ParseInt in base 10.
 * Go strings are modelled as sequences of chars, one char per byte.
 */
module Strconv {
  import opened Wrappers

  type uint32 = x: int | 0 <= x <= 0xFFFF_FFFF
  type uint64 = x: int | 0 <= x <= 0xFFFF_FFFF_FFFF_FFFF
  type int64 = x: int | -0x8000_0000_0000_0000 <= x <= 0x7FFF_FFFF_FFFF_FFFF

  const MinInt64: int := -0x8000_0000_0000_0000
  const MaxInt64: int := 0x7FFF_FFFF_FFFF_FFFF

  /** Which strconv function reported a NumError (its Func field). */
  datatype NumFunc = FnParseUint | FnParseInt

  /** The Err field of a NumError. */
  datatype NumErrorKind = ErrSyntax | ErrRange

  /** strconv.NumError: the function, the input text and the reason. */
  datatype NumError = NumError(fn: NumFunc, num: string, kind: NumErrorKind)

  /** The (value, error) pair returned by ParseUint and ParseInt. */
  datatype Parsed = Parsed(value: int, err: Option<NumError>)

  // ---------------------------------------------------------------------
  // Decimal digits

  predicate IsDigit(c: char) { '0' <= c <= '9' }

  function DigitValue(c: char): (d: nat)
    requires IsDigit(c)
    ensures d < 10
  {
    (c as int) - ('0' as int)
  }

  function DigitChar(d: nat): (c: char)
    requires d < 10
    ensures IsDigit(c) && DigitValue(c) == d
  {
    ((('0' as int) + d) as char)
  }

  predicate AllDigits(s: string) { forall j :: 0 <= j < |s| ==> IsDigit(s[j]) }

  /** The number a string of decimal digits denotes (leading zeros allowed). */
  function DecimalValue(s: string): nat
    requires AllDigits(s)
    decreases |s|
  {
    if s == [] then 0 else 10 * DecimalValue(s[..|s| - 1]) + DigitValue(s[|s| - 1])
  }

  /** Canonical unsigned decimal text: digits only, no leading zero except "0" itself. */
  predicate IsCanonicalUint(s: string)
  {
    |s| > 0 && AllDigits(s) && (s[0] == '0' ==> |s| == 1)
  }

  /** True iff s starts with a minus sign. */
  predicate IsNegative(s: string) { |s| > 0 && s[0] == '-' }

  /** The text ParseInt hands on to ParseUint: s without one leading sign. */
  function Unsigned(s: string): (u: string)
    ensures |u| <= |s|
  {
    if |s| > 0 && (s[0] == '+' || s[0] == '-') then s[1..] else s
  }

  /** Canonical signed decimal text: a minus sign only before a non-zero magnitude. */
  predicate IsCanonicalInt(s: string)
  {
    if IsNegative(s) then IsCanonicalUint(s[1..]) && s[1..] != "0" else IsCanonicalUint(s)
  }

  /** The longest prefix of s made of decimal digits. */
  function LeadingDigits(s: string): (p: string)
    ensures p <= s && AllDigits(p)
    ensures |p| < |s| ==> !IsDigit(s[|p|])
    decreases |s|
  {
    if s != [] && IsDigit(s[0]) then [s[0]] + LeadingDigits(s[1..]) else []
  }

  // ---------------------------------------------------------------------
  // Formatting

  /** strconv.FormatUint(n, 10). */
  function FormatUint(n: nat): (s: string)
    ensures IsCanonicalUint(s) && DecimalValue(s) == n
    decreases n
  {
    if n < 10 then [DigitChar(n)]
    else
      var p := FormatUint(n / 10);
      var s := p + [DigitChar(n % 10)];
      assert s[..|s| - 1] == p;
      s
  }

  /** strconv.FormatInt(i, 10). */
  function FormatInt(i: int): (s: string)
    ensures IsCanonicalInt(s)
    ensures IsNegative(s) <==> i < 0
    ensures AllDigits(Unsigned(s)) && DecimalValue(Unsigned(s)) == if i < 0 then -i else i
  {
    if i < 0 then "-" + FormatUint(-i) else FormatUint(i)
  }

  // ---------------------------------------------------------------------
  // Parsing

  /** The largest value ParseUint accepts for a bit size of 32 or 64. */
  function MaxUint(bitSize: nat): nat
    requires bitSize == 32 || bitSize == 64
  {
    if bitSize == 32 then 0xFFFF_FFFF else 0xFFFF_FFFF_FFFF_FFFF
  }

  /**
   * The digit loop of ParseUint: s[..i] has been read and denotes acc.
   * It stops with ErrSyntax and 0 at the first non-digit, and with ErrRange
   * and max as soon as the number read so far exceeds max.
   */
  function ScanDigits(s: string, i: nat, acc: nat, max: nat): (r: (nat, Option<NumErrorKind>))
    requires i <= |s| && AllDigits(s[..i]) && acc == DecimalValue(s[..i]) && acc <= max
    decreases |s| - i
  {
    if i == |s| then (acc, None)
    else if !IsDigit(s[i]) then (0, Some(ErrSyntax))
    else
      var n := 10 * acc + DigitValue(s[i]);
      assert s[..i + 1][..i] == s[..i];
      if n > max then (max, Some(ErrRange)) else ScanDigits(s, i + 1, n, max)
  }

  /** strconv.ParseUint(s, 10, bitSize) for a bit size of 32 or 64 (see ParseUintSpec). */
  function ParseUint(s: string, bitSize: nat): (r: Parsed)
    requires bitSize == 32 || bitSize == 64
    ensures 0 <= r.value <= MaxUint(bitSize)
  {
    if s == [] then Parsed(0, Some(NumError(FnParseUint, s, ErrSyntax)))
    else
      assert s[..0] == [];
      ScanDigitsSpec(s, 0, 0, MaxUint(bitSize));
      var (v, kind) := ScanDigits(s, 0, 0, MaxUint(bitSize));
      Parsed(v, if kind.None? then None else Some(NumError(FnParseUint, s, kind.value)))
  }

  /**
   * strconv.ParseInt(s, 10, 64): an optional sign, then ParseUint on the rest,
   * then the int64 bounds (see ParseIntSpec).
   */
  function ParseInt(s: string): (r: Parsed)
    ensures MinInt64 <= r.value <= MaxInt64
  {
    if s == [] then Parsed(0, Some(NumError(FnParseInt, s, ErrSyntax)))
    else
      var neg := s[0] == '-';
      var un := ParseUint(Unsigned(s), 64);
      if un.err.Some? && un.err.value.kind != ErrRange then
        Parsed(0, Some(NumError(FnParseInt, s, ErrSyntax)))
      else if !neg && un.value > MaxInt64 then
        Parsed(MaxInt64, Some(NumError(FnParseInt, s, ErrRange)))
      else if neg && un.value > -MinInt64 then
        Parsed(MinInt64, Some(NumError(FnParseInt, s, ErrRange)))
      else
        Parsed(if neg then -un.value else un.value, None)
  }

  /**
   * What ParseUint returns: success exactly on non-empty decimal text within
   * the bit size, with its value; otherwise ErrRange with the maximum when the
   * leading digits already overflow, and ErrSyntax with 0 in every other case.
   */
  lemma ParseUintSpec(s: string, bitSize: nat)
    requires bitSize == 32 || bitSize == 64
    ensures var r := ParseUint(s, bitSize);
      && (r.err.None? <==> s != [] && AllDigits(s) && DecimalValue(s) <= MaxUint(bitSize))
      && (r.err.None? ==> r.value == DecimalValue(s))
      && (r.err.Some? ==> r.err.value.fn == FnParseUint && r.err.value.num == s)
      && (r.err.Some? && r.err.value.kind == ErrSyntax ==> r.value == 0)
      && (r.err.Some? && r.err.value.kind == ErrRange ==> r.value == MaxUint(bitSize))
      && ((r.err.Some? && r.err.value.kind == ErrRange) <==> DecimalValue(LeadingDigits(s)) > MaxUint(bitSize))
  {
    if s != [] {
      assert s[..0] == [];
      ScanDigitsSpec(s, 0, 0, MaxUint(bitSize));
    }
  }

  /**
   * What ParseInt returns: success exactly when the text after one optional
   * sign is non-empty decimal within the int64 range, with the signed value;
   * otherwise 0 on a syntax error and the bound of the sign on a range error.
   */
  lemma ParseIntSpec(s: string)
    ensures var r := ParseInt(s);
      && (r.err.None? <==>
           var u := Unsigned(s);
           u != [] && AllDigits(u) && DecimalValue(u) <= (if IsNegative(s) then -MinInt64 else MaxInt64))
      && (r.err.None? ==>
           r.value == if IsNegative(s) then 0 - DecimalValue(Unsigned(s)) else DecimalValue(Unsigned(s)))
      && (r.err.Some? ==> r.err.value.fn == FnParseInt && r.err.value.num == s)
      && (r.err.Some? && r.err.value.kind == ErrSyntax ==> r.value == 0)
      && (r.err.Some? && r.err.value.kind == ErrRange ==>
           r.value == if IsNegative(s) then MinInt64 else MaxInt64)
    ensures var r, u := ParseInt(s), Unsigned(s);
      (r.err.Some? && r.err.value.kind == ErrRange) <==>
        s != [] &&
        (DecimalValue(LeadingDigits(u)) > MaxUint(64) ||
         (u != [] && AllDigits(u) && DecimalValue(u) > (if IsNegative(s) then -MinInt64 else MaxInt64)))
  {
    if s != [] {
      var u := Unsigned(s);
      ParseUintSpec(u, 64);
      if AllDigits(u) {
        LeadingDigitsAt(u, |u|);
        assert u[..|u|] == u;
      }
    }
  }

  // ---------------------------------------------------------------------
  // Lemmas

  /** A digit string is worth at least as much as any of its prefixes. */
  lemma {:induction false} PrefixValueLe(s: string, j: nat)
    requires AllDigits(s) && j <= |s|
    ensures DecimalValue(s[..j]) <= DecimalValue(s)
    decreases |s|
  {
    if j < |s| {
      var q := s[..|s| - 1];
      assert q[..j] == s[..j];
      PrefixValueLe(q, j);
    } else {
      assert s[..j] == s;
    }
  }

  /** LeadingDigits(s) is the only maximal digit prefix of s. */
  lemma {:induction false} LeadingDigitsAt(s: string, i: nat)
    requires i <= |s| && AllDigits(s[..i]) && (i == |s| || !IsDigit(s[i]))
    ensures LeadingDigits(s) == s[..i]
    decreases i
  {
    if i > 0 {
      assert IsDigit(s[..i][0]);
      assert s[1..][..i - 1] == s[..i][1..];
      LeadingDigitsAt(s[1..], i - 1);
      assert s[..i] == [s[0]] + s[1..][..i - 1];
    }
  }

  /** What ScanDigits returns, in terms of the whole input. */
  lemma {:induction false} ScanDigitsSpec(s: string, i: nat, acc: nat, max: nat)
    requires i <= |s| && AllDigits(s[..i]) && acc == DecimalValue(s[..i]) && acc <= max
    ensures var r := ScanDigits(s, i, acc, max);
      && r.0 <= max
      && (r.1.None? <==> AllDigits(s) && DecimalValue(s) <= max)
      && (r.1.None? ==> r.0 == DecimalValue(s))
      && (r.1 == Some(ErrSyntax) ==> r.0 == 0)
      && (r.1 == Some(ErrRange) ==> r.0 == max)
      && (r.1 == Some(ErrRange) <==> DecimalValue(LeadingDigits(s)) > max)
    decreases |s| - i
  {
    if i == |s| {
      assert s[..i] == s;
      LeadingDigitsAt(s, i);
    } else if !IsDigit(s[i]) {
      LeadingDigitsAt(s, i);
    } else {
      var n := 10 * acc + DigitValue(s[i]);
      assert s[..i + 1][..i] == s[..i];
      assert AllDigits(s[..i + 1]) && DecimalValue(s[..i + 1]) == n;
      var p := LeadingDigits(s);
      assert |p| >= i + 1;
      assert p[..i + 1] == s[..i + 1];
      PrefixValueLe(p, i + 1);
      if n > max {
        assert ScanDigits(s, i, acc, max) == (max, Some(ErrRange));
        if AllDigits(s) {
          PrefixValueLe(s, i + 1);
        }
      } else {
        assert ScanDigits(s, i, acc, max) == ScanDigits(s, i + 1, n, max);
        ScanDigitsSpec(s, i + 1, n, max);
      }
    }
  }

  /** A digit string whose first digit is not '0' denotes a positive number. */
  lemma {:induction false} LeadingNonZeroPositive(s: string)
    requires |s| > 0 && AllDigits(s) && s[0] != '0'
    ensures DecimalValue(s) > 0
    decreases |s|
  {
    if |s| > 1 {
      LeadingNonZeroPositive(s[..|s| - 1]);
    }
  }

  /** FormatUint(n) is the only canonical decimal text for n. */
  lemma {:induction false} CanonicalUintUnique(t: string, n: nat)
    requires IsCanonicalUint(t) && DecimalValue(t) == n
    ensures t == FormatUint(n)
    decreases |t|
  {
    if |t| > 1 {
      var p := t[..|t| - 1];
      LeadingNonZeroPositive(p);
      assert n / 10 == DecimalValue(p) && n % 10 == DigitValue(t[|t| - 1]);
      CanonicalUintUnique(p, n / 10);
      assert DigitChar(n % 10) == t[|t| - 1];
      assert t == p + [t[|t| - 1]];
    } else {
      assert DigitChar(n) == t[0];
    }
  }

  /** FormatInt(i) is the only canonical signed decimal text for i. */
  lemma CanonicalIntUnique(t: string, i: int)
    requires IsCanonicalInt(t) && AllDigits(Unsigned(t))
    requires DecimalValue(Unsigned(t)) == (if i < 0 then -i else i)
    requires IsNegative(t) <==> i < 0
    ensures t == FormatInt(i)
  {
    if i < 0 {
      CanonicalUintUnique(t[1..], -i);
      assert t == "-" + t[1..];
    } else {
      CanonicalUintUnique(t, i);
    }
  }

  /** Parsing the formatted text of a value within the bit size gives the value back. */
  lemma ParseFormatUint(n: nat, bitSize: nat)
    requires bitSize == 32 || bitSize == 64
    requires n <= MaxUint(bitSize)
    ensures ParseUint(FormatUint(n), bitSize) == Parsed(n, None)
  {
    ParseUintSpec(FormatUint(n), bitSize);
  }

  /** Parsing the formatted text of an int64 gives the value back. */
  lemma ParseFormatInt(i: int64)
    ensures ParseInt(FormatInt(i)) == Parsed(i, None)
  {
    var s := FormatInt(i);
    ParseIntSpec(s);
    if i >= 0 {
      assert s[0] != '+' && s[0] != '-' by { assert IsDigit(s[0]); }
    }
  }
}
