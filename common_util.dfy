/**
 * Null-safe string helpers (`CommonUtil`). Java's `String.trim` removes every
 * character at or below U+0020 from both ends; "blank" means null or a string
 * that trims to nothing.
 */
module CommonUtil {
  import opened Wrappers

  /** A Java `String` reference that may be null. */
  type JString = Option<string>

  const INT32_MIN: int := -0x8000_0000
  const INT32_MAX: int := 0x7FFF_FFFF
  const INT64_MIN: int := -0x8000_0000_0000_0000
  const INT64_MAX: int := 0x7FFF_FFFF_FFFF_FFFF

  type int32 = x: int | INT32_MIN <= x <= INT32_MAX
  type int64 = x: int | INT64_MIN <= x <= INT64_MAX

  /** A character `String.trim` strips. */
  predicate IsTrimmed(c: char) {
    c <= ' '
  }

  predicate AllTrimmed(s: string) {
    forall i | 0 <= i < |s| :: IsTrimmed(s[i])
  }

  /** No character `String.trim` strips at either end. */
  predicate TrimmedText(s: string) {
    s == [] || (!IsTrimmed(s[0]) && !IsTrimmed(s[|s| - 1]))
  }

  // ---------------------------------------------------------------------
  // String.trim

  /** The index of the first character at or after `i` that `String.trim` keeps, or `|s|`. */
  function KeptStart(s: string, i: nat): (k: nat)
    requires i <= |s|
    ensures i <= k <= |s|
    ensures forall j | i <= j < k :: IsTrimmed(s[j])
    ensures k == |s| || !IsTrimmed(s[k])
    decreases |s| - i
  {
    if i < |s| && IsTrimmed(s[i]) then KeptStart(s, i + 1) else i
  }

  /** Scanning down from `j` to no lower than `lo`: one past the last character `String.trim` keeps. */
  function KeptEnd(s: string, lo: nat, j: nat): (e: nat)
    requires lo <= j <= |s|
    ensures lo <= e <= j
    ensures forall m | e <= m < j :: IsTrimmed(s[m])
    ensures e == lo || !IsTrimmed(s[e - 1])
  {
    if j > lo && IsTrimmed(s[j - 1]) then KeptEnd(s, lo, j - 1) else j
  }

  /** The number of characters `String.trim` strips from the front. */
  function TrimOffset(s: string): nat
    ensures TrimOffset(s) <= |s|
  {
    KeptStart(s, 0)
  }

  /**
   * `String.trim`: the longest factor of `s` that neither starts nor ends with
   * a character at or below U+0020, everything around it being such characters.
   */
  function Trim(s: string): (r: string)
    ensures TrimOffset(s) + |r| <= |s| && r == s[TrimOffset(s)..TrimOffset(s) + |r|]
    ensures AllTrimmed(s[..TrimOffset(s)]) && AllTrimmed(s[TrimOffset(s) + |r|..])
    ensures |r| <= |s| && TrimmedText(r)
    ensures r == [] <==> AllTrimmed(s)
  {
    var start := KeptStart(s, 0);
    var end := KeptEnd(s, start, |s|);
    TrimBounds(s, start, end);
    s[start..end]
  }

  /** What the two scans say about the factor between them. */
  lemma TrimBounds(s: string, start: nat, end: nat)
    requires start <= end <= |s|
    requires forall j | 0 <= j < start :: IsTrimmed(s[j])
    requires start == |s| || !IsTrimmed(s[start])
    requires forall m | end <= m < |s| :: IsTrimmed(s[m])
    requires end == start || !IsTrimmed(s[end - 1])
    ensures AllTrimmed(s[..start]) && AllTrimmed(s[end..])
    ensures TrimmedText(s[start..end])
    ensures s[start..end] == [] <==> AllTrimmed(s)
  {
    if start != end {
      assert s[start..end][0] == s[start];
    }
  }

  lemma {:induction false} TrimIdempotent(s: string)
    ensures Trim(Trim(s)) == Trim(s)
  {
    var t := Trim(s);
    if t != [] {
      assert KeptStart(t, 0) == 0;
      assert KeptEnd(t, 0, |t|) == |t|;
      assert t[0..|t|] == t;
    }
  }

  // ---------------------------------------------------------------------
  // Predicates

  function IsEmpty(str: JString): (b: bool)
    ensures b ==> IsBlank(str)
  {
    str.None? || |str.value| == 0
  }

  /**
   * `isBlank`: null, or nothing but characters `String.trim` strips. Stated by
   * characters; `BlankIffTrimsToEmpty` shows it is `str.trim().isEmpty()`.
   */
  predicate IsBlank(str: JString) {
    str.None? || AllTrimmed(str.value)
  }

  /** `isBlank` as the source writes it: null, or trimming leaves nothing. */
  lemma BlankIffTrimsToEmpty(str: JString)
    ensures IsBlank(str) <==> str.None? || Trim(str.value) == ""
  {
  }

  /** `hasText`: not null and not only characters `String.trim` strips. */
  function HasText(str: JString): (b: bool)
    ensures b <==> !IsBlank(str)
  {
    str.Some? && !AllTrimmed(str.value)
  }

  /** `hasText` as the source writes it: not null, and trimming leaves something. */
  lemma HasTextIffTrimsToText(str: JString)
    ensures HasText(str) <==> str.Some? && Trim(str.value) != ""
  {
  }

  /** `isEmpty` is strictly stronger than `isBlank`: a single space is blank but not empty. */
  lemma SpaceIsBlankNotEmpty()
    ensures IsBlank(Some(" ")) && !IsEmpty(Some(" "))
  {
  }

  // ---------------------------------------------------------------------
  // Defaults

  function DefaultIfNull<T>(value: Option<T>, defaultValue: Option<T>): (r: Option<T>)
    ensures value.Some? ==> r == value
    ensures value.None? ==> r == defaultValue
  {
    if value.Some? then value else defaultValue
  }

  function DefaultIfEmpty(str: JString, defaultValue: JString): (r: JString)
    ensures IsEmpty(str) ==> r == defaultValue
    ensures !IsEmpty(str) ==> r == str && |r.value| > 0
  {
    if IsEmpty(str) then defaultValue else str
  }

  /** The argument itself, untrimmed, unless it is blank. */
  function DefaultIfBlank(str: JString, defaultValue: JString): (r: JString)
    ensures IsBlank(str) ==> r == defaultValue
    ensures !IsBlank(str) ==> r == str && HasText(r)
  {
    if IsBlank(str) then defaultValue else str
  }

  // ---------------------------------------------------------------------
  // Trimming

  function TrimSafely(str: JString): (r: JString)
    ensures r.None? <==> str.None?
    ensures r.Some? ==> r.value == Trim(str.value)
  {
    if str.Some? then Some(Trim(str.value)) else None
  }

  function TrimToEmpty(str: JString): (r: string)
    ensures TrimmedText(r)
    ensures str.Some? ==> |r| <= |str.value|
    ensures str.None? ==> r == ""
    ensures str.Some? ==> r == Trim(str.value)
  {
    if str.Some? then Trim(str.value) else ""
  }

  lemma TrimToEmptyIdempotent(str: JString)
    ensures TrimToEmpty(Some(TrimToEmpty(str))) == TrimToEmpty(str)
  {
    if str.Some? {
      TrimIdempotent(str.value);
    }
  }

  function TrimToNull(str: JString): (r: JString)
    ensures r.None? <==> IsBlank(str)
    ensures r.Some? ==> r.value == TrimToEmpty(str) && r.value != ""
  {
    if str.None? then None
    else
      var trimmed := Trim(str.value);
      if trimmed == "" then None else Some(trimmed)
  }

  // ---------------------------------------------------------------------
  // Integer.parseInt / Long.parseLong (radix 10)

  predicate IsDigit(c: char) {
    '0' <= c <= '9'
  }

  predicate AllDigits(s: string) {
    forall i | 0 <= i < |s| :: IsDigit(s[i])
  }

  /** The value of a string of decimal digits, most significant first. */
  function DigitsValue(s: string): nat
    requires AllDigits(s)
  {
    if s == [] then 0
    else 10 * DigitsValue(s[..|s| - 1]) + (s[|s| - 1] as int - '0' as int)
  }

  /**
   * The value of an optional `+` or `-` followed by at least one decimal
   * digit, or `None` for any other text (what `parseInt` rejects before it
   * checks the range).
   */
  function DecimalValue(t: string): (r: Option<int>)
    ensures r.Some? ==> t != []
  {
    if t == [] then None
    else if t[0] == '-' || t[0] == '+' then
      var digits := t[1..];
      if digits != [] && AllDigits(digits) then
        var magnitude: int := DigitsValue(digits);
        Some(if t[0] == '-' then -magnitude else magnitude)
      else None
    else if AllDigits(t) then Some(DigitsValue(t))
    else None
  }

  function DecimalInRange(t: string, lo: int, hi: int): Option<int> {
    var v := DecimalValue(t);
    if v.Some? && lo <= v.value <= hi then v else None
  }

  function ParseIntSafely(str: JString, defaultValue: int32): (r: int32)
    ensures IsBlank(str) ==> r == defaultValue
  {
    if IsBlank(str) then defaultValue
    else
      var v := DecimalInRange(Trim(str.value), INT32_MIN, INT32_MAX);
      if v.Some? then v.value else defaultValue
  }

  function ParseLongSafely(str: JString, defaultValue: int64): (r: int64)
    ensures IsBlank(str) ==> r == defaultValue
  {
    if IsBlank(str) then defaultValue
    else
      var v := DecimalInRange(Trim(str.value), INT64_MIN, INT64_MAX);
      if v.Some? then v.value else defaultValue
  }

  // ---------------------------------------------------------------------
  // Decimal rendering (the partner of parsing)

  function DigitChar(d: int): (c: char)
    requires 0 <= d < 10
    ensures IsDigit(c) && c as int - '0' as int == d
  {
    ('0' as int + d) as char
  }

  /** `Long.toString` of a non-negative value. */
  function NatToDecimal(n: nat): (s: string)
    ensures s != [] && AllDigits(s)
  {
    if n < 10 then [DigitChar(n)] else NatToDecimal(n / 10) + [DigitChar(n % 10)]
  }

  function IntToDecimal(n: int): (s: string) {
    if n < 0 then "-" + NatToDecimal(-n) else NatToDecimal(n)
  }

  lemma {:induction false} DigitsValueOfDecimal(n: nat)
    ensures DigitsValue(NatToDecimal(n)) == n
  {
    if n >= 10 {
      var s := NatToDecimal(n);
      assert s[..|s| - 1] == NatToDecimal(n / 10);
      DigitsValueOfDecimal(n / 10);
    }
  }

  lemma DecimalValueOfDecimal(n: int)
    ensures DecimalValue(IntToDecimal(n)) == Some(n)
  {
    if n < 0 {
      SignedDigitsValue(NatToDecimal(-n));
      DigitsValueOfDecimal(-n);
    } else {
      UnsignedDigitsValue(NatToDecimal(n));
      DigitsValueOfDecimal(n);
    }
  }

  /** A minus sign before digits negates their value. */
  lemma SignedDigitsValue(digits: string)
    requires digits != [] && AllDigits(digits)
    ensures DecimalValue("-" + digits) == Some(-(DigitsValue(digits) as int))
  {
    assert ("-" + digits)[1..] == digits;
  }

  /** Digits without a sign are read as they are. */
  lemma UnsignedDigitsValue(digits: string)
    requires digits != [] && AllDigits(digits)
    ensures DecimalValue(digits) == Some(DigitsValue(digits))
  {
    assert IsDigit(digits[0]);
  }

  /** Any 32-bit value, rendered in decimal and padded with blanks, parses back to itself. */
  lemma ParseIntRoundTrip(n: int32, pad: string, defaultValue: int32)
    requires AllTrimmed(pad)
    ensures ParseIntSafely(Some(pad + IntToDecimal(n) + pad), defaultValue) == n
  {
    PaddedDecimal(n, pad);
    ParseIntOfText(pad + IntToDecimal(n) + pad, n as int, defaultValue);
  }

  /** The same for 64-bit values and `parseLongSafely`. */
  lemma ParseLongRoundTrip(n: int64, pad: string, defaultValue: int64)
    requires AllTrimmed(pad)
    ensures ParseLongSafely(Some(pad + IntToDecimal(n) + pad), defaultValue) == n
  {
    PaddedDecimal(n, pad);
    ParseLongOfText(pad + IntToDecimal(n) + pad, n as int, defaultValue);
  }

  /** Text that is not blank and trims to a decimal of value `v` parses to `v` when it is in range, else to the default. */
  lemma ParseIntOfText(s: string, v: int, defaultValue: int32)
    requires !IsBlank(Some(s)) && DecimalValue(Trim(s)) == Some(v)
    ensures INT32_MIN <= v <= INT32_MAX ==> ParseIntSafely(Some(s), defaultValue) == v
    ensures !(INT32_MIN <= v <= INT32_MAX) ==> ParseIntSafely(Some(s), defaultValue) == defaultValue
  {
  }

  lemma ParseLongOfText(s: string, v: int, defaultValue: int64)
    requires !IsBlank(Some(s)) && DecimalValue(Trim(s)) == Some(v)
    ensures INT64_MIN <= v <= INT64_MAX ==> ParseLongSafely(Some(s), defaultValue) == v
    ensures !(INT64_MIN <= v <= INT64_MAX) ==> ParseLongSafely(Some(s), defaultValue) == defaultValue
  {
  }

  /** A padded decimal is not blank, trims to the decimal and reads back as `n`. */
  lemma PaddedDecimal(n: int, pad: string)
    requires AllTrimmed(pad)
    ensures !IsBlank(Some(pad + IntToDecimal(n) + pad))
    ensures Trim(pad + IntToDecimal(n) + pad) == IntToDecimal(n)
    ensures DecimalValue(IntToDecimal(n)) == Some(n)
  {
    PaddedTrim(pad, IntToDecimal(n));
    DecimalValueOfDecimal(n);
  }

  /** An optionally signed decimal outside the 32-bit range yields the default. */
  lemma ParseIntOutOfRange(n: int, defaultValue: int32)
    requires n < INT32_MIN || INT32_MAX < n
    ensures ParseIntSafely(Some(IntToDecimal(n)), defaultValue) == defaultValue
  {
    UnpaddedDecimal(n);
    ParseIntOfText(IntToDecimal(n), n, defaultValue);
  }

  /** `PaddedDecimal` with nothing around the digits. */
  lemma UnpaddedDecimal(n: int)
    ensures !IsBlank(Some(IntToDecimal(n)))
    ensures Trim(IntToDecimal(n)) == IntToDecimal(n)
    ensures DecimalValue(IntToDecimal(n)) == Some(n)
  {
    PaddedDecimal(n, "");
    NoPadding(IntToDecimal(n));
  }

  lemma NoPadding<T>(t: seq<T>)
    ensures [] + t + [] == t
  {
  }

  /** Text that is not an optionally signed decimal yields the default. */
  lemma ParseIntNotDecimal(str: JString, defaultValue: int32)
    requires str.Some? && DecimalValue(Trim(str.value)).None?
    ensures ParseIntSafely(str, defaultValue) == defaultValue
  {
  }

  /** Whatever the input, the result is the default or the value of the trimmed text. */
  lemma ParseIntCases(str: JString, defaultValue: int32)
    ensures var r := ParseIntSafely(str, defaultValue);
            r == defaultValue || (str.Some? && DecimalValue(Trim(str.value)) == Some(r as int))
  {
  }

  /** An optionally signed decimal outside the 64-bit range yields the default. */
  lemma ParseLongOutOfRange(n: int, defaultValue: int64)
    requires n < INT64_MIN || INT64_MAX < n
    ensures ParseLongSafely(Some(IntToDecimal(n)), defaultValue) == defaultValue
  {
    UnpaddedDecimal(n);
    ParseLongOfText(IntToDecimal(n), n, defaultValue);
  }

  /** Text that is not an optionally signed decimal yields the default, as for `parseIntSafely`. */
  lemma ParseLongNotDecimal(str: JString, defaultValue: int64)
    requires str.Some? && DecimalValue(Trim(str.value)).None?
    ensures ParseLongSafely(str, defaultValue) == defaultValue
  {
  }

  /** Whatever the input, the result is the default or the value of the trimmed text. */
  lemma ParseLongCases(str: JString, defaultValue: int64)
    ensures var r := ParseLongSafely(str, defaultValue);
            r == defaultValue || (str.Some? && DecimalValue(Trim(str.value)) == Some(r as int))
  {
  }

  /** Scanning from inside the leading blanks stops where they end. */
  lemma {:induction false} KeptStartPadded(pad: string, t: string, i: nat)
    requires AllTrimmed(pad) && i <= |pad| && t != [] && !IsTrimmed(t[0])
    ensures KeptStart(pad + t, i) == |pad|
    decreases |pad| - i
  {
    if i < |pad| {
      assert (pad + t)[i] == pad[i];
      KeptStartPadded(pad, t, i + 1);
    } else {
      assert (pad + t)[i] == t[0];
    }
  }

  /** Scanning down through the trailing blanks stops where they begin. */
  lemma {:induction false} KeptEndPadded(u: string, pad: string, lo: nat, j: nat)
    requires AllTrimmed(pad) && lo <= |u| <= j <= |u| + |pad|
    requires lo == |u| || !IsTrimmed(u[|u| - 1])
    ensures KeptEnd(u + pad, lo, j) == |u|
    decreases j
  {
    if j > |u| {
      assert (u + pad)[j - 1] == pad[j - 1 - |u|];
      KeptEndPadded(u, pad, lo, j - 1);
    } else if lo < |u| {
      assert (u + pad)[j - 1] == u[|u| - 1];
    }
  }

  lemma PaddedTrim(pad: string, t: string)
    requires AllTrimmed(pad) && t != [] && !IsTrimmed(t[0]) && !IsTrimmed(t[|t| - 1])
    ensures Trim(pad + t + pad) == t
  {
    Framed(pad, t, pad);
    KeptStartPadded(pad, t + pad, 0);
    KeptEndPadded(pad + t, pad, |pad|, |pad| + |t| + |pad|);
  }

  /** How `a + b + c` splits around its middle part. */
  lemma Framed<T>(a: seq<T>, b: seq<T>, c: seq<T>)
    ensures a + b + c == a + (b + c) && (a + b + c)[|a|..|a| + |b|] == b
  {
    assert (a + b + c)[|a|..|a| + |b|] == b;
  }
}
