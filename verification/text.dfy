/** Text helpers the backend relies on: Python's substring test, Python's `int()`
    on a decimal string, and the `HH:MM:SS` rendering of a time of day. */
module Text {

  datatype Option<T> = None | Some(value: T)

  /** Seconds since midnight; the database column type `TIME` at one-second grain. */
  type TimeOfDay = t: int | 0 <= t < 86400

  const SecondsPerDay: int := 86400

  /** Python truthiness of an optional string: set and non-empty. */
  predicate Truthy(o: Option<string>)
  {
    o.Some? && o.value != ""
  }

  // ---------------------------------------------------------------------------
  // Substring test (`sub in s`)

  /** Python's `sub in s` on strings. */
  function Contains(s: string, sub: string): bool
    decreases |s|
  {
    sub <= s || (s != [] && Contains(s[1..], sub))
  }

  /** `sub` occurs in `s` starting at index `i`. */
  predicate OccursAt(s: string, sub: string, i: int)
  {
    0 <= i <= |s| - |sub| && s[i..i + |sub|] == sub
  }

  lemma SliceOfTail(s: string, i: int, n: nat)
    requires 1 <= i && i + n <= |s|
    ensures s[1..][i - 1..i - 1 + n] == s[i..i + n]
  {
    var a, b := s[1..][i - 1..i - 1 + n], s[i..i + n];
    assert |a| == |b|;
    forall k | 0 <= k < n ensures a[k] == b[k] {
      assert a[k] == s[1..][i - 1 + k] == s[i + k];
    }
  }

  /** `Contains` agrees with the reference definition: `sub` occurs at some index. */
  lemma {:induction false} ContainsIffOccurs(s: string, sub: string)
    ensures Contains(s, sub) <==> exists i :: OccursAt(s, sub, i)
  {
    if sub <= s {
      assert OccursAt(s, sub, 0);
    } else if s == [] {
      assert |sub| > 0;
    } else {
      ContainsIffOccurs(s[1..], sub);
      if Contains(s[1..], sub) {
        var i :| OccursAt(s[1..], sub, i);
        SliceOfTail(s, i + 1, |sub|);
        assert OccursAt(s, sub, i + 1);
      } else {
        assert !OccursAt(s, sub, 0);
        forall i | OccursAt(s, sub, i)
          ensures OccursAt(s[1..], sub, i - 1)
        {
          assert i != 0;
          SliceOfTail(s, i, |sub|);
        }
      }
    }
  }

  // ---------------------------------------------------------------------------
  // Decimal digits

  predicate IsDigit(c: char) { '0' <= c <= '9' }

  predicate AllDigits(s: string) { forall i :: 0 <= i < |s| ==> IsDigit(s[i]) }

  function DigitValue(c: char): (d: nat)
    requires IsDigit(c)
    ensures d < 10
  {
    (c as int) - ('0' as int)
  }

  function DigitChar(d: nat): (c: char)
    requires d < 10
    ensures IsDigit(c) && DigitValue(c) == d
  {
    ((('0' as int) + d) as char)
  }

  /** The value of a string of decimal digits, most significant first. */
  function DecimalValue(s: string): nat
    requires AllDigits(s)
    decreases |s|
  {
    if s == [] then 0 else 10 * DecimalValue(s[..|s| - 1]) + DigitValue(s[|s| - 1])
  }

  /** Shortest decimal numeral of `n`, as Python's `str(n)` writes it. */
  function NatToString(n: nat): (s: string)
    ensures s != [] && AllDigits(s)
    decreases n
  {
    if n < 10 then [DigitChar(n)] else NatToString(n / 10) + [DigitChar(n % 10)]
  }

  lemma {:induction false} DecimalOfNatToString(n: nat)
    ensures DecimalValue(NatToString(n)) == n
  {
    if n >= 10 {
      var s := NatToString(n);
      assert s[..|s| - 1] == NatToString(n / 10);
      DecimalOfNatToString(n / 10);
    }
  }

  function Pow10(k: nat): nat
  {
    if k == 0 then 1 else 10 * Pow10(k - 1)
  }

  /** A number below `10^k` has a numeral of at most `k` digits. */
  lemma {:induction false} NatToStringLength(n: nat, k: nat)
    requires 1 <= k && n < Pow10(k)
    ensures |NatToString(n)| <= k
    decreases k
  {
    if n >= 10 {
      assert n / 10 < Pow10(k - 1);
      NatToStringLength(n / 10, k - 1);
    }
  }

  /** Every 32-bit integer has a numeral of at most ten digits. */
  lemma Int32NumeralLength(n: int)
    requires -0x8000_0000 <= n < 0x8000_0000
    ensures |NatToString(if n < 0 then -n else n)| <= 10
  {
    assert Pow10(10) == 10_000_000_000;
    NatToStringLength(if n < 0 then -n else n, 10);
  }

  /** Python's `str(n)` for an integer (which refuses, from CPython 3.11 on,
      to write more than `MaxIntDigits` digits). */
  function IntToString(n: int): string
  {
    if n < 0 then "-" + NatToString(-n) else NatToString(n)
  }

  // ---------------------------------------------------------------------------
  // Python's int() on a string, base 10

  /** The ASCII characters that Python's `int()` strips around a numeral:
      tab, line feed, vertical tab, form feed, carriage return, the four
      separators 0x1C..0x1F, and space. */
  predicate IsIntSpace(c: char)
  {
    (9 <= c as int <= 13) || (28 <= c as int <= 32)
  }

  function StripLeading(s: string): (r: string)
    ensures |r| <= |s| && r == s[|s| - |r|..]
    ensures r != [] ==> !IsIntSpace(r[0])
    decreases |s|
  {
    if s != [] && IsIntSpace(s[0]) then StripLeading(s[1..]) else s
  }

  function StripTrailing(s: string): (r: string)
    ensures |r| <= |s| && r == s[..|r|]
    ensures r != [] ==> !IsIntSpace(r[|r| - 1])
    decreases |s|
  {
    if s != [] && IsIntSpace(s[|s| - 1]) then StripTrailing(s[..|s| - 1]) else s
  }

  function Strip(s: string): string
  {
    StripTrailing(StripLeading(s))
  }

  /** A base-10 digit string as Python's `int()` accepts it: digits, with
      single underscores allowed between two digits. */
  predicate DigitGroups(s: string)
  {
    && s != []
    && IsDigit(s[0])
    && IsDigit(s[|s| - 1])
    && DigitsOrUnderscores(s)
    && forall i, j :: 0 <= i < |s| && i < j < |s| && j == i + 1 ==> !(s[i] == '_' && s[j] == '_')
  }

  predicate DigitsOrUnderscores(s: string)
  {
    forall i :: 0 <= i < |s| ==> IsDigit(s[i]) || s[i] == '_'
  }

  function DropUnderscores(s: string): (r: string)
    requires DigitsOrUnderscores(s)
    ensures AllDigits(r)
    decreases |s|
  {
    if s == [] then []
    else if s[0] == '_' then DropUnderscores(s[1..])
    else [s[0]] + DropUnderscores(s[1..])
  }

  /** CPython's default limit on the number of digits (underscores not
      counted) that `int()` reads and `str()` writes, from version 3.11 on. */
  const MaxIntDigits: nat := 4300

  /** Python's `int(s)` for a `str` argument: `None` stands for the
      `ValueError` it raises, a numeral over the digit limit included. */
  function ParseInt(s: string): Option<int>
  {
    ParseStripped(Strip(s))
  }

  /** `int()` on the text with the surrounding whitespace removed: an optional
      sign, then the magnitude. */
  function ParseStripped(t: string): Option<int>
  {
    if t == [] then None
    else
      var magnitude := ParseMagnitude(if t[0] == '-' || t[0] == '+' then t[1..] else t);
      if magnitude.None? then None
      else Some(if t[0] == '-' then 0 - magnitude.value else magnitude.value)
  }

  /** The unsigned part of the numeral: digit groups within the digit limit. */
  function ParseMagnitude(body: string): Option<nat>
  {
    if !DigitGroups(body) then None
    else
      var digits := DropUnderscores(body);
      if |digits| > MaxIntDigits then None else Some(DecimalValue(digits))
  }

  lemma DropUnderscoresOfDigits(s: string)
    requires AllDigits(s)
    ensures DropUnderscores(s) == s
  {
    if s != [] {
      DropUnderscoresOfDigits(s[1..]);
    }
  }

  lemma StripWithoutSpaces(s: string)
    requires forall i :: 0 <= i < |s| ==> !IsIntSpace(s[i])
    ensures Strip(s) == s
  {
  }

  lemma DigitGroupsOfDigits(s: string)
    requires s != [] && AllDigits(s)
    ensures DigitGroups(s)
  {
  }

  lemma ParseMagnitudeOfDigits(digits: string)
    requires digits != [] && AllDigits(digits) && |digits| <= MaxIntDigits
    ensures ParseMagnitude(digits) == Some(DecimalValue(digits))
  {
    DigitGroupsOfDigits(digits);
    DropUnderscoresOfDigits(digits);
  }

  /** Plain digits parse to their value. */
  lemma ParseIntOfDigits(digits: string)
    requires digits != [] && AllDigits(digits) && |digits| <= MaxIntDigits
    ensures ParseInt(digits) == Some(DecimalValue(digits) as int)
  {
    ParseMagnitudeOfDigits(digits);
    ParseStrippedUnsigned(digits);
    ParseIntWithoutSpaces(digits);
  }

  /** A stripped numeral without a sign is its magnitude. */
  lemma ParseStrippedUnsigned(t: string)
    requires t != [] && t[0] != '-' && t[0] != '+'
    ensures ParseStripped(t) == match ParseMagnitude(t) { case None => None case Some(m) => Some(m as int) }
  {
  }

  /** Text without whitespace is parsed as it stands. */
  lemma ParseIntWithoutSpaces(s: string)
    requires forall i :: 0 <= i < |s| ==> !IsIntSpace(s[i])
    ensures ParseInt(s) == ParseStripped(s)
  {
    StripWithoutSpaces(s);
  }

  /** More digits than the interpreter's limit make no magnitude. */
  lemma ParseStrippedOfLongDigits(digits: string)
    requires AllDigits(digits) && |digits| > MaxIntDigits
    ensures ParseStripped(digits) == None
  {
    assert ParseMagnitude(digits) == None by {
      DigitGroupsOfDigits(digits);
      DropUnderscoresOfDigits(digits);
    }
    ParseStrippedUnsigned(digits);
  }

  /** More digits than the interpreter's limit are refused, as `int()` refuses
      them with a `ValueError`. */
  lemma ParseIntOfLongDigits(digits: string)
    requires AllDigits(digits) && |digits| > MaxIntDigits
    ensures ParseInt(digits) == None
  {
    ParseStrippedOfLongDigits(digits);
    ParseIntWithoutSpaces(digits);
  }

  /** A stripped numeral with a minus sign is the negated magnitude. */
  lemma ParseIntOfMinus(t: string, m: nat)
    requires t != [] && t[0] == '-'
    requires ParseMagnitude(t[1..]) == Some(m)
    ensures ParseStripped(t) == Some(0 - m)
  {
  }

  /** A minus sign followed by digits has no whitespace to strip. */
  lemma StripOfMinusDigits(s: string, digits: string)
    requires AllDigits(digits)
    requires |s| == |digits| + 1 && s[0] == '-' && s[1..] == digits
    ensures Strip(s) == s
  {
    forall i | 0 <= i < |s| ensures !IsIntSpace(s[i]) {
      if i > 0 {
        assert s[i] == digits[i - 1];
      }
    }
    StripWithoutSpaces(s);
  }

  lemma ParseStrippedOfMinusDigits(s: string, digits: string)
    requires digits != [] && AllDigits(digits) && |digits| <= MaxIntDigits
    requires |s| == |digits| + 1 && s[0] == '-' && s[1..] == digits
    ensures ParseStripped(s) == Some(0 - DecimalValue(digits))
  {
    ParseMagnitudeOfDigits(digits);
    ParseIntOfMinus(s, DecimalValue(digits));
  }

  /** A minus sign followed by plain digits parses to the negated value. */
  lemma ParseIntOfMinusDigits(s: string, digits: string)
    requires digits != [] && AllDigits(digits) && |digits| <= MaxIntDigits
    requires |s| == |digits| + 1 && s[0] == '-' && s[1..] == digits
    requires ParseStripped(s) == Some(0 - DecimalValue(digits))
    ensures ParseInt(s) == Some(0 - DecimalValue(digits))
  {
    StripOfMinusDigits(s, digits);
  }

  lemma ParseIntOfNegated(digits: string)
    requires digits != [] && AllDigits(digits) && |digits| <= MaxIntDigits
    ensures ParseInt("-" + digits) == Some(0 - DecimalValue(digits))
  {
    var s := "-" + digits;
    assert s[1..] == digits;
    ParseStrippedOfMinusDigits(s, digits);
    ParseIntOfMinusDigits(s, digits);
  }

  /** An optional minus sign followed by plain digits parses to the signed value. */
  lemma ParseIntOfNumeral(sign: string, digits: string)
    requires sign == "" || sign == "-"
    requires digits != [] && AllDigits(digits) && |digits| <= MaxIntDigits
    ensures ParseInt(sign + digits)
              == Some(if sign == "-" then 0 - DecimalValue(digits) else DecimalValue(digits) as int)
  {
    if sign == "-" {
      ParseIntOfNegated(digits);
    } else {
      assert sign + digits == digits;
      ParseIntOfDigits(digits);
    }
  }

  /** `int(str(n)) == n`: the numeral Python prints for an integer parses back
      to it, for every integer whose numeral `str()` is willing to write. */
  lemma {:induction false} ParseIntOfIntToString(n: int)
    requires |NatToString(if n < 0 then -n else n)| <= MaxIntDigits
    ensures ParseInt(IntToString(n)) == Some(n)
  {
    var m: nat := if n < 0 then -n else n;
    DecimalOfNatToString(m);
    if n < 0 {
      ParseIntOfNumeral("-", NatToString(m));
    } else {
      assert IntToString(n) == "" + NatToString(m);
      ParseIntOfNumeral("", NatToString(m));
    }
  }

  // ---------------------------------------------------------------------------
  // `strftime('%H:%M:%S')` of a time of day

  function TwoDigits(n: nat): (s: string)
    requires n < 100
    ensures |s| == 2 && AllDigits(s)
  {
    [DigitChar(n / 10), DigitChar(n % 10)]
  }

  function FormatTime(t: TimeOfDay): (s: string)
    ensures |s| == 8
  {
    TwoDigits(t / 3600) + ":" + TwoDigits(t % 3600 / 60) + ":" + TwoDigits(t % 3600 % 60)
  }

  /** Reads `HH:MM:SS` back into seconds since midnight. */
  function ParseTime(s: string): Option<TimeOfDay>
  {
    if |s| != 8 || s[2] != ':' || s[5] != ':' || !AllDigits(s[0..2]) || !AllDigits(s[3..5])
      || !AllDigits(s[6..8])
    then None
    else
      var h, m, sec := DecimalValue(s[0..2]), DecimalValue(s[3..5]), DecimalValue(s[6..8]);
      if h < 24 && m < 60 && sec < 60 then Some(h * 3600 + m * 60 + sec) else None
  }

  lemma TwoDigitsValue(n: nat)
    requires n < 100
    ensures DecimalValue(TwoDigits(n)) == n
  {
    var s := TwoDigits(n);
    assert s[..1] == [DigitChar(n / 10)];
    assert s[..1][..0] == [];
    assert DecimalValue(s[..1]) == n / 10;
    assert DecimalValue(s) == 10 * DecimalValue(s[..1]) + DigitValue(s[1]);
  }

  /** Hours, minutes and seconds of a time of day, and how they add up. */
  lemma ClockParts(t: TimeOfDay)
    ensures t / 3600 < 24 && t % 3600 / 60 < 60 && t % 3600 % 60 < 60
    ensures (t / 3600) * 3600 + (t % 3600 / 60) * 60 + t % 3600 % 60 == t
  {
    var r := t % 3600;
    assert t == (t / 3600) * 3600 + r;
    assert r == (r / 60) * 60 + r % 60;
  }

  /** The rendered schedule time reads back as the stored time. */
  lemma {:induction false} ParseFormatTime(t: TimeOfDay)
    ensures ParseTime(FormatTime(t)) == Some(t)
  {
    var h, m, sec := t / 3600, t % 3600 / 60, t % 3600 % 60;
    ClockParts(t);
    var s := FormatTime(t);
    assert s[0..2] == TwoDigits(h);
    assert s[3..5] == TwoDigits(m);
    assert s[6..8] == TwoDigits(sec);
    TwoDigitsValue(h);
    TwoDigitsValue(m);
    TwoDigitsValue(sec);
  }
}
