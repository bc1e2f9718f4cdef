/**
 parseByteSize (internal/config/config.go) with its 63-bit bound, and the in-place decimal printer
 itoa (internal/speedtest/speedtest.go); printing and parsing are inverse to each other.
 */
module ByteSize {
  import opened Text

  const MAX_INT64: int := 0x7FFF_FFFF_FFFF_FFFF

  // ---- strconv.ParseInt(s, 10, 64) ----

  function ParseInt(s: string): Option<int> {
    var signed := s != [] && (s[0] == '+' || s[0] == '-');
    var digits := if signed then s[1..] else s;
    if digits == [] || !AllDigits(digits) then None
    else
      var v: int := if signed && s[0] == '-' then 0 - DecimalValue(digits) as int else DecimalValue(digits) as int;
      if -MAX_INT64 - 1 <= v <= MAX_INT64 then Some(v) else None
  }

  function UpperChar(c: char): char {
    if 'a' <= c <= 'z' then (c as int - 32) as char else c
  }

  /** strings.ToUpper on the letters that occur in units. */
  function Upper(s: string): (r: string)
    ensures |r| == |s|
  {
    seq(|s|, i requires 0 <= i < |s| => UpperChar(s[i]))
  }

  // ---- parseByteSize ----

  datatype Unit = Unit(suffix: string, scale: nat)

  const UNITS: seq<Unit> := [
    Unit("TB", 1_000_000_000_000), Unit("GB", 1_000_000_000), Unit("MB", 1_000_000), Unit("KB", 1_000), Unit("B", 1)]

  /** The first unit of the list that the text ends with; plain bytes when there is none. */
  function UnitOf(s: string, units: seq<Unit>): (u: Unit)
    ensures (u in units && HasSuffix(s, u.suffix)) || u == Unit("", 1)
  {
    if units == [] then Unit("", 1)
    else if HasSuffix(s, units[0].suffix) then units[0]
    else UnitOf(s, units[1..])
  }

  /** The count in front of the unit. */
  function CountOf(s: string, u: Unit): Option<int> {
    if u.suffix == "" then ParseInt(s) else ParseInt(TrimSpace(TrimSuffix(s, u.suffix)))
  }

  /**
   The size a text denotes: a positive count times its unit, as a mathematical integer, provided the
   product fits 63 bits.
   */
  function Denotes(value: string): Option<int> {
    var s := Upper(TrimSpace(value));
    var u := UnitOf(s, UNITS);
    var n := CountOf(s, u);
    if n.Some? && n.value > 0 && n.value * u.scale <= MAX_INT64 then Some(n.value * u.scale) else None
  }

  /** n <= bound / scale is n * scale <= bound. */
  lemma QuotientBound(n: nat, scale: nat, bound: nat)
    requires scale > 0
    ensures n > bound / scale <==> n * scale > bound
  {
    var q, r := bound / scale, bound % scale;
    assert bound == q * scale + r;
    if n > q {
      assert n * scale >= (q + 1) * scale;
    } else {
      assert n * scale <= q * scale;
    }
  }

  lemma UnitsFrom(s: string, i: nat)
    requires i < |UNITS|
    ensures UnitOf(s, UNITS[i..]) == if HasSuffix(s, UNITS[i].suffix) then UNITS[i] else UnitOf(s, UNITS[i + 1..])
  {
    assert UNITS[i..][0] == UNITS[i] && UNITS[i..][1..] == UNITS[i + 1..];
  }

  /** parseByteSize: the loop over the units with its division guard computes exactly the denoted size. */
  method ParseByteSize(value: string) returns (r: Option<int>)
    ensures r == Denotes(value)
    ensures r.Some? ==> 1 <= r.value <= MAX_INT64
  {
    hide ParseInt, TrimSpace, UnitOf, HasSuffix, Upper;
    var s := Upper(TrimSpace(value));
    if s == "" {
      EmptyDenotesNothing(value);
      return None;
    }
    for i := 0 to |UNITS|
      invariant UnitOf(s, UNITS[i..]) == UnitOf(s, UNITS)
    {
      UnitsFrom(s, i);
      var unit := UNITS[i];
      if !HasSuffix(s, unit.suffix) {
        continue;
      }
      var raw := TrimSpace(TrimSuffix(s, unit.suffix));
      var n := ParseInt(raw);
      assert unit.scale > 0 && unit.suffix != "";
      if n.None? || n.value <= 0 {
        return None;
      }
      QuotientBound(n.value, unit.scale, MAX_INT64);
      if n.value > MAX_INT64 / unit.scale {
        return None;
      }
      Positive(n.value, unit.scale);
      return Some(n.value * unit.scale);
    }
    NoUnit(s);
    var n := ParseInt(s);
    ParseIntBound(s);
    if n.None? || n.value <= 0 {
      return None;
    }
    return Some(n.value);
  }

  lemma Positive(n: nat, scale: nat)
    requires n > 0 && scale > 0
    ensures n * scale >= 1
  {
  }

  lemma ParseIntBound(s: string)
    ensures ParseInt(s).Some? ==> ParseInt(s).value <= MAX_INT64
  {
  }

  lemma EmptyDenotesNothing(value: string)
    requires Upper(TrimSpace(value)) == ""
    ensures Denotes(value) == None
  {
    hide TrimSpace, UnitOf;
    forall j | 0 <= j < |UNITS| ensures !HasSuffix("", UNITS[j].suffix) {
      assert |UNITS[j].suffix| > 0;
    }
    UnitsSkip("", 5);
    NoUnit("");
  }

  lemma NoUnit(s: string)
    ensures UnitOf(s, UNITS[5..]) == Unit("", 1)
  {
  }

  // ---- itoa ----

  function Pow10(k: nat): (r: nat)
    ensures r >= 1
  {
    if k == 0 then 1 else 10 * Pow10(k - 1)
  }

  lemma BufferSuffices()
    ensures MAX_INT64 < Pow10(20)
  {
    assert Pow10(4) == 10000;
    assert Pow10(8) == 100_000_000;
    assert Pow10(12) == 1_000_000_000_000;
    assert Pow10(16) == 10_000_000_000_000_000;
  }

  /** The digits of n, none for zero. */
  function Digits(n: nat): string {
    if n == 0 then "" else Decimal(n)
  }

  lemma DigitsDecimal(n: int)
    ensures Digits(0) == "" && (n > 0 ==> Digits(n) == Decimal(n))
  {
  }

  lemma DigitsNext(n: nat, tail: string)
    requires n > 0
    ensures Digits(n) + tail == Digits(n / 10) + ([DigitChar(n % 10)] + tail)
  {
    assert Digits(n) == Digits(n / 10) + [DigitChar(n % 10)];
  }

  lemma Pow10Next(n: nat, i: nat)
    requires 0 < n < Pow10(i)
    ensures i > 0 && n / 10 < Pow10(i - 1)
  {
  }

  /**
   itoa fills a 20-byte buffer from the right while dividing n down. The buffer never runs out, and
   the text is the canonical decimal of every non-negative 64-bit integer; a negative one prints as nothing.
   */
  method Itoa(value: int) returns (text: string)
    requires value <= MAX_INT64
    ensures value >= 0 ==> text == Decimal(value)
    ensures value < 0 ==> text == ""
  {
    if value == 0 {
      return "0";
    }
    hide Digits, Pow10;
    DigitsDecimal(value);
    var n := value;
    var buf := new char[20](_ => ' ');
    var i := buf.Length;
    BufferSuffices();
    while n > 0
      invariant 0 <= i <= 20 && n < Pow10(i)
      invariant value < 0 ==> n == value && i == 20
      invariant value > 0 ==> 0 <= n && Digits(n) + buf[i..] == Digits(value)
    {
      Pow10Next(n, i);
      ghost var tail := buf[i..];
      i := i - 1;
      buf[i] := DigitChar(n % 10);
      assert buf[i..] == [DigitChar(n % 10)] + tail;
      DigitsNext(n, tail);
      n := n / 10;
    }
    return buf[i..];
  }

  // ---- printing and parsing are inverse ----

  lemma UpperParts(count: string, pad: string, unit: string)
    requires Blank(pad) && forall i :: 0 <= i < |count| ==> UpperChar(count[i]) == count[i]
    ensures Upper(count + pad + unit) == count + pad + Upper(unit)
  {
    var s := count + pad + unit;
    forall i | 0 <= i < |s| ensures Upper(s)[i] == (count + pad + Upper(unit))[i] {
    }
  }

  lemma NotAnInitial(c: char)
    requires IsDigit(c) || IsSpace(c)
    ensures c != 'T' && c != 'G' && c != 'M' && c != 'K'
  {
  }

  lemma EndsIn(front: string, suffix: string)
    ensures HasSuffix(front + suffix, suffix)
  {
    assert (front + suffix)[|front|..] == suffix;
  }

  lemma SuffixInitial(s: string, suffix: string)
    requires suffix != ""
    ensures HasSuffix(s, suffix) ==> |suffix| <= |s| && s[|s| - |suffix|] == suffix[0]
  {
  }

  /** The unit of a count followed by spaces and a unit's suffix is that unit. */
  lemma UnitFound(front: string, k: nat)
    requires k < |UNITS| && front != [] && (IsDigit(front[|front| - 1]) || IsSpace(front[|front| - 1]))
    ensures UnitOf(front + UNITS[k].suffix, UNITS) == UNITS[k]
  {
    hide IsSpace, UnitOf, HasSuffix;
    NotAnInitial(front[|front| - 1]);
    var s := front + UNITS[k].suffix;
    EndsIn(front, UNITS[k].suffix);
    assert s[|s| - 2] == if k == 4 then front[|front| - 1] else UNITS[k].suffix[0];
    forall j | 0 <= j < k ensures !HasSuffix(s, UNITS[j].suffix) {
      SuffixInitial(s, UNITS[j].suffix);
    }
    UnitsSkip(s, k);
    UnitsFrom(s, k);
  }

  lemma {:induction false} UnitsSkip(s: string, k: nat)
    requires k <= |UNITS| && forall j :: 0 <= j < k ==> !HasSuffix(s, UNITS[j].suffix)
    ensures UnitOf(s, UNITS) == UnitOf(s, UNITS[k..])
  {
    hide UnitOf, HasSuffix;
    if k > 0 {
      UnitsSkip(s, k - 1);
      UnitsFrom(s, k - 1);
    }
  }

  /** An optional sign. */
  predicate Sign(sign: string) {
    sign == "" || sign == "+" || sign == "-"
  }

  /** A sign and digits parse to the number they spell, when it fits. */
  lemma ParseSigned(sign: string, digits: string)
    requires Sign(sign) && digits != [] && AllDigits(digits)
    ensures
      var v: int := if sign == "-" then 0 - DecimalValue(digits) as int else DecimalValue(digits) as int;
      ParseInt(sign + digits) == if -0x8000_0000_0000_0000 <= v <= 0x7FFF_FFFF_FFFF_FFFF then Some(v) else None
  {
    hide DecimalValue, AllDigits;
    assert IsDigit(digits[0]) by {
      FirstDigit(digits);
    }
    if sign == "" {
      assert sign + digits == digits;
    } else {
      assert (sign + digits)[1..] == digits;
    }
  }

  lemma FirstDigit(digits: string)
    requires digits != [] && AllDigits(digits)
    ensures IsDigit(digits[0])
  {
  }

  /** Nothing else parses. */
  lemma ParsedIsSigned(s: string) returns (sign: string, digits: string)
    requires ParseInt(s).Some?
    ensures Sign(sign) && digits != [] && AllDigits(digits) && s == sign + digits
  {
    var signed := s[0] == '+' || s[0] == '-';
    sign, digits := if signed then [s[0]] else "", if signed then s[1..] else s;
  }

  /** A count of any form followed by a unit, before the two are told apart. */
  lemma UnitSizeParses(sign: string, digits: string, k: nat, unit: string, a: string, b: string, c: string)
    requires Sign(sign) && digits != [] && AllDigits(digits)
    requires k < |UNITS| && Upper(unit) == UNITS[k].suffix && Blank(a) && Blank(b) && Blank(c)
    ensures
      var n := DecimalValue(digits);
      Denotes(a + (sign + digits + b + unit) + c)
      == if sign != "-" && n > 0 && n * UNITS[k].scale <= MAX_INT64 then Some(n * UNITS[k].scale) else None
  {
    hide TrimSpace, ParseInt, UnitOf;
    var count := sign + digits;
    var core := count + b + unit;
    UnitEnds(unit, k);
    CountEnds(sign, digits);
    assert core[0] == count[0];
    TrimBlank(a, core, c);
    UpperParts(count, b, unit);
    var s := count + b + UNITS[k].suffix;
    assert Upper(TrimSpace(a + core + c)) == s;
    var front := count + b;
    assert IsDigit(front[|front| - 1]) || IsSpace(front[|front| - 1]);
    UnitFound(front, k);
    assert TrimSuffix(s, UNITS[k].suffix) == front;
    assert [] + count + b == front;
    TrimBlank([], count, b);
    ParseSigned(sign, digits);
    ScaleGrows(DecimalValue(digits), UNITS[k].scale);
  }

  lemma CountEnds(sign: string, digits: string)
    requires Sign(sign) && digits != [] && AllDigits(digits)
    ensures
      var count := sign + digits;
      && !IsSpace(count[0]) && !IsSpace(count[|count| - 1]) && IsDigit(count[|count| - 1])
      && forall i :: 0 <= i < |count| ==> UpperChar(count[i]) == count[i]
  {
    var count := sign + digits;
    assert count[|count| - 1] == digits[|digits| - 1];
    forall i | 0 <= i < |count| ensures UpperChar(count[i]) == count[i] {
      assert i >= |sign| ==> IsDigit(count[i]);
    }
  }

  /** A count of any form without a unit. */
  lemma CountParses(sign: string, digits: string, a: string, c: string)
    requires Sign(sign) && digits != [] && AllDigits(digits) && Blank(a) && Blank(c)
    ensures
      var n := DecimalValue(digits);
      Denotes(a + (sign + digits) + c) == if sign != "-" && 0 < n <= MAX_INT64 then Some(n) else None
  {
    hide TrimSpace, ParseInt, UnitOf;
    var s := sign + digits;
    CountEnds(sign, digits);
    TrimBlank(a, s, c);
    assert Upper(s) == s;
    forall j | 0 <= j < |UNITS| ensures !HasSuffix(s, UNITS[j].suffix) {
      assert UNITS[j].suffix[|UNITS[j].suffix| - 1] == 'B';
    }
    UnitsSkip(s, 5);
    NoUnit(s);
    ParseSigned(sign, digits);
  }

  lemma UnitEnds(unit: string, k: nat)
    requires k < |UNITS| && Upper(unit) == UNITS[k].suffix
    ensures unit != [] && !IsSpace(unit[|unit| - 1]) && UNITS[k].scale > 0 && UNITS[k].suffix != ""
  {
    assert |unit| == |UNITS[k].suffix|;
    assert Upper(unit)[|unit| - 1] == 'B';
    assert UpperChar(unit[|unit| - 1]) == 'B';
  }

  lemma ScaleGrows(n: nat, scale: nat)
    requires scale > 0
    ensures n * scale >= n
  {
  }

  // ---- the accepted texts ----

  /** The unit texts and how many bytes each stands for. */
  predicate Means(unit: string, scale: nat) {
    || (unit in {"TB", "Tb", "tB", "tb"} && scale == 1_000_000_000_000)
    || (unit in {"GB", "Gb", "gB", "gb"} && scale == 1_000_000_000)
    || (unit in {"MB", "Mb", "mB", "mb"} && scale == 1_000_000)
    || (unit in {"KB", "Kb", "kB", "kb"} && scale == 1_000)
    || (unit in {"B", "b", ""} && scale == 1)
  }

  /** Spaces, a sign, digits, spaces, a unit and spaces; without a unit the last two runs of spaces are one. */
  ghost predicate Spelled(value: string, a: string, sign: string, digits: string, b: string, unit: string, c: string) {
    && Blank(a) && Blank(b) && Blank(c) && (unit == "" ==> b == "")
    && Sign(sign) && digits != [] && AllDigits(digits)
    && value == a + (sign + digits + b + unit) + c
  }

  /** A text of this form has the size its count and unit say, if that is positive and fits 63 bits; else none. */
  lemma SpelledSize(value: string, a: string, sign: string, digits: string, b: string, unit: string, c: string,
                    scale: nat)
    requires Spelled(value, a, sign, digits, b, unit, c) && Means(unit, scale)
    ensures
      var size := DecimalValue(digits) * scale;
      Denotes(value) == if sign != "-" && 0 < size <= 0x7FFF_FFFF_FFFF_FFFF then Some(size) else None
  {
    hide Denotes;
    ScaleGrows(DecimalValue(digits), scale);
    if unit == "" {
      assert sign + digits + b + unit == sign + digits;
      CountParses(sign, digits, a, c);
    } else {
      var k := if scale == 1_000_000_000_000 then 0 else if scale == 1_000_000_000 then 1
               else if scale == 1_000_000 then 2 else if scale == 1_000 then 3 else 4;
      UnitUpper(unit, scale, k);
      UnitSizeParses(sign, digits, k, unit, a, b, c);
      if DecimalValue(digits) > 0 {
        Positive(DecimalValue(digits), scale);
      }
    }
  }

  lemma UnitUpper(unit: string, scale: nat, k: nat)
    requires Means(unit, scale) && unit != "" && k < |UNITS| && scale == UNITS[k].scale
    ensures Upper(unit) == UNITS[k].suffix
  {
  }

  /** A text whose upper-casing has no capital letter is that upper-casing. */
  lemma UpperFixed(s: string, t: string)
    requires |s| == |t| && forall i :: 0 <= i < |s| ==> UpperChar(t[i]) == s[i] && !('A' <= s[i] <= 'Z')
    ensures s == t
  {
    forall i | 0 <= i < |s| ensures s[i] == t[i] {
      assert UpperChar(t[i]) == s[i];
    }
  }

  lemma CountHasNoCapital(l: string, sign: string, digits: string, r: string)
    requires Blank(l) && Blank(r) && Sign(sign) && AllDigits(digits)
    ensures var s := l + (sign + digits) + r; forall i :: 0 <= i < |s| ==> !('A' <= s[i] <= 'Z')
  {
    var s := l + (sign + digits) + r;
    forall i | 0 <= i < |s| ensures !('A' <= s[i] <= 'Z') {
      assert IsSpace(s[i]) || IsDigit(s[i]) || s[i] == '+' || s[i] == '-';
    }
  }

  /** What stands before the unit is spaces, a sign, digits and spaces, in the text as in its upper-casing. */
  lemma CountSpelled(front: string, upper: string) returns (l: string, sign: string, digits: string, r: string)
    requires |front| == |upper| && forall i :: 0 <= i < |front| ==> UpperChar(front[i]) == upper[i]
    requires ParseInt(TrimSpace(upper)).Some?
    ensures Blank(l) && Blank(r) && Sign(sign) && digits != [] && AllDigits(digits)
    ensures front == l + (sign + digits) + r
  {
    hide ParseInt, TrimSpace, Blank;
    l, r := TrimSpaceParts(upper);
    sign, digits := ParsedIsSigned(TrimSpace(upper));
    CountHasNoCapital(l, sign, digits, r);
    UpperFixed(upper, front);
  }

  lemma UnitMeans(unit: string, k: nat)
    requires k < |UNITS| && Upper(unit) == UNITS[k].suffix
    ensures unit != "" && Means(unit, UNITS[k].scale)
  {
    assert |unit| == |UNITS[k].suffix|;
    forall i | 0 <= i < |unit| ensures UpperChar(unit[i]) == UNITS[k].suffix[i] {
      assert Upper(unit)[i] == UNITS[k].suffix[i];
    }
    assert unit == if k == 4 then [unit[0]] else [unit[0], unit[1]];
  }

  lemma NoUnitMeans()
    ensures Means("", 1)
  {
  }

  lemma BlankConcat(a: string, b: string)
    requires Blank(a) && Blank(b)
    ensures Blank(a + b)
  {
  }

  /** The text between the outer spaces: a count alone, or a count and a unit. */
  lemma TrimmedIsSpelled(value: string)
      returns (l: string, sign: string, digits: string, b: string, unit: string, scale: nat)
    requires Denotes(value).Some?
    ensures Spelled(TrimSpace(value), l, sign, digits, b, unit, "") && Means(unit, scale)
  {
    hide ParseInt, TrimSpace, UnitOf, Means, Spelled, Upper;
    var t := TrimSpace(value);
    var u := UnitOf(Upper(t), UNITS);
    if u.suffix == "" {
      sign, digits := CountAlone(t);
      l, b, unit, scale := "", "", "", 1;
      NoUnitMeans();
    } else {
      l, sign, digits, b, unit := CountAndUnit(t, u);
      scale := u.scale;
    }
  }

  lemma CountAlone(t: string) returns (sign: string, digits: string)
    requires ParseInt(Upper(t)).Some?
    ensures Spelled(t, "", sign, digits, "", "", "")
  {
    hide ParseInt;
    sign, digits := ParsedIsSigned(Upper(t));
    CountHasNoCapital("", sign, digits, "");
    assert "" + (sign + digits) + "" == Upper(t);
    UpperFixed(Upper(t), t);
    assert t == "" + (sign + digits + "" + "") + "";
  }

  lemma CountAndUnit(t: string, u: Unit)
      returns (l: string, sign: string, digits: string, b: string, unit: string)
    requires u in UNITS && HasSuffix(Upper(t), u.suffix)
    requires ParseInt(TrimSpace(TrimSuffix(Upper(t), u.suffix))).Some?
    ensures Spelled(t, l, sign, digits, b, unit, "") && Means(unit, u.scale)
  {
    hide ParseInt, TrimSpace, Means, Blank, AllDigits, Sign;
    var s := Upper(t);
    var k :| 0 <= k < |UNITS| && UNITS[k] == u;
    var n := |s| - |u.suffix|;
    l, sign, digits, b := CountSpelled(t[..n], s[..n]);
    unit := t[n..];
    assert Upper(unit) == u.suffix by {
      assert Upper(unit) == s[n..];
    }
    UnitMeans(unit, k);
    Reassembled(t, n, l, sign + digits, b);
    NothingIsBlank();
  }

  lemma Reassembled(t: string, n: nat, l: string, count: string, b: string)
    requires n <= |t| && t[..n] == l + count + b
    ensures t == l + (count + b + t[n..]) + ""
  {
    assert t == t[..n] + t[n..];
  }

  lemma NothingIsBlank()
    ensures Blank("")
  {
  }

  /** Every text with a size is of this form. */
  lemma SizeIsSpelled(value: string)
      returns (a: string, sign: string, digits: string, b: string, unit: string, c: string, scale: nat)
    requires Denotes(value).Some?
    ensures Spelled(value, a, sign, digits, b, unit, c) && Means(unit, scale)
    ensures Denotes(value) == Some(DecimalValue(digits) * scale)
  {
    hide TrimSpace, Blank, Denotes, Means;
    var left, l: string;
    left, c := TrimSpaceParts(value);
    l, sign, digits, b, unit, scale := TrimmedIsSpelled(value);
    a := left + l;
    BlankConcat(left, l);
    assert value == a + (sign + digits + b + unit) + c;
    SpelledSize(value, a, sign, digits, b, unit, c, scale);
  }

  // ---- printed sizes ----

  /**
   Parsing a printed count followed by any unit, in any letter case and with spaces anywhere around
   the two parts, gives count times unit exactly when the count is positive and the product fits.
   */
  lemma PrintedSizeParses(n: nat, k: nat, unit: string, a: string, b: string, c: string)
    requires k < |UNITS| && Upper(unit) == UNITS[k].suffix && Blank(a) && Blank(b) && Blank(c)
    ensures Denotes(a + (Decimal(n) + b + unit) + c)
         == if n > 0 && n * UNITS[k].scale <= MAX_INT64 then Some(n * UNITS[k].scale) else None
  {
    hide Denotes, Decimal;
    DecimalDenotes(n);
    UnitSizeParses("", Decimal(n), k, unit, a, b, c);
    assert "" + Decimal(n) + b + unit == Decimal(n) + b + unit;
  }

  /** A printed count without a unit parses back to itself. */
  lemma PrintedCountParses(n: nat)
    ensures Denotes(Decimal(n)) == if 0 < n <= MAX_INT64 then Some(n) else None
  {
    hide Denotes, Decimal;
    DecimalDenotes(n);
    CountParses("", Decimal(n), "", "");
    assert "" + ("" + Decimal(n)) + "" == Decimal(n);
  }
}
