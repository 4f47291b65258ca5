// `convertToBytes` and the memory-limit step of `applyRuntimeFixes` in
// src/SharedHosting/bootstrap.php, on a 64-bit PHP 8 host.

module Bootstrap {
  import opened PhpStrings

  const KiB: nat := 1024
  const MiB: nat := 1024 * 1024
  const GiB: nat := 1024 * 1024 * 1024

  /** The limit `applyRuntimeFixes` wants: 128 MiB. */
  const DesiredBytes: nat := 128 * 1024 * 1024

  /** PHP_INT_MAX and PHP_INT_MIN on a 64-bit host. */
  const MaxInt: int := 0x7FFF_FFFF_FFFF_FFFF
  const MinInt: int := -0x8000_0000_0000_0000

  /** 2^53: from here on a double no longer holds every integer. */
  const TwoPow53: nat := 0x20_0000_0000_0000

  /** Whitespace PHP skips before a number in a string, and allows after one. */
  const NumericLeadingSpace: set<char> := {' ', '\t', '\n', '\r', '\U{000B}', '\U{000C}'}

  predicate AllDigits(s: string) {
    forall i :: 0 <= i < |s| ==> IsDigit(s[i])
  }

  /** How many decimal digits `s` starts with. */
  function DigitRun(s: string): (k: nat)
    ensures k <= |s|
  {
    if |s| > 0 && IsDigit(s[0]) then 1 + DigitRun(s[1..]) else 0
  }

  /** The run is made of digits and stops at the first non-digit. */
  lemma {:induction false} DigitRunSpec(s: string)
    ensures forall i :: 0 <= i < DigitRun(s) ==> IsDigit(s[i])
    ensures DigitRun(s) < |s| ==> !IsDigit(s[DigitRun(s)])
  {
    if |s| > 0 && IsDigit(s[0]) {
      DigitRunSpec(s[1..]);
    }
  }

  /** A digit run followed by a non-digit stops at the non-digit. */
  lemma {:induction false} DigitRunStops(d: string, rest: string)
    requires AllDigits(d)
    requires rest == [] || !IsDigit(rest[0])
    ensures DigitRun(d + rest) == |d|
  {
    if d != [] {
      assert (d + rest)[1..] == d[1..] + rest;
      DigitRunStops(d[1..], rest);
    }
  }

  /** Splitting a concatenation of four strings after its first part. */
  lemma Regroup(a: string, b: string, c: string, d: string)
    ensures a + b + c + d == a + (b + c + d)
  {
  }

  function Pow10(n: nat): (p: nat)
    ensures p >= 1
  {
    if n == 0 then 1 else 10 * Pow10(n - 1)
  }

  /** Writing more digits after a number multiplies it by ten per digit and
      adds their value, which stays below that power of ten. */
  lemma {:induction false} DigitsValueAppend(a: string, b: string)
    requires AllDigits(a) && AllDigits(b)
    ensures AllDigits(a + b)
    ensures DigitsValue(a + b) == DigitsValue(a) * Pow10(|b|) + DigitsValue(b)
    ensures DigitsValue(b) < Pow10(|b|)
  {
    if b == [] {
      assert a + b == a;
    } else {
      var b' := b[..|b| - 1];
      assert (a + b)[..|a + b| - 1] == a + b';
      DigitsValueAppend(a, b');
      assert (a + b)[|a + b| - 1] == b[|b| - 1];
      var c := b[|b| - 1] as int - '0' as int;
      var x, y, p := DigitsValue(a), DigitsValue(b'), Pow10(|b'|);
      assert DigitsValue(a + b) == 10 * (x * p + y) + c;
      assert DigitsValue(b) == 10 * y + c;
      assert Pow10(|b|) == 10 * p;
      ShiftByTen(x, p, y, c);
    }
  }

  lemma ShiftByTen(x: nat, p: nat, y: nat, c: int)
    requires 0 <= c < 10 && y < p
    ensures 10 * (x * p + y) + c == x * (10 * p) + (10 * y + c)
    ensures 10 * y + c < 10 * p
  {
  }

  // ------------------------------------------------- reading a number

  /** The unsigned part of a number as PHP 8 reads it: the digits before and
      after an optional decimal point, the exponent, and how many characters
      were read (0 when there is no digit to read). */
  datatype Unsigned = Unsigned(whole: string, fraction: string, exponent: int, length: nat)

  /** A number read from the front of a string: its sign, its unsigned
      part, and how many characters (leading whitespace included) were read. */
  datatype Numeral = Numeral(negative: bool, body: Unsigned, length: nat)

  datatype Reading = NotNumeric | Read(numeral: Numeral)

  /** An exponent "e5", "E+5" or "e-5" at the front of `s`: its value and its
      length. An 'e' without digits after it is not read: (0, 0). */
  function ExponentPart(s: string): (r: (int, nat))
    ensures r.1 <= |s|
    ensures r.1 == 0 ==> r.0 == 0
  {
    if |s| == 0 || (s[0] != 'e' && s[0] != 'E') then (0, 0)
    else
      var signed := |s| > 1 && (s[1] == '+' || s[1] == '-');
      var start := if signed then 2 else 1;
      var k := DigitRun(s[start..]);
      if k == 0 then (0, 0)
      else
        var digits := s[start..][..k];
        assert AllDigits(digits) by { DigitRunSpec(s[start..]); }
        var v: int := DigitsValue(digits);
        (if signed && s[1] == '-' then -v else v, start + k)
  }

  /** Reads digits, an optional '.' and more digits (at least one digit in
      all), then an optional exponent. */
  function ReadUnsigned(u: string): (r: Unsigned)
    ensures r.length <= |u|
    ensures AllDigits(r.whole + r.fraction)
  {
    var w := DigitRun(u);
    var point := w < |u| && u[w] == '.';
    var f := if point then DigitRun(u[w + 1..]) else 0;
    if w == 0 && f == 0 then Unsigned("", "", 0, 0)
    else
      var m := if point then w + 1 + f else w;
      var e := ExponentPart(u[m..]);
      var fraction := if point then u[w + 1..][..f] else "";
      assert AllDigits(u[..w] + fraction) by {
        DigitRunSpec(u);
        if point { DigitRunSpec(u[w + 1..]); }
        assert forall i :: 0 <= i < w ==> (u[..w] + fraction)[i] == u[i];
      }
      Unsigned(u[..w], fraction, e.0, m + e.1)
  }

  /** The longest numeric prefix of `s` (PHP's `is_numeric_string` with
      errors allowed): leading whitespace, then a signed part. */
  function ReadNumeral(s: string): (r: Reading)
    ensures r.Read? ==> r.numeral.length <= |s|
    ensures r.Read? ==> AllDigits(r.numeral.body.whole + r.numeral.body.fraction)
  {
    var t := LTrim(s, NumericLeadingSpace);
    Skipped(ReadSignedPart(t), |s| - |t|)
  }

  /** An optional sign and an unsigned part, at the very front of `t`. */
  function ReadSignedPart(t: string): (r: Reading)
    ensures r.Read? ==> r.numeral.length <= |t|
    ensures r.Read? ==> AllDigits(r.numeral.body.whole + r.numeral.body.fraction)
  {
    var sign := if |t| > 0 && (t[0] == '-' || t[0] == '+') then 1 else 0;
    var b := ReadUnsigned(t[sign..]);
    if b.length == 0 then NotNumeric
    else Read(Numeral(sign == 1 && t[0] == '-', b, sign + b.length))
  }

  /** A reading that was preceded by `k` skipped characters. */
  function Skipped(r: Reading, k: nat): Reading {
    match r
    case NotNumeric => NotNumeric
    case Read(n) => Read(n.(length := n.length + k))
  }

  /** The size of an unsigned part truncated toward zero, as PHP turns a
      number into an integer: move the point by the exponent and keep the
      digits left of it. */
  function Magnitude(b: Unsigned): nat
    requires AllDigits(b.whole + b.fraction)
  {
    var d := b.whole + b.fraction;
    var point := |b.whole| + b.exponent;
    if point >= |d| then DigitsValue(d) * Pow10(point - |d|)
    else if point <= 0 then 0
    else DigitsValue(d[..point])
  }

  /** Clamp into PHP's integer range. */
  function Saturate(v: int): (r: int)
    ensures MinInt <= r <= MaxInt
    ensures r == v <==> MinInt <= v <= MaxInt
  {
    if v > MaxInt then MaxInt else if v < MinInt then MinInt else v
  }

  /** PHP 8's `(int)` cast of a string: the numeric prefix truncated toward
      zero and clamped to the integer range; no numeric prefix reads as 0. */
  function LeadingInt(s: string): (r: int)
    ensures MinInt <= r <= MaxInt
    ensures ReadNumeral(s).NotNumeric? ==> r == 0
  {
    match ReadNumeral(s)
    case NotNumeric => 0
    case Read(n) =>
      var m: int := Magnitude(n.body);
      Saturate(if n.negative then -m else m)
  }

  /** Digits not followed by another digit, a point or an exponent are read
      as an integer of exactly those digits. */
  lemma ReadPlain(digits: string, rest: string)
    requires |digits| >= 1 && AllDigits(digits)
    requires rest == [] || (!IsDigit(rest[0]) && rest[0] != '.' && ExponentPart(rest).1 == 0)
    ensures ReadUnsigned(digits + rest) == Unsigned(digits, "", 0, |digits|)
  {
    var s := digits + rest;
    DigitRunStops(digits, rest);
    assert s[..|digits|] == digits;
    assert s[|digits|..] == rest;
  }

  /** Digits, a point and more digits, not followed by a digit or an
      exponent, are read as a decimal number. */
  lemma ReadDecimal(whole: string, fraction: string, rest: string)
    requires AllDigits(whole) && AllDigits(fraction) && |whole| + |fraction| >= 1
    requires rest == [] || (!IsDigit(rest[0]) && ExponentPart(rest).1 == 0)
    ensures ReadUnsigned(whole + "." + fraction + rest) ==
            Unsigned(whole, fraction, 0, |whole| + 1 + |fraction|)
  {
    var w := |whole|;
    var x := fraction + rest;
    var s := whole + (['.'] + x);
    assert whole + "." + fraction + rest == s by {
      Regroup(whole, ".", fraction, rest);
    }
    PointSplit(whole, x);
    assert DigitRun(x) == |fraction| && x[..|fraction|] == fraction && x[|fraction|..] == rest by {
      DigitRunStops(fraction, rest);
    }
    ReadUnsignedPoint(s, w, |fraction|);
  }

  /** The pieces of digits, a point and a tail. */
  lemma PointSplit(whole: string, x: string)
    requires AllDigits(whole)
    ensures var s := whole + (['.'] + x);
      && DigitRun(s) == |whole| && |whole| < |s| && s[|whole|] == '.'
      && s[..|whole|] == whole && s[|whole| + 1..] == x
  {
    var s := whole + (['.'] + x);
    DigitRunStops(whole, ['.'] + x);
    assert s[|whole| + 1..] == x;
  }

  /** ReadUnsigned on a string with a point after its leading digits. */
  lemma ReadUnsignedPoint(u: string, w: nat, f: nat)
    requires DigitRun(u) == w && w < |u| && u[w] == '.'
    requires w + 1 + f <= |u| && DigitRun(u[w + 1..]) == f && w + f >= 1
    requires ExponentPart(u[w + 1 + f..]).1 == 0
    ensures ReadUnsigned(u) == Unsigned(u[..w], u[w + 1..][..f], 0, w + 1 + f)
  {
    var r := ReadUnsigned(u);
    assert ExponentPart(u[w + 1 + f..]) == (0, 0);
    assert r.whole == u[..w];
    assert r.fraction == u[w + 1..][..f];
    assert r.exponent == 0;
    assert r.length == w + 1 + f;
  }

  /** An 'e' and digits, not followed by another digit, is an exponent. */
  lemma ExponentOfDigits(exp: string, rest: string)
    requires |exp| >= 1 && AllDigits(exp)
    requires rest == [] || !IsDigit(rest[0])
    ensures ExponentPart("e" + exp + rest) == (DigitsValue(exp), 1 + |exp|)
  {
    var x := exp + rest;
    var v := "e" + exp + rest;
    assert v == ['e'] + x && v[1..] == x && v[1] == exp[0];
    UnsignedExponent(v);
    DigitRunStops(exp, rest);
    assert x[..|exp|] == exp;
  }

  /** An 'e' followed directly by a digit: the digit run after the 'e'. */
  lemma UnsignedExponent(v: string)
    requires |v| >= 2 && v[0] == 'e' && IsDigit(v[1])
    ensures DigitRun(v[1..]) >= 1 && AllDigits(v[1..][..DigitRun(v[1..])])
    ensures ExponentPart(v) == (DigitsValue(v[1..][..DigitRun(v[1..])]), 1 + DigitRun(v[1..]))
  {
    assert v[1..][0] == v[1];
    DigitRunSpec(v[1..]);
  }

  /** Digits, an 'e' and exponent digits, not followed by another digit, are
      read as the digits times ten to the exponent. */
  lemma ReadScientific(whole: string, exp: string, rest: string)
    requires |whole| >= 1 && AllDigits(whole)
    requires |exp| >= 1 && AllDigits(exp)
    requires rest == [] || !IsDigit(rest[0])
    ensures ReadUnsigned(whole + "e" + exp + rest) ==
            Unsigned(whole, "", DigitsValue(exp), |whole| + 1 + |exp|)
  {
    var s := whole + "e" + exp + rest;
    var w := |whole|;
    Regroup(whole, "e", exp, rest);
    var tail := "e" + exp + rest;
    assert s == whole + tail;
    assert tail[0] == 'e';
    DigitRunStops(whole, tail);
    assert s[..w] == whole;
    assert s[w..] == tail;
    ExponentOfDigits(exp, rest);
  }

  /** A string that starts with a digit or a point is read as an unsigned
      number, and a '-' in front of it only flips the sign. */
  lemma ReadSigned(u: string)
    requires |u| >= 1 && (IsDigit(u[0]) || u[0] == '.')
    ensures var b := ReadUnsigned(u);
            ReadNumeral(u) == if b.length == 0 then NotNumeric else Read(Numeral(false, b, b.length))
    ensures var b := ReadUnsigned(u);
            ReadNumeral("-" + u) == if b.length == 0 then NotNumeric else Read(Numeral(true, b, b.length + 1))
  {
    assert LeadCount(u, NumericLeadingSpace) == 0;
    assert LTrim(u, NumericLeadingSpace) == u;
    assert u[0..] == u;
    var t := "-" + u;
    assert LeadCount(t, NumericLeadingSpace) == 0;
    assert LTrim(t, NumericLeadingSpace) == t;
    assert t[1..] == u;
  }

  /** Whitespace in front of a number is skipped. */
  lemma ReadSkipsSpace(c: char, s: string)
    requires c in NumericLeadingSpace
    ensures ReadNumeral(s).Read? ==>
            ReadNumeral([c] + s) == Read(ReadNumeral(s).numeral.(length := ReadNumeral(s).numeral.length + 1))
    ensures ReadNumeral(s).NotNumeric? ==> ReadNumeral([c] + s).NotNumeric?
  {
    var t := LTrim(s, NumericLeadingSpace);
    LTrimSkips(c, s, NumericLeadingSpace);
    assert ReadNumeral([c] + s) == Skipped(ReadSignedPart(t), |s| - |t| + 1);
    assert ReadNumeral(s) == Skipped(ReadSignedPart(t), |s| - |t|);
  }

  lemma LTrimSkips(c: char, s: string, cs: set<char>)
    requires c in cs
    ensures LTrim([c] + s, cs) == LTrim(s, cs)
  {
    var t := [c] + s;
    assert t[1..] == s;
    assert LeadCount(t, cs) == 1 + LeadCount(s, cs);
    assert t[1 + LeadCount(s, cs)..] == s[LeadCount(s, cs)..];
  }

  /** The integer cast of digits followed by anything but another digit, a
      point or an exponent is the digits' value, clamped at PHP_INT_MAX. */
  lemma LeadingIntOfDigits(digits: string, rest: string)
    requires |digits| >= 1 && AllDigits(digits)
    requires rest == [] || (!IsDigit(rest[0]) && rest[0] != '.' && ExponentPart(rest).1 == 0)
    ensures LeadingInt(digits + rest) == if DigitsValue(digits) <= MaxInt then DigitsValue(digits) else MaxInt
  {
    ReadPlain(digits, rest);
    ReadSigned(digits + rest);
    assert (digits + rest)[0] == digits[0];
    assert digits + "" == digits;
  }

  /** A decimal fraction is cut off: "12.9" casts to 12. */
  lemma LeadingIntOfDecimal(whole: string, fraction: string, rest: string)
    requires |whole| >= 1 && AllDigits(whole) && AllDigits(fraction)
    requires rest == [] || (!IsDigit(rest[0]) && ExponentPart(rest).1 == 0)
    ensures LeadingInt(whole + "." + fraction + rest) == if DigitsValue(whole) <= MaxInt then DigitsValue(whole) else MaxInt
  {
    ReadDecimal(whole, fraction, rest);
    ReadSigned(whole + "." + fraction + rest);
    assert (whole + "." + fraction + rest)[0] == whole[0];
    TruncatesFraction(Unsigned(whole, fraction, 0, |whole| + 1 + |fraction|));
  }

  /** With no exponent the magnitude is the whole part. */
  lemma TruncatesFraction(b: Unsigned)
    requires AllDigits(b.whole) && AllDigits(b.fraction) && b.exponent == 0
    ensures AllDigits(b.whole + b.fraction) && Magnitude(b) == DigitsValue(b.whole)
  {
    DigitsValueAppend(b.whole, b.fraction);
    assert (b.whole + b.fraction)[..|b.whole|] == b.whole;
  }

  /** An exponent scales the digits: "1e3" casts to 1000. */
  lemma LeadingIntOfScientific(whole: string, exp: string, rest: string)
    requires |whole| >= 1 && AllDigits(whole)
    requires |exp| >= 1 && AllDigits(exp)
    requires rest == [] || !IsDigit(rest[0])
    ensures LeadingInt(whole + "e" + exp + rest) ==
            var v := DigitsValue(whole) * Pow10(DigitsValue(exp)); if v <= MaxInt then v else MaxInt
  {
    ReadScientific(whole, exp, rest);
    ReadSigned(whole + "e" + exp + rest);
    assert (whole + "e" + exp + rest)[0] == whole[0];
    assert whole + "" == whole;
  }

  /** A '-' negates the cast, which bottoms out at PHP_INT_MIN. */
  lemma LeadingIntNegative(u: string)
    requires |u| >= 1 && (IsDigit(u[0]) || u[0] == '.')
    ensures LeadingInt(u) < MaxInt ==> LeadingInt("-" + u) == -LeadingInt(u)
    ensures LeadingInt(u) == MaxInt ==> LeadingInt("-" + u) in {-MaxInt, MinInt}
  {
    ReadSigned(u);
  }

  /** Leading whitespace does not change the cast. */
  lemma LeadingIntSkipsSpace(c: char, s: string)
    requires c in NumericLeadingSpace
    ensures LeadingInt([c] + s) == LeadingInt(s)
  {
    ReadSkipsSpace(c, s);
  }

  // ------------------------------------------------------ convertToBytes

  /** The `switch` of `convertToBytes` on the lowered last character: it
      falls through from 'g' to 'm' to 'k', multiplying by 1024 at each case
      it passes. The products are exact here; `ConvertToBytes` decides what
      PHP makes of one outside the integer range. */
  function ScaleByUnit(n: int, last: string): int {
    var afterG := if last == "g" then n * 1024 else n;
    var afterM := if last == "g" || last == "m" then afterG * 1024 else afterG;
    if last == "g" || last == "m" || last == "k" then afterM * 1024 else afterM
  }

  /** The fall-through multiplies by 1024³, 1024² and 1024, and any other
      last character leaves the number alone. */
  lemma ScaleByUnitFactors(n: int, last: string)
    ensures ScaleByUnit(n, "g") == n * GiB && ScaleByUnit(n, "m") == n * MiB
    ensures ScaleByUnit(n, "k") == n * KiB
    ensures last !in {"g", "m", "k"} ==> ScaleByUnit(n, last) == n
  {
  }

  /** What `convertToBytes` hands back: a byte count, or the TypeError PHP
      throws when the value it returns is a float outside the `int` range. */
  datatype Conversion = Converted(bytes: int) | ReturnTypeError

  /** `convertToBytes`: trim, lower-case the last character, cast to int and
      scale by the unit. An empty trimmed value has no last character: PHP
      warns, reads "" and the switch matches nothing. A product that leaves
      the integer range turns into a float, computed from the operands
      rounded to doubles, and a float outside the range fails the `int`
      return type. The one overflowing product whose double is back in range
      is -(2^53 + 1) · 1024: the operand rounds to -2^53, giving PHP_INT_MIN. */
  function ConvertToBytes(value: string): (r: Conversion)
    ensures r.Converted? ==> MinInt <= r.bytes <= MaxInt
  {
    var v := Trim(value);
    var last := if v == [] then "" else ToLower([v[|v| - 1]]);
    var n := LeadingInt(v);
    var p := ScaleByUnit(n, last);
    if MinInt <= p <= MaxInt then Converted(p)
    else if last == "k" && n == -(TwoPow53 + 1) then Converted(MinInt)
    else ReturnTypeError
  }

  /** "<digits>K", "<digits>M" and "<digits>G", in either letter case, are
      the digits times 1024, 1024² and 1024³ while that fits an integer, and
      a TypeError beyond. */
  lemma ConvertToBytesUnits(digits: string, unit: char)
    requires |digits| >= 1 && AllDigits(digits)
    requires LowerChar(unit) in {'k', 'm', 'g'}
    ensures var f := if LowerChar(unit) == 'k' then KiB else if LowerChar(unit) == 'm' then MiB else GiB;
            ConvertToBytes(digits + [unit]) ==
            if DigitsValue(digits) * f <= MaxInt then Converted(DigitsValue(digits) * f) else ReturnTypeError
  {
    var s := digits + [unit];
    UnitValueParts(digits, unit);
    var n := LeadingInt(s);
    var f := if LowerChar(unit) == 'k' then KiB else if LowerChar(unit) == 'm' then MiB else GiB;
    ScaleByUnitFactors(n, "");
    assert ScaleByUnit(n, [LowerChar(unit)]) == n * f;
    ClampedProduct(DigitsValue(digits), f);
  }

  /** What `convertToBytes` sees in digits and a unit letter: nothing to
      trim, the letter as its lowered last character, the digits as its
      integer. */
  lemma UnitValueParts(digits: string, unit: char)
    requires |digits| >= 1 && AllDigits(digits)
    requires LowerChar(unit) in {'k', 'm', 'g'}
    ensures var s := digits + [unit];
            && Trim(s) == s && s != [] && ToLower([s[|s| - 1]]) == [LowerChar(unit)]
            && LeadingInt(s) == if DigitsValue(digits) <= MaxInt then DigitsValue(digits) else MaxInt
  {
    var s := digits + [unit];
    assert s[0] == digits[0];
    assert s[|s| - 1] == unit;
    UnitLetters(unit);
    assert IsDigit(s[0]);
    assert s[|s| - 1] !in DefaultTrimSet;
    TrimmedUnchanged(s);
    assert ExponentPart([unit]).1 == 0;
    LeadingIntOfDigits(digits, [unit]);
    assert ToLower([unit]) == [LowerChar(unit)];
  }

  /** A unit letter is neither whitespace nor part of a number. */
  lemma UnitLetters(unit: char)
    requires LowerChar(unit) in {'k', 'm', 'g'}
    ensures unit !in DefaultTrimSet && unit !in NumericLeadingSpace
    ensures !IsDigit(unit) && unit != '.' && unit != 'e' && unit != 'E'
  {
  }

  /** Clamping before a multiplication by at least 2 keeps the product in
      range exactly when the unclamped one is. */
  lemma ClampedProduct(v: nat, f: nat)
    requires f >= 2
    ensures var n := if v <= MaxInt then v else MaxInt;
            n * f >= 0 && (n * f <= MaxInt <==> v * f <= MaxInt) && (v * f <= MaxInt ==> n * f == v * f)
  {
    if v > MaxInt {
      assert MaxInt * f >= MaxInt * 2;
    }
  }

  /** A value ending in a digit has no unit: it is its integer cast. */
  lemma ConvertToBytesPlainNumber(digits: string)
    requires |digits| >= 1 && AllDigits(digits)
    ensures ConvertToBytes(digits) == Converted(if DigitsValue(digits) <= MaxInt then DigitsValue(digits) else MaxInt)
  {
    TrimmedUnchanged(digits);
    LeadingIntOfDigits(digits, []);
    assert digits + [] == digits;
    assert IsDigit(digits[|digits| - 1]);
    assert ToLower([digits[|digits| - 1]]) == [digits[|digits| - 1]];
    ScaleByUnitFactors(LeadingInt(digits), [digits[|digits| - 1]]);
  }

  /** The one overflowing product that comes back in range. */
  lemma ConvertToBytesRoundingEdge(digits: string, unit: char)
    requires |digits| >= 1 && AllDigits(digits) && DigitsValue(digits) == TwoPow53 + 1
    requires LowerChar(unit) == 'k'
    ensures ConvertToBytes("-" + digits + [unit]) == Converted(MinInt)
  {
    var u := digits + [unit];
    var s := "-" + digits + [unit];
    assert s == "-" + u;
    UnitLetters(unit);
    assert s[0] == '-' && s[|s| - 1] == unit;
    assert LeadCount(s, DefaultTrimSet) == 0;
    assert LTrim(s, DefaultTrimSet) == s;
    assert TailCount(s, DefaultTrimSet) == 0;
    assert Trim(s) == s;
    assert ExponentPart([unit]).1 == 0;
    assert u[0] == digits[0];
    LeadingIntOfDigits(digits, [unit]);
    LeadingIntNegative(u);
    assert LeadingInt(s) == -(TwoPow53 + 1);
    assert ToLower([unit]) == "k";
    var v := Trim(s);
    assert ToLower([v[|v| - 1]]) == "k";
    ScaleByUnitFactors(LeadingInt(s), "");
    assert ScaleByUnit(LeadingInt(s), "k") == -(TwoPow53 + 1) * 1024 < MinInt;
  }

  /** A string with a digit first and no whitespace at its ends is unchanged by `trim`. */
  lemma TrimmedUnchanged(s: string)
    requires |s| >= 1 && IsDigit(s[0]) && s[|s| - 1] !in DefaultTrimSet
    ensures Trim(s) == s
  {
    assert LeadCount(s, DefaultTrimSet) == 0;
    assert LTrim(s, DefaultTrimSet) == s;
    assert TailCount(s, DefaultTrimSet) == 0;
  }

  /** Only the trimmed value matters: surrounding whitespace is ignored. */
  lemma ConvertToBytesIgnoresWhitespace(value: string)
    ensures ConvertToBytes(value) == ConvertToBytes(Trim(value))
  {
    TrimSetIdempotent(value, DefaultTrimSet);
  }

  // ------------------------------------------------------ memory limit

  /** PHP 8's numeric strings: a numeral followed by nothing but whitespace. */
  predicate IsNumericString(s: string) {
    var r := ReadNumeral(s);
    r.Read? && forall i :: r.numeral.length <= i < |s| ==> s[i] in NumericLeadingSpace
  }

  /** The exact value of an unsigned part is 1 (no rounding to a double). */
  predicate IsOne(b: Unsigned)
    requires AllDigits(b.whole + b.fraction)
  {
    var m := DigitsValue(b.whole + b.fraction);
    var shift := b.exponent - |b.fraction|;
    if shift >= 0 then m * Pow10(shift) == 1 else m == Pow10(-shift)
  }

  /** `$limit != '-1'`: PHP compares two numeric strings by value, so any
      numeric spelling of -1 counts as equal; a string that is not numeric
      compares as text and differs from "-1". */
  predicate NotMinusOne(limit: string) {
    !(IsNumericString(limit) && ReadNumeral(limit).numeral.negative && IsOne(ReadNumeral(limit).numeral.body))
  }

  /** A minus sign and digits equal -1 exactly when the digits are worth 1. */
  lemma NotMinusOneOfInteger(digits: string)
    requires |digits| >= 1 && AllDigits(digits)
    ensures !NotMinusOne("-" + digits) <==> DigitsValue(digits) == 1
  {
    ReadPlain(digits, []);
    assert digits + [] == digits;
    ReadSigned(digits);
  }

  lemma DigitsOneZero()
    ensures DigitsValue("0") == 0 && DigitsValue("01") == 1 && DigitsValue("10") == 10
  {
    assert "0"[..0] == "";
    assert "01"[..1] == "0";
    assert "10"[..1] == "1" && "1"[..0] == "";
  }

  /** "-1.0" is a numeric spelling of -1. */
  lemma MinusOnePointZero()
    ensures !NotMinusOne("-1.0")
  {
    assert "-" + "1.0" == "-1.0";
    assert "1" + "0" == "10";
    DigitsOneZero();
    assert "1.0" == "1" + "." + "0" + [];
    ReadDecimal("1", "0", []);
    var b := Unsigned("1", "0", 0, 3);
    assert ReadUnsigned("1.0") == b;
    ReadSigned("1.0");
    assert ReadNumeral("-1.0") == Read(Numeral(true, b, 4));
    assert Pow10(1) == 10;
    assert IsOne(b);
  }

  /** "-1e0" is a numeric spelling of -1. */
  lemma MinusOneExponent()
    ensures !NotMinusOne("-1e0")
  {
    assert "-" + "1e0" == "-1e0";
    assert "1" + "" == "1";
    DigitsExamples();
    DigitsOneZero();
    assert "1e0" == "1" + "e" + "0" + [];
    ReadScientific("1", "0", []);
    var b := Unsigned("1", "", 0, 3);
    assert ReadUnsigned("1e0") == b;
    ReadSigned("1e0");
    assert ReadNumeral("-1e0") == Read(Numeral(true, b, 4));
    assert IsOne(b);
  }

  /** A string whose numeral is followed by something other than
      whitespace is not a numeric string. */
  lemma LeftoverNotNumeric(s: string, n: Numeral)
    requires ReadNumeral(s) == Read(n) && n.length < |s| && s[n.length] !in NumericLeadingSpace
    ensures !IsNumericString(s)
  {
  }

  /** Digits with a unit letter after them, signed or not, are not a
      numeric string: the letter is left over after the number. */
  lemma UnitValueNotNumeric(digits: string, unit: char)
    requires |digits| >= 1 && AllDigits(digits) && LowerChar(unit) in {'k', 'm', 'g'}
    ensures !IsNumericString(digits + [unit]) && !IsNumericString("-" + digits + [unit])
  {
    var u := digits + [unit];
    var m := "-" + u;
    assert "-" + digits + [unit] == m;
    assert u[0] == digits[0] && u[|digits|] == unit && m[|digits| + 1] == unit;
    UnitLetters(unit);
    var b := Unsigned(digits, "", 0, |digits|);
    assert ReadUnsigned(u) == b by {
      assert ExponentPart([unit]).1 == 0;
      ReadPlain(digits, [unit]);
    }
    assert ReadNumeral(u) == Read(Numeral(false, b, |digits|)) && ReadNumeral(m) == Read(Numeral(true, b, |digits| + 1)) by {
      ReadSigned(u);
    }
    assert !IsNumericString(u) by {
      LeftoverNotNumeric(u, Numeral(false, b, |digits|));
    }
    LeftoverNotNumeric(m, Numeral(true, b, |digits| + 1));
  }

  /** "-1M" is not numeric, so it compares as text and differs from "-1". */
  lemma MinusOneMegabyte()
    ensures NotMinusOne("-1M")
  {
    assert "-1M" == "-" + "1" + ['M'];
    UnitValueNotNumeric("1", 'M');
  }

  /** "-1" and "-01" are numeric spellings of -1. */
  lemma MinusOneInteger()
    ensures !NotMinusOne("-1") && !NotMinusOne("-01")
  {
    assert "-" + "1" == "-1";
    assert "-" + "01" == "-01";
    DigitsExamples();
    DigitsOneZero();
    NotMinusOneOfInteger("1");
    NotMinusOneOfInteger("01");
  }

  /** "-1", "-01", "-1.0" and "-1e0" all mean unlimited; "-1M" does not. */
  lemma MinusOneSpellings()
    ensures !NotMinusOne("-1") && !NotMinusOne("-01") && !NotMinusOne("-1.0") && !NotMinusOne("-1e0")
    ensures NotMinusOne("-1M")
  {
    MinusOneInteger();
    MinusOnePointZero();
    MinusOneExponent();
    MinusOneMegabyte();
  }

  /** The test in `applyRuntimeFixes`: a limit is set (a truthy string), it is
      not -1 (unlimited), it converts to fewer than 128 MiB, and `ini_set` exists. */
  predicate ShouldRaiseMemoryLimit(current: string, iniSetAvailable: bool) {
    var c := ConvertToBytes(current);
    !Falsy(current) && NotMinusOne(current) && c.Converted? && c.bytes < DesiredBytes && iniSetAvailable
  }

  /** How the memory-limit step ends: with a limit in place, or with the
      TypeError of `convertToBytes`, which nothing catches. */
  datatype MemoryFix = Limit(value: string) | Fatal

  /** The memory limit after `applyRuntimeFixes` (the `@ini_set` is taken to succeed). */
  function MemoryLimitAfterFix(current: string, iniSetAvailable: bool): MemoryFix {
    if !Falsy(current) && NotMinusOne(current) && ConvertToBytes(current).ReturnTypeError? then Fatal
    else if ShouldRaiseMemoryLimit(current, iniSetAvailable) then Limit("128M")
    else Limit(current)
  }

  lemma DigitsExamples()
    ensures DigitsValue("1") == 1 && DigitsValue("64") == 64 && DigitsValue("128") == 128
  {
    assert "1"[..0] == "";
    assert "64"[..1] == "6" && "6"[..0] == "";
    assert "128"[..2] == "12" && "12"[..1] == "1";
  }

  /** "128M" reads as exactly 128 MiB. */
  lemma DesiredLimitReading()
    ensures ConvertToBytes("128M") == Converted(DesiredBytes)
  {
    DigitsExamples();
    assert "128" + ['M'] == "128M";
    assert LowerChar('M') == 'm';
    ConvertToBytesUnits("128", 'M');
    assert ConvertToBytes("128" + ['M']) == Converted(128 * MiB);
  }

  /** The limit stays, becomes "128M", or the step dies on the TypeError of
      an out-of-range value; with `ini_set` available, a set limit other than
      -1 that survives ends at 128 MiB or more. */
  lemma MemoryFixGuaranteesDesired(current: string, iniSetAvailable: bool)
    ensures var r := MemoryLimitAfterFix(current, iniSetAvailable);
            r == Limit(current) || r == Limit("128M") || r == Fatal
    ensures MemoryLimitAfterFix(current, iniSetAvailable) == Fatal <==>
            !Falsy(current) && NotMinusOne(current) && ConvertToBytes(current).ReturnTypeError?
    ensures var r := MemoryLimitAfterFix(current, iniSetAvailable);
            iniSetAvailable && !Falsy(current) && NotMinusOne(current) && r.Limit? ==>
            ConvertToBytes(r.value).Converted? && ConvertToBytes(r.value).bytes >= DesiredBytes
  {
    DesiredLimitReading();
  }

  /** The whole memory step for a limit written as digits and a unit: a
      TypeError when the bytes overflow, "128M" when they are fewer than
      128 MiB and `ini_set` exists, and the limit unchanged otherwise. */
  lemma MemoryFixForUnitValue(digits: string, unit: char, iniSetAvailable: bool)
    requires |digits| >= 1 && AllDigits(digits) && LowerChar(unit) in {'k', 'm', 'g'}
    ensures var f := if LowerChar(unit) == 'k' then KiB else if LowerChar(unit) == 'm' then MiB else GiB;
            var v := DigitsValue(digits) * f;
            MemoryLimitAfterFix(digits + [unit], iniSetAvailable) ==
            if v > MaxInt then Fatal
            else if v < DesiredBytes && iniSetAvailable then Limit("128M")
            else Limit(digits + [unit])
  {
    var s := digits + [unit];
    assert |s| >= 2;
    assert !Falsy(s);
    UnitValueNotNumeric(digits, unit);
    assert NotMinusOne(s);
    ConvertToBytesUnits(digits, unit);
  }

  /** A 64 MiB limit is raised when `ini_set` exists, and only then. */
  lemma SmallLimitRaised()
    ensures MemoryLimitAfterFix("64M", true) == Limit("128M")
    ensures MemoryLimitAfterFix("64M", false) == Limit("64M")
  {
    assert "64M" == "64" + ['M'];
    DigitsExamples();
    assert LowerChar('M') == 'm';
    MemoryFixForUnitValue("64", 'M', true);
    MemoryFixForUnitValue("64", 'M', false);
  }

  /** A limit that means unlimited, or no limit at all, is left alone. */
  lemma UnlimitedKept(current: string, iniSetAvailable: bool)
    requires Falsy(current) || !NotMinusOne(current)
    ensures MemoryLimitAfterFix(current, iniSetAvailable) == Limit(current)
  {
  }

  /** Limits of 128 MiB or more, unlimited (any spelling of -1) and unset
      ("") are left alone. */
  lemma SufficientLimitsKept()
    ensures MemoryLimitAfterFix("128M", true) == Limit("128M")
    ensures MemoryLimitAfterFix("1G", true) == Limit("1G")
    ensures MemoryLimitAfterFix("-1", true) == Limit("-1")
    ensures MemoryLimitAfterFix("-1.0", true) == Limit("-1.0")
    ensures MemoryLimitAfterFix("", true) == Limit("")
  {
    assert "128M" == "128" + ['M'] && "1G" == "1" + ['G'];
    assert DigitsValue("128") == 128 && DigitsValue("1") == 1 by {
      DigitsExamples();
    }
    assert LowerChar('M') == 'm' && LowerChar('G') == 'g';
    MemoryFixForUnitValue("128", 'M', true);
    MemoryFixForUnitValue("1", 'G', true);
    MinusOneSpellings();
    UnlimitedKept("-1", true);
    UnlimitedKept("-1.0", true);
    UnlimitedKept("", true);
  }

  /** A value with a digit first and a unit letter last converts as its
      integer cast times the unit. */
  lemma ConvertWithUnit(s: string, n: int, unit: char)
    requires |s| >= 2 && IsDigit(s[0]) && s[|s| - 1] == unit && LowerChar(unit) in {'k', 'm', 'g'}
    requires LeadingInt(s) == n
    ensures var f := if LowerChar(unit) == 'k' then KiB else if LowerChar(unit) == 'm' then MiB else GiB;
            MinInt <= n * f <= MaxInt ==> ConvertToBytes(s) == Converted(n * f)
  {
    UnitLetters(unit);
    TrimmedUnchanged(s);
    assert ToLower([unit]) == [LowerChar(unit)];
    ScaleByUnitFactors(n, "");
  }

  /** PHP 8 reads a fraction: "1.5G" is one GiB. */
  lemma FractionalGigabyte()
    ensures ConvertToBytes("1.5G") == Converted(GiB)
  {
    assert "1.5G" == "1" + "." + "5" + "G";
    assert DigitsValue("1") == 1 by { assert "1"[..0] == ""; }
    assert ExponentPart("G").1 == 0;
    LeadingIntOfDecimal("1", "5", "G");
    assert LowerChar('G') == 'g';
    ConvertWithUnit("1.5G", 1, 'G');
  }

  /** "0.5G" casts to 0 before scaling, so it is zero bytes (and gets raised). */
  lemma HalfGigabyteIsZero()
    ensures ConvertToBytes("0.5G") == Converted(0)
  {
    DigitsOneZero();
    assert ExponentPart("G").1 == 0;
    assert "0.5G" == "0" + "." + "5" + "G";
    LeadingIntOfDecimal("0", "5", "G");
    assert LowerChar('G') == 'g';
    ConvertWithUnit("0.5G", 0, 'G');
  }

  /** An exponent is read too: "1e3M" is a thousand MiB. */
  lemma ExponentMegabytes()
    ensures ConvertToBytes("1e3M") == Converted(1000 * MiB)
  {
    assert "1e3M" == "1" + "e" + "3" + "M";
    DigitsExamples();
    assert DigitsValue("3") == 3 by { assert "3"[..0] == ""; }
    assert Pow10(3) == 1000;
    LeadingIntOfScientific("1", "3", "M");
    assert LeadingInt("1" + "e" + "3" + "M") == DigitsValue("1") * Pow10(DigitsValue("3"));
    assert LowerChar('M') == 'm';
    assert "1e3M"[0] == '1' && "1e3M"[3] == 'M';
    ConvertWithUnit("1e3M", 1000, 'M');
  }
}
