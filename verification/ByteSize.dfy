/**
 * The byte-size printer (`humanBytesOf`, cmd/transferctl/packages.go) and the
 * byte-size parser (`parseByteSize`, cmd/transferctl/calibrate.go).
 *
 * The printer's operands are float64. Converting an int64 rounds it to 53 bits;
 * dividing by a power of two is exact, so "%.1f" rounds that quotient, ties to
 * even.
 */
module ByteSize {
  import opened Text

  datatype Parsed = Size(bytes: int) | NotASize

  /** The number mantissa / 10^places, exactly. */
  datatype Decimal = Decimal(mantissa: int, places: nat)

  datatype Unit = Unit(suffix: string, scale: nat)

  const KIB: nat := 0x400
  const MIB: nat := 0x10_0000
  const GIB: nat := 0x4000_0000
  const TIB: nat := 0x100_0000_0000
  const PIB: nat := 0x4_0000_0000_0000

  /** Integers below 2^53 are float64 numbers. */
  const EXACT: nat := 0x20_0000_0000_0000

  /** 1024 to the power e. */
  function Scale(e: nat): (r: nat)
    ensures r > 0
  {
    if e == 0 then 1 else 1024 * Scale(e - 1)
  }

  // ---- the printer's specification ----------------------------------------

  /** The largest unit that does not exceed n, as an index into K, M, G, T, P. */
  function UnitIndex(n: nat): (exp: nat)
    requires n >= KIB
    ensures exp <= 4 && Scale(exp + 1) <= n && (exp < 4 ==> n < Scale(exp + 2))
  {
    ScaleValues();
    if n < MIB then 0 else if n < GIB then 1 else if n < TIB then 2 else if n < PIB then 3 else 4
  }

  /** x / d rounded to nearest, ties to even. */
  function Rounded(x: nat, d: nat): nat
    requires d > 0
  {
    var q, r := x / d, x % d;
    if 2 * r < d || (2 * r == d && q % 2 == 0) then q else q + 1
  }

  function Tenths(n: nat, div: nat): nat
    requires div > 0
  {
    Rounded(10 * n, div)
  }

  /** The distance between the float64 numbers around n. */
  function Ulp(n: nat): (u: nat)
    ensures u > 0
  {
    if n < EXACT then 1 else 2 * Ulp(n / 2)
  }

  /** The integer n as a float64. */
  function Float64(n: nat): nat {
    Rounded(n, Ulp(n)) * Ulp(n)
  }

  function UnitText(tenths: nat, exp: nat): string
    requires exp <= 4
  {
    Digits(tenths / 10) + "." + Digits(tenths % 10) + " " + ["KMGTP"[exp]] + "iB"
  }

  function Human(n: int): string {
    if n < 1024 then Itoa(n) + " B"
    else
      var exp := UnitIndex(n);
      UnitText(Tenths(Float64(n), Scale(exp + 1)), exp)
  }

  // ---- the printer --------------------------------------------------------

  method HumanBytesOf(n: int) returns (s: string)
    ensures s == Human(n)
  {
    if n < 1024 {
      return Itoa(n) + " B";
    }
    var div, exp := 1024, 0;
    var m := n / 1024;
    assert Scale(1) == 1024 * Scale(0);
    while m >= 1024 && exp < 4
      invariant 0 <= exp <= 4 && div == Scale(exp + 1)
      invariant m == n / div && m >= 1
      decreases 4 - exp
    {
      ScaleValues();
      DivDiv(n, div);
      div := div * 1024;
      exp := exp + 1;
      m := m / 1024;
    }
    UnitDetermined(n, exp);
    s := UnitText(Tenths(Float64(n), div), exp);
  }

  lemma ScaleValues()
    ensures Scale(1) == KIB && Scale(2) == MIB && Scale(3) == GIB && Scale(4) == TIB && Scale(5) == PIB
  {
    assert Scale(1) == 1024 * Scale(0);
    assert Scale(2) == 1024 * Scale(1);
    assert Scale(3) == 1024 * Scale(2);
    assert Scale(4) == 1024 * Scale(3);
    assert Scale(5) == 1024 * Scale(4);
  }

  lemma DivDiv(n: nat, d: nat)
    requires d == KIB || d == MIB || d == GIB || d == TIB
    ensures n / d / 1024 == n / (d * 1024)
  {
    if d == KIB {} else if d == MIB {} else if d == GIB {} else {}
  }

  lemma UnitDetermined(n: nat, exp: nat)
    requires exp <= 4 && n / Scale(exp + 1) >= 1
    requires exp == 4 || n / Scale(exp + 1) < 1024
    requires n >= KIB
    ensures UnitIndex(n) == exp
  {
    ScaleValues();
    if exp == 0 {} else if exp == 1 {} else if exp == 2 {} else if exp == 3 {} else {}
  }

  // ---- the parser ---------------------------------------------------------

  function TrimSpace(s: string): string {
    if s == [] then []
    else if IsSpace(s[0]) then TrimSpace(s[1..])
    else if IsSpace(s[|s| - 1]) then TrimSpace(s[..|s| - 1])
    else s
  }

  function UpperChar(c: char): char {
    if 'a' <= c <= 'z' then (c as int - 32) as char else c
  }

  function ToUpper(s: string): (r: string)
    ensures |r| == |s|
  {
    seq(|s|, i requires 0 <= i < |s| => UpperChar(s[i]))
  }

  predicate HasSuffix(s: string, suffix: string) {
    |suffix| <= |s| && s[|s| - |suffix|..] == suffix
  }

  function PowerOfTen(k: nat): (r: nat)
    ensures r > 0
  {
    if k == 0 then 1 else 10 * PowerOfTen(k - 1)
  }

  /** Digits, with a point among them or not. */
  function ParseDecimal(body: string): (d: Option<Decimal>)
    ensures d.Some? ==> d.value.mantissa >= 0
  {
    var dot := IndexOf(body, '.');
    var whole := if dot < 0 then body else body[..dot];
    var fraction := if dot < 0 then [] else body[dot + 1..];
    var digits := whole + fraction;
    if digits == [] || !AllDigits(digits) then None else Some(Decimal(Value(digits), |fraction|))
  }

  /** strconv.ParseFloat on plain decimals: a sign, digits, a point, digits. */
  function ParseFloat(s: string): Option<Decimal> {
    var signed := s != [] && (s[0] == '-' || s[0] == '+');
    match ParseDecimal(if signed then s[1..] else s)
    case None => None
    case Some(d) => Some(if signed && s[0] == '-' then Decimal(-d.mantissa, d.places) else d)
  }

  /** The suffixes in the order they are tried. */
  const UNITS: seq<Unit> := [
    Unit("KIB", KIB), Unit("MIB", MIB), Unit("GIB", GIB), Unit("TIB", TIB),
    Unit("KB", 1_000), Unit("MB", 1_000_000), Unit("GB", 1_000_000_000), Unit("TB", 1_000_000_000_000),
    Unit("K", KIB), Unit("M", MIB), Unit("G", GIB), Unit("T", TIB),
    Unit("B", 1)
  ]

  function Scaled(number: string, scale: nat): Parsed {
    match ParseFloat(TrimSpace(number))
    case None => NotASize
    case Some(x) =>
      if x.mantissa < 0 then NotASize else Size(x.mantissa * scale / PowerOfTen(x.places))
  }

  function Scan(units: seq<Unit>, upper: string): Parsed {
    if units == [] then
      match Atoi(upper)
      case None => NotASize
      case Some(n) => if n < 0 then NotASize else Size(n)
    else if HasSuffix(upper, units[0].suffix) then
      Scaled(upper[..|upper| - |units[0].suffix|], units[0].scale)
    else
      Scan(units[1..], upper)
  }

  function ParseByteSize(s: string): Parsed {
    var trimmed := TrimSpace(s);
    if trimmed == "" then Size(0) else Scan(UNITS, ToUpper(trimmed))
  }

  // ---- every suffix is read with its own scale ----------------------------

  /** What each suffix means: KiB and K are powers of 1024, KB is powers of 1000. */
  function Meaning(j: nat): nat
    requires j < 13
  {
    if j == 12 then 1
    else if 4 <= j < 8 then [1_000, 1_000_000, 1_000_000_000, 1_000_000_000_000][j - 4]
    else [KIB, MIB, GIB, TIB][j % 4]
  }

  lemma TableMeaning(j: nat)
    requires j < 13
    ensures UNITS[j].scale == Meaning(j)
  {
    assert UNITS[0].scale == UNITS[8].scale == KIB && UNITS[1].scale == UNITS[9].scale == MIB;
    assert UNITS[2].scale == UNITS[10].scale == GIB && UNITS[3].scale == UNITS[11].scale == TIB;
    assert UNITS[4].scale == 1_000 && UNITS[5].scale == 1_000_000;
    assert UNITS[6].scale == 1_000_000_000 && UNITS[7].scale == 1_000_000_000_000;
    assert UNITS[12].scale == 1;
  }

  /** A suffix tried earlier does not match what ends in a later suffix after no letter. */
  lemma NotShadowed(front: string, i: nat, j: nat)
    requires front != [] && !('A' <= front[|front| - 1] <= 'Z') && i < j < 13
    ensures !HasSuffix(front + UNITS[j].suffix, UNITS[i].suffix)
  {
    TableRow(i);
    if j < 12 { TableRow(j); } else { assert UNITS[12].suffix == "B"; }
    var x, y := UNITS[i].suffix, UNITS[j].suffix;
    var s := front + y;
    var k := if |x| > |y| then |x| - |y| - 1 else 0;
    if |x| <= |s| {
      assert |x| > |y| ==> s[|s| - |x| + k] == front[|front| - 1];
      assert |x| == |y| ==> s[|s| - |x|] == y[0];
      NoSuffix(s, x, k);
    }
  }

  /** An unsigned decimal, with or without a point. */
  predicate IsNumeral(s: string) {
    && s != [] && (forall i :: 0 <= i < |s| ==> IsDigit(s[i]) || s[i] == '.')
    && ParseFloat(s).Some?
  }

  /**
   * A decimal with any suffix, in either case, with or without a sign and a
   * blank before the suffix, is read with that suffix's meaning, truncated to
   * whole bytes; a negative one is refused.
   */
  lemma EverySuffixIsRead(sign: string, number: string, gap: string, suffix: string, j: nat)
    requires IsNumeral(number) && (gap == "" || gap == " ") && sign in {"", "+", "-"}
    requires j < 13 && ToUpper(suffix) == UNITS[j].suffix
    ensures var d := ParseFloat(number).value;
      ParseByteSize(sign + number + gap + suffix) ==
        if sign == "-" && d.mantissa > 0 then NotASize
        else Size(d.mantissa * Meaning(j) / PowerOfTen(d.places))
  {
    var front := sign + number + gap;
    hide Scan, Scaled, HasSuffix, Meaning, ParseFloat, ParseByteSize, ToUpper;
    assert front[0] == (sign + number)[0] && front[|front| - 1] == (number + gap)[|number + gap| - 1];
    ScannedUpper(front, suffix, j);
    forall i | 0 <= i < j ensures !HasSuffix(front + UNITS[j].suffix, UNITS[i].suffix) {
      NotShadowed(front, i, j);
    }
    ScanAt(UNITS, front, j);
    TableMeaning(j);
    ScaledNumeral(sign, number, gap, Meaning(j));
  }

  lemma ScannedUpper(front: string, suffix: string, j: nat)
    requires j < 13 && ToUpper(suffix) == UNITS[j].suffix
    requires front != "" && !IsSpace(front[0]) && forall i :: 0 <= i < |front| ==> !('a' <= front[i] <= 'z')
    ensures ParseByteSize(front + suffix) == Scan(UNITS, front + UNITS[j].suffix)
  {
    hide Scan;
    LettersEnd(suffix, j);
    var text := front + suffix;
    assert text[0] == front[0] && text[|text| - 1] == suffix[|suffix| - 1];
    TrimBlank(text);
    UpperDigits(front, suffix);
  }

  lemma LettersEnd(suffix: string, j: nat)
    requires j < 13 && ToUpper(suffix) == UNITS[j].suffix
    ensures suffix != [] && !IsSpace(suffix[|suffix| - 1])
  {
    if j < 12 { TableRow(j); } else { assert UNITS[12].suffix == "B"; }
    assert ToUpper(suffix)[|suffix| - 1] == UpperChar(suffix[|suffix| - 1]);
  }

  lemma ScaledNumeral(sign: string, number: string, gap: string, scale: nat)
    requires IsNumeral(number) && (gap == "" || gap == " ") && sign in {"", "+", "-"}
    ensures var d := ParseFloat(number).value;
      && d.mantissa >= 0
      && Scaled(sign + number + gap, scale) ==
        if sign == "-" && d.mantissa > 0 then NotASize else Size(d.mantissa * scale / PowerOfTen(d.places))
  {
    var s := sign + number;
    SignedNumeral(sign, number);
    TrimNumeral(sign, number, gap);
    hide ParseFloat, TrimSpace, IsNumeral;
  }

  lemma TrimNumeral(sign: string, number: string, gap: string)
    requires IsNumeral(number) && (gap == "" || gap == " ") && sign in {"", "+", "-"}
    ensures TrimSpace(sign + number + gap) == sign + number
  {
    hide ParseFloat;
    var s := sign + number;
    assert s[|s| - 1] == number[|number| - 1];
    assert s[0] == if sign == "" then number[0] else sign[0];
    TrimBlank(s);
    assert s + "" == s;
  }

  lemma SignedNumeral(sign: string, number: string)
    requires IsNumeral(number) && sign in {"", "+", "-"}
    ensures var d := ParseFloat(number).value;
      && d.mantissa >= 0
      && ParseFloat(sign + number) == Some(if sign == "-" then Decimal(-d.mantissa, d.places) else d)
  {
    assert number[0] != '-' && number[0] != '+';
    if sign == "" {
      assert sign + number == number;
    } else {
      SignThenBody(sign[0], number);
      assert sign + number == [sign[0]] + number;
    }
  }

  lemma SignThenBody(c: char, number: string)
    requires IsNumeral(number) && (c == '-' || c == '+')
    ensures var d := ParseFloat(number).value;
      ParseFloat([c] + number) == Some(if c == '-' then Decimal(-d.mantissa, d.places) else d)
  {
    var s := [c] + number;
    assert s[1..] == number;
    assert number[0] != '-' && number[0] != '+';
    hide ParseDecimal;
  }

  // ---- numbers without a suffix -------------------------------------------

  predicate Blank(s: string) {
    forall i :: 0 <= i < |s| ==> IsSpace(s[i])
  }

  /** White space around a size does not count. */
  lemma {:induction false} TrimExact(before: string, s: string, after: string)
    requires Blank(before) && Blank(after)
    requires s != "" && !IsSpace(s[0]) && !IsSpace(s[|s| - 1])
    ensures TrimSpace(before + s + after) == s
    decreases |before| + |after|
  {
    var text := before + s + after;
    if before != "" {
      assert text[0] == before[0] && text[1..] == before[1..] + s + after;
      TrimExact(before[1..], s, after);
    } else if after != "" {
      var n := |after| - 1;
      assert text[0] == s[0] && text[|text| - 1] == after[n];
      assert text[..|text| - 1] == before + s + after[..n];
      TrimExact(before, s, after[..n]);
    } else {
      assert text == s;
    }
  }

  lemma {:induction false} NoUnitMatches(units: seq<Unit>, upper: string)
    requires upper != "" && upper[|upper| - 1] !in "KMGTB"
    requires forall i :: 0 <= i < |units| ==> units[i].suffix != "" && units[i].suffix[|units[i].suffix| - 1] in "KMGTB"
    ensures Scan(units, upper) == match Atoi(upper)
      case None => NotASize
      case Some(n) => if n < 0 then NotASize else Size(n)
  {
    if units != [] {
      var x := units[0].suffix;
      if |x| <= |upper| {
        assert upper[|upper| - 1] != x[|x| - 1];
        NoSuffix(upper, x, |x| - 1);
      }
      NoUnitMatches(units[1..], upper);
    }
  }

  lemma SuffixesEnd()
    ensures forall i :: 0 <= i < |UNITS| ==>
      UNITS[i].suffix != "" && UNITS[i].suffix[|UNITS[i].suffix| - 1] in "KMGTB"
  {
    forall i | 0 <= i < |UNITS|
      ensures UNITS[i].suffix != "" && UNITS[i].suffix[|UNITS[i].suffix| - 1] in "KMGTB"
    {
      if i < 12 { TableRow(i); } else { assert UNITS[12].suffix == "B"; }
    }
  }

  /** White space alone is zero bytes. */
  lemma NothingIsZero(s: string)
    requires Blank(s)
    ensures ParseByteSize(s) == Size(0)
  {
    TrimBlankOnly(s);
  }

  lemma BareIsAtoi(before: string, s: string, after: string)
    requires Blank(before) && Blank(after) && s != "" && !IsSpace(s[0]) && IsDigit(s[|s| - 1])
    ensures ParseByteSize(before + s + after) == match Atoi(s)
      case None => NotASize
      case Some(n) => if n < 0 then NotASize else Size(n)
  {
    TrimExact(before, s, after);
    SuffixesEnd();
    var upper := ToUpper(s);
    assert upper[|upper| - 1] == s[|s| - 1];
    NoUnitMatches(UNITS, upper);
    UpperNumber(s);
    hide Scan, TrimSpace, Atoi;
  }

  /**
   * A text that ends in a digit is a number of bytes exactly when it is a
   * natural number in int64, with a sign or without, and refused otherwise.
   */
  lemma BareNumberIsRead(before: string, s: string, after: string, n: int)
    requires Blank(before) && Blank(after) && s != "" && !IsSpace(s[0]) && IsDigit(s[|s| - 1])
    ensures ParseByteSize(before + s + after) == Size(n) <==>
      0 <= n <= MAX_INT64 && exists digits :: Spells(s, digits, n)
  {
    hide ParseByteSize, Atoi, Spells;
    BareIsAtoi(before, s, after);
    AtoiExact(s, n);
    if Atoi(s).Some? {
      AtoiExact(s, Atoi(s).value);
    }
  }

  lemma {:induction false} TrimBlankOnly(s: string)
    requires Blank(s)
    ensures TrimSpace(s) == ""
  {
    if s != "" {
      TrimBlankOnly(s[1..]);
    }
  }

  /** Upper case makes no number of what is none. */
  lemma UpperNumber(s: string)
    ensures Atoi(ToUpper(s)) == Atoi(s)
  {
    var upper := ToUpper(s);
    assert forall i :: 0 <= i < |s| ==> (IsDigit(s[i]) <==> IsDigit(upper[i])) && (IsDigit(s[i]) ==> upper[i] == s[i]);
    if s != "" {
      assert s[0] == '-' || s[0] == '+' <==> upper[0] == '-' || upper[0] == '+';
      var a := if s[0] == '-' || s[0] == '+' then s[1..] else s;
      var b := if s[0] == '-' || s[0] == '+' then upper[1..] else upper;
      if AllDigits(a) {
        assert a == b;
      } else {
        var i :| 0 <= i < |a| && !IsDigit(a[i]);
        assert !IsDigit(b[i]);
      }
    }
  }

  // ---- reading what was printed -------------------------------------------

  lemma {:induction false} ScanFirstMatch(units: seq<Unit>, upper: string, j: nat)
    requires j < |units| && HasSuffix(upper, units[j].suffix)
    requires forall i :: 0 <= i < j ==> !HasSuffix(upper, units[i].suffix)
    ensures Scan(units, upper) == Scaled(upper[..|upper| - |units[j].suffix|], units[j].scale)
  {
    if j > 0 {
      assert !HasSuffix(upper, units[0].suffix);
      forall i | 0 <= i < j - 1 ensures !HasSuffix(upper, units[1..][i].suffix) {
        assert !HasSuffix(upper, units[i + 1].suffix);
      }
      ScanFirstMatch(units[1..], upper, j - 1);
    }
  }

  lemma NoSuffix(s: string, suffix: string, k: nat)
    requires k < |suffix| <= |s| && s[|s| - |suffix| + k] != suffix[k]
    ensures !HasSuffix(s, suffix)
  {
    assert s[|s| - |suffix|..][k] != suffix[k];
  }

  /** What tells the first twelve suffixes apart, character by character. */
  lemma TableRow(i: nat)
    requires i < 12
    ensures var x := UNITS[i].suffix;
      && (i < 4 ==> |x| == 3 && x[0] == "KMGT"[i] && x[1] == 'I' && x[2] == 'B')
      && (i < 4 ==> UNITS[i].scale == Scale(i + 1))
      && (4 <= i < 8 ==> |x| == 2 && x[0] == "KMGT"[i - 4] && x[1] == 'B')
      && (8 <= i ==> |x| == 1 && x[0] == "KMGT"[i - 8])
  {
    ScaleValues();
    if i < 4 {
      assert UNITS[0].suffix == "KIB" && UNITS[1].suffix == "MIB";
      assert UNITS[2].suffix == "GIB" && UNITS[3].suffix == "TIB";
    } else if i < 8 {
      assert UNITS[4].suffix == "KB" && UNITS[5].suffix == "MB";
      assert UNITS[6].suffix == "GB" && UNITS[7].suffix == "TB";
    } else {
      assert UNITS[8].suffix == "K" && UNITS[9].suffix == "M";
      assert UNITS[10].suffix == "G" && UNITS[11].suffix == "T";
    }
  }

  lemma NoEarlierSuffix(s: string, i: nat, c: char, d: char)
    requires i < 12 && |s| >= 3 && s[|s| - 1] == 'B' && s[|s| - 2] == c && s[|s| - 3] == d
    requires c == ' ' || (c == 'I' && (i < 4 ==> d != "KMGT"[i]))
    ensures !HasSuffix(s, UNITS[i].suffix)
  {
    TableRow(i);
    var suffix := UNITS[i].suffix;
    var k := if i < 4 && c == ' ' then 1 else 0;
    if |suffix| <= |s| {
      assert s[|s| - |suffix| + k] != suffix[k];
      NoSuffix(s, suffix, k);
    }
  }

  lemma ScanAt(units: seq<Unit>, front: string, j: nat)
    requires j < |units|
    requires forall i :: 0 <= i < j ==> !HasSuffix(front + units[j].suffix, units[i].suffix)
    ensures Scan(units, front + units[j].suffix) == Scaled(front, units[j].scale)
  {
    var s := front + units[j].suffix;
    assert s[|front|..] == units[j].suffix && s[..|front|] == front;
    ScanFirstMatch(units, s, j);
  }

  /** Nothing before the bare "B" matches a text that ends in " B" or in "PIB". */
  lemma ScanBytes(front: string)
    requires |front| >= 2
    requires front[|front| - 1] == ' ' || (front[|front| - 1] == 'I' && front[|front| - 2] == 'P')
    ensures Scan(UNITS, front + "B") == Scaled(front, 1)
  {
    hide Scan, Scaled, HasSuffix;
    assert UNITS[12] == Unit("B", 1);
    var s := front + UNITS[12].suffix;
    assert s[|s| - 1] == 'B' && s[|s| - 2] == front[|front| - 1] && s[|s| - 3] == front[|front| - 2];
    forall i | 0 <= i < 12 ensures !HasSuffix(s, UNITS[i].suffix) {
      NoEarlierSuffix(s, i, front[|front| - 1], front[|front| - 2]);
    }
    ScanAt(UNITS, front, 12);
  }

  lemma ScanUnit(front: string, exp: nat)
    requires exp <= 3
    ensures Scan(UNITS, front + (["KMGT"[exp]] + "IB")) == Scaled(front, Scale(exp + 1))
  {
    hide Scan, Scaled, HasSuffix, Scale;
    TableRow(exp);
    assert UNITS[exp].suffix == ["KMGT"[exp]] + "IB";
    var s := front + UNITS[exp].suffix;
    assert s[|s| - 1] == 'B' && s[|s| - 2] == 'I' && s[|s| - 3] == "KMGT"[exp];
    forall i | 0 <= i < exp ensures !HasSuffix(s, UNITS[i].suffix) {
      NoEarlierSuffix(s, i, 'I', "KMGT"[exp]);
    }
    ScanAt(UNITS, front, exp);
  }

  lemma TrimBlank(s: string)
    requires s != [] && !IsSpace(s[0]) && !IsSpace(s[|s| - 1])
    ensures TrimSpace(s) == s && TrimSpace(s + " ") == s
  {
    assert (s + " ")[..|s|] == s;
  }

  lemma UpperDigits(s: string, tail: string)
    requires forall i :: 0 <= i < |s| ==> !('a' <= s[i] <= 'z')
    ensures ToUpper(s + tail) == s + ToUpper(tail)
  {
  }

  lemma {:induction false} DigitsSigned(n: int)
    ensures var s := Itoa(n);
      s != [] && (s[0] == '-' <==> n < 0) && (forall i :: 0 <= i < |s| ==> IsDigit(s[i]) || s[i] == '-')
      && IsDigit(s[|s| - 1]) && (n >= 0 ==> AllDigits(s))
  {
    var digits := Digits(if n < 0 then -n else n);
    assert AllDigits(digits) && IsDigit(digits[|digits| - 1]);
  }

  lemma ParseInteger(n: int)
    ensures ParseFloat(Itoa(n)) == Some(Decimal(n, 0))
  {
    DigitsSigned(n);
    var body := Digits(if n < 0 then -n else n);
    assert AllDigits(body) && IsDigit(body[0]);
    assert n < 0 ==> Itoa(n)[1..] == body;
    assert IndexOf(body, '.') < 0;
    assert body + [] == body;
    ValueOfDigits(if n < 0 then -n else n);
  }

  lemma AppendTenth(q: nat, r: nat)
    requires r < 10
    ensures |Digits(r)| == 1 && AllDigits(Digits(q) + Digits(r))
    ensures Value(Digits(q) + Digits(r)) == 10 * q + r
  {
    var digits := Digits(q) + Digits(r);
    assert AllDigits(Digits(q)) && AllDigits(Digits(r));
    assert digits[..|digits| - 1] == Digits(q);
    ValueOfDigits(q);
  }

  lemma DecimalPoint(whole: string, fraction: string)
    requires AllDigits(whole) && AllDigits(fraction) && whole != []
    ensures AllDigits(whole + fraction)
    ensures ParseDecimal(whole + "." + fraction) == Some(Decimal(Value(whole + fraction), |fraction|))
  {
    var s := whole + "." + fraction;
    assert s[|whole|] == '.';
    assert forall i :: 0 <= i < |whole| ==> s[i] == whole[i] && IsDigit(whole[i]);
    assert IndexOf(s, '.') == |whole|;
    assert s[..|whole|] == whole && s[|whole| + 1..] == fraction;
    hide IndexOf, Value;
  }

  lemma ParsePoint(whole: string, fraction: string, mantissa: nat, places: nat)
    requires whole != [] && AllDigits(whole) && AllDigits(fraction) && |fraction| == places
    requires AllDigits(whole + fraction) && Value(whole + fraction) == mantissa
    ensures ParseFloat(whole + "." + fraction) == Some(Decimal(mantissa, places))
  {
    DecimalPoint(whole, fraction);
    hide ParseDecimal, Value;
    assert IsDigit(whole[0]) && (whole + "." + fraction)[0] == whole[0];
  }

  lemma ParseTenths(t: nat)
    ensures ParseFloat(Digits(t / 10) + "." + Digits(t % 10)) == Some(Decimal(t, 1))
  {
    hide ParseFloat;
    AppendTenth(t / 10, t % 10);
    ParsePoint(Digits(t / 10), Digits(t % 10), t, 1);
  }

  lemma ReadPlain(n: int)
    ensures ParseByteSize(Itoa(n) + " B") == if n < 0 then NotASize else Size(n)
  {
    var s := Itoa(n);
    DigitsSigned(n);
    var text := s + " B";
    assert text[0] == s[0] && text[|text| - 1] == 'B';
    TrimBlank(text);
    UpperDigits(s, " B");
    assert ToUpper(" B") == " B";
    assert s + " B" == (s + " ") + "B";
    ScanBytes(s + " ");
    TrimBlank(s);
    ParseInteger(n);
  }

  lemma UpperUnit(t: nat, exp: nat)
    requires exp <= 4
    ensures var number := Digits(t / 10) + "." + Digits(t % 10);
      && TrimSpace(UnitText(t, exp)) == UnitText(t, exp)
      && ToUpper(UnitText(t, exp)) == number + (" " + ["KMGTP"[exp]] + "IB")
      && IsDigit(number[0]) && IsDigit(number[|number| - 1])
  {
    var number := Digits(t / 10) + "." + Digits(t % 10);
    var tail := " " + ["KMGTP"[exp]] + "iB";
    assert AllDigits(Digits(t / 10)) && AllDigits(Digits(t % 10));
    var text := UnitText(t, exp);
    assert text == number + tail;
    assert text[0] == number[0] && text[|text| - 1] == 'B';
    TrimBlank(text);
    UpperDigits(number, tail);
    assert ToUpper(tail) == " " + ["KMGTP"[exp]] + "IB";
  }

  lemma ReadPebi(t: nat)
    ensures ParseByteSize(UnitText(t, 4)) == NotASize
  {
    UpperUnit(t, 4);
    var number := Digits(t / 10) + "." + Digits(t % 10);
    var front := number + " PI";
    assert number + (" " + ['P'] + "IB") == front + "B";
    ScanBytes(front);
    PebiIsNoNumber(number);
  }

  /** The bytes a printed number of tenths stands for. */
  function Back(tenths: nat, div: nat): nat {
    tenths * div / 10
  }

  lemma ScaledTenths(t: nat, div: nat)
    ensures Scaled(Digits(t / 10) + "." + Digits(t % 10) + " ", div) == Size(Back(t, div))
  {
    var number := Digits(t / 10) + "." + Digits(t % 10);
    assert AllDigits(Digits(t / 10)) && AllDigits(Digits(t % 10));
    assert IsDigit(number[0]) && IsDigit(number[|number| - 1]);
    TrimBlank(number);
    ParseTenths(t);
    assert PowerOfTen(1) == 10 * PowerOfTen(0);
  }

  lemma ReadUnit(t: nat, exp: nat)
    requires exp <= 3
    ensures ParseByteSize(UnitText(t, exp)) == Size(Back(t, Scale(exp + 1)))
  {
    UpperUnit(t, exp);
    var number := Digits(t / 10) + "." + Digits(t % 10);
    assert number + (" " + ["KMGTP"[exp]] + "IB") == (number + " ") + (["KMGT"[exp]] + "IB");
    ScanUnit(number + " ", exp);
    ScaleValues();
    ScaledTenths(t, Scale(exp + 1));
  }

  lemma LetterAtTheEnd(s: string)
    requires s != [] && IsDigit(s[0]) && !IsDigit(s[|s| - 1]) && s[|s| - 1] != '.'
    ensures ParseFloat(s) == None
  {
    var dot := IndexOf(s, '.');
    var digits := if dot < 0 then s + [] else s[..dot] + s[dot + 1..];
    assert digits[|digits| - 1] == s[|s| - 1];
  }

  lemma PebiIsNoNumber(number: string)
    requires number != [] && IsDigit(number[0])
    ensures ParseFloat(TrimSpace(number + " PI")) == None
  {
    var s := number + " PI";
    assert s[0] == number[0] && s[|s| - 1] == 'I';
    TrimBlank(s);
    LetterAtTheEnd(s);
  }

  // ---- the round trip -----------------------------------------------------

  /** The first decimal of n rounds up to the next unit's "1024.0". */
  predicate RoundsUp(n: nat) {
    n >= KIB && 20 * n >= 20479 * Scale(UnitIndex(n) + 1)
  }

  /** `Rounded` is the nearest multiple, the even one of two. */
  lemma RoundedIsNearest(x: nat, d: int)
    requires d > 0
    ensures var t := Rounded(x, d);
      && -d <= 2 * x - 2 * t * d <= d
      && (2 * x - 2 * t * d == d || 2 * x - 2 * t * d == -d ==> t % 2 == 0)
  {
    var q, r, t := x / d, x % d, Rounded(x, d);
    assert x == q * d + r;
    if t == q {
      assert 2 * t * d == 2 * (q * d);
    } else {
      assert t * d == q * d + d;
      assert 2 * t * d == 2 * (q * d) + 2 * d;
    }
  }

  lemma {:induction false} UlpBounds(n: nat)
    ensures n >= EXACT ==> EXACT / 2 * Ulp(n) <= n < EXACT * Ulp(n)
  {
    if n >= EXACT {
      UlpBounds(n / 2);
    }
  }

  /**
   * `Float64` is the nearest number of at most 53 bits, the even one of two: a
   * multiple of a gap that is at most n / 2^52, and n itself below 2^53.
   */
  lemma Float64IsNearest(n: nat)
    ensures exists m: nat :: Float64(n) == m * Ulp(n) && m <= EXACT
    ensures 2 * (n - Float64(n)) <= Ulp(n) && 2 * (Float64(n) - n) <= Ulp(n)
    ensures n >= EXACT ==> EXACT / 2 * Ulp(n) <= n
    ensures n < EXACT ==> Float64(n) == n
  {
    if n < EXACT {
      assert Float64(n) == n * Ulp(n);
    } else {
      hide Ulp, Rounded;
      UlpBounds(n);
      RoundedClose(n, Ulp(n));
    }
  }

  lemma RoundedClose(n: nat, u: int)
    requires u > 0 && n < EXACT * u
    ensures var t := Rounded(n, u);
      t <= EXACT && 2 * (n - t * u) <= u && 2 * (t * u - n) <= u
  {
    RoundedBelow(n, u);
    RoundedIsNearest(n, u);
    hide Rounded;
    var t := Rounded(n, u);
    assert 2 * t * u == 2 * (t * u);
  }

  lemma RoundedBelow(n: nat, u: int)
    requires u > 0 && n < EXACT * u
    ensures Rounded(n, u) <= EXACT
  {
    var q := n / u;
    assert q * u <= n;
    LessFactor(q, EXACT, u);
  }

  lemma LessFactor(a: int, b: int, u: int)
    requires u > 0 && a * u < b * u
    ensures a < b
  {
  }

  lemma NearestIsTenths(n: nat, div: int, t: nat)
    requires div == KIB || div == MIB || div == GIB || div == TIB
    requires -div < 20 * n - 2 * t * div < div
    ensures Tenths(n, div) == t
  {
    if div == KIB {} else if div == MIB {} else if div == GIB {} else {}
  }

  ghost predicate TenthsOk(n: nat, div: nat, next: nat)
    requires div > 0
  {
    var t := Tenths(n, div);
    var back := Back(t, div);
    && t <= 10240
    && (t == 10240 <==> 20 * n >= 20479 * div)
    && -(div / 20 + 1) <= back - n <= div / 20 + 1
    && div <= back
    && (t == 10240 ==> back == next)
    && (t < 10240 ==> back < next && Tenths(back, div) == t)
  }

  lemma TenthsAt(n: nat, div: nat)
    requires div == KIB || div == MIB || div == GIB || div == TIB
    requires div <= n < 1024 * div
    ensures TenthsOk(n, div, 1024 * div)
  {
    var t := Tenths(n, div);
    var back := Back(t, div);
    RoundedIsNearest(10 * n, div);
    BackBounds(n, div, t);
    NearestIsTenths(back, div, t);
  }

  lemma BackBounds(n: nat, div: int, t: nat)
    requires div == KIB || div == MIB || div == GIB || div == TIB
    requires div <= n < 1024 * div
    requires -div <= 20 * n - 2 * t * div <= div
    requires 20 * n - 2 * t * div == div || 20 * n - 2 * t * div == -div ==> t % 2 == 0
    ensures var back := Back(t, div);
      && t <= 10240
      && (t == 10240 <==> 20 * n >= 20479 * div)
      && -(div / 20 + 1) <= back - n <= div / 20 + 1
      && div <= back
      && (t == 10240 ==> back == 1024 * div)
      && (t < 10240 ==> back < 1024 * div)
      && -div < 20 * back - 2 * t * div < div
  {
    if div == KIB {} else if div == MIB {} else if div == GIB {} else {}
  }

  lemma TenthsFacts(n: nat, exp: nat)
    requires exp <= 3 && Scale(exp + 1) <= n < Scale(exp + 2)
    ensures TenthsOk(n, Scale(exp + 1), Scale(exp + 2))
  {
    ScaleValues();
    assert Scale(exp + 2) == 1024 * Scale(exp + 1);
    TenthsAt(n, Scale(exp + 1));
  }

  /**
   * A printed size can be read back exactly when it is non-negative and below
   * 1 PiB. Below 1 KiB the number comes back; above, it is off by at most half
   * a tenth of the unit and the fraction of a byte truncation drops.
   */
  lemma RoundTrip(n: int)
    ensures ParseByteSize(Human(n)).Size? <==> 0 <= n < PIB
    ensures 0 <= n < KIB ==> ParseByteSize(Human(n)) == Size(n)
    ensures KIB <= n < PIB ==>
      var div := Scale(UnitIndex(n) + 1);
      -(div / 20 + 1) <= ParseByteSize(Human(n)).bytes - n <= div / 20 + 1
  {
    ScaleValues();
    if n < KIB {
      ReadPlain(n);
    } else {
      var exp := UnitIndex(n);
      if n < PIB {
        HumanInUnit(n, exp);
        ReadUnit(Tenths(n, Scale(exp + 1)), exp);
        TenthsFacts(n, exp);
      } else {
        ReadPebi(Tenths(Float64(n), Scale(exp + 1)));
      }
    }
  }

  lemma DifferentUnits(t: nat, exp: nat, t': nat, exp': nat)
    requires exp <= 4 && exp' <= 4 && exp != exp'
    ensures UnitText(t, exp) != UnitText(t', exp')
  {
    var a, b := UnitText(t, exp), UnitText(t', exp');
    assert a[|a| - 3] == "KMGTP"[exp] && b[|b| - 3] == "KMGTP"[exp'];
  }

  lemma HumanInUnit(n: nat, exp: nat)
    requires n < EXACT && exp <= 4 && Scale(exp + 1) <= n && (exp < 4 ==> n < Scale(exp + 2))
    ensures n >= KIB && Human(n) == UnitText(Tenths(n, Scale(exp + 1)), exp)
  {
    ScaleValues();
    assert UnitIndex(n) == exp;
  }

  /** The bytes read back, in terms of the printed tenths. */
  lemma Reread(n: nat, exp: nat)
    requires exp <= 3 && Scale(exp + 1) <= n < Scale(exp + 2)
    ensures ParseByteSize(Human(n)) == Size(Back(Tenths(n, Scale(exp + 1)), Scale(exp + 1)))
  {
    HumanInUnit(n, exp);
    ReadUnit(Tenths(n, Scale(exp + 1)), exp);
  }

  lemma BackPrintsTheSame(n: nat, exp: nat)
    requires exp <= 3 && Scale(exp + 1) <= n < Scale(exp + 2)
    ensures Human(Back(Tenths(n, Scale(exp + 1)), Scale(exp + 1))) == Human(n) <==> 20 * n < 20479 * Scale(exp + 1)
  {
    var div := Scale(exp + 1);
    var t := Tenths(n, div);
    var back := Back(t, div);
    TenthsFacts(n, exp);
    HumanInUnit(n, exp);
    if t < 10240 {
      HumanInUnit(back, exp);
    } else {
      ScaleValues();
      HumanInUnit(back, exp + 1);
      DifferentUnits(t, exp, Tenths(back, Scale(exp + 2)), exp + 1);
    }
  }

  /** Printing what was read gives the same text, unless the first text had rounded up to 1024.0. */
  lemma PrintIsStable(n: int)
    requires 0 <= n < PIB
    ensures var read := ParseByteSize(Human(n));
      read.Size? && (Human(read.bytes) == Human(n) <==> !RoundsUp(n))
  {
    if n < KIB {
      ReadPlain(n);
    } else {
      ScaleValues();
      Reread(n, UnitIndex(n));
      BackPrintsTheSame(n, UnitIndex(n));
    }
  }

  lemma WitnessTexts()
    ensures UnitText(10240, 0) == "1024.0 KiB" && UnitText(10, 1) == "1.0 MiB"
  {
    assert Digits(1) == "1" && Digits(0) == "0";
    assert Digits(10) == Digits(1) + "0" == "10";
    assert Digits(102) == Digits(10) + "2" == "102";
    assert Digits(1024) == Digits(102) + "4" == "1024";
  }

  /** The bound is met: one byte below 1 MiB prints as 1024.0 KiB and is read as 1 MiB. */
  lemma RoundsUpWitness()
    ensures RoundsUp(1_048_575) && Human(1_048_575) == "1024.0 KiB"
    ensures ParseByteSize("1024.0 KiB") == Size(MIB) && Human(MIB) == "1.0 MiB"
  {
    hide Human, UnitText, ParseByteSize, Digits;
    ScaleValues();
    WitnessTexts();
    HumanInUnit(1_048_575, 0);
    HumanInUnit(MIB, 1);
    ReadUnit(10240, 0);
  }

  /** 2^48 * 65 + 1 is nearer to 16.3 PiB, but its float64 is a tie and prints as 16.2. */
  lemma FloatTieWitness()
    ensures var n := 0x41_0000_0000_0001;
      Human(n) == "16.2 PiB" && Tenths(n, PIB) == 163
  {
    var n := 0x41_0000_0000_0001;
    ScaleValues();
    assert Ulp(n / 2 / 2) == 1;
    assert Ulp(n) == 4;
    assert Float64(n) == 0x41_0000_0000_0000;
    assert Tenths(Float64(n), PIB) == 162;
    assert Digits(1) == "1" && Digits(2) == "2" && Digits(16) == Digits(1) + "6";
  }
}
