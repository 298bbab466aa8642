/**
 * The conversion engine: the unit catalog, the temperature formula table,
 * `convert` and `formatResult`. Numbers are exact reals; the EMPTY sentinel
 * (the empty string the engine returns when it has no result) is `Empty`.
 */
module Conversion {
  import opened Wrappers
  import opened Decimal

  /** A value as the engine passes it around: the '' sentinel or a number. */
  datatype Numeric = Empty | Num(x: real)

  /**
   * One category of the catalog: its unit keys in `Object.keys` order
   * (integer-like keys first, ascending, then the rest in declaration order)
   * and each unit's factor to the category's base unit. The factors of the
   * temperature category are never read.
   */
  datatype Category = Category(unitKeys: seq<string>, toBase: map<string, real>)

  /** The catalog: category key to category. */
  type Catalog = map<string, Category>

  predicate HasUnit(c: Category, u: string) { u in c.toBase }

  /** At least one unit, and the ordered keys are exactly the units. */
  predicate ValidCategory(c: Category)
  {
    |c.unitKeys| >= 1 &&
    (forall u | u in c.unitKeys :: u in c.toBase) &&
    (forall u | u in c.toBase :: u in c.unitKeys)
  }

  const Temperature: string := "temperature"

  // ---------------------------------------------------------------------------
  // Temperature

  /** The six entries of the formula table. */
  datatype Formula = CToF | CToK | FToC | FToK | KToC | KToF

  /** The scales a formula converts from and to. */
  function Source(f: Formula): Scale
  {
    match f
    case CToF => Celsius
    case CToK => Celsius
    case FToC => Fahrenheit
    case FToK => Fahrenheit
    case KToC => Kelvin
    case KToF => Kelvin
  }

  function Target(f: Formula): Scale
  {
    match f
    case CToF => Fahrenheit
    case CToK => Kelvin
    case FToC => Celsius
    case FToK => Kelvin
    case KToC => Celsius
    case KToF => Fahrenheit
  }

  /** Each formula of the table agrees with going through absolute zero. */
  function Apply(f: Formula, v: real): (r: real)
    ensures Source(f) != Target(f)
    ensures r == FromKelvin(Target(f), ToKelvin(Source(f), v))
  {
    match f
    case CToF => v * 9.0 / 5.0 + 32.0
    case CToK => v + 273.15
    case FToC => (v - 32.0) * 5.0 / 9.0
    case FToK => (v - 32.0) * 5.0 / 9.0 + 273.15
    case KToC => v - 273.15
    case KToF => (v - 273.15) * 9.0 / 5.0 + 32.0
  }

  const TemperatureConversions: map<string, Formula> :=
    map["cToF" := CToF, "cToK" := CToK, "fToC" := FToC,
        "fToK" := FToK, "kToC" := KToC, "kToF" := KToF]

  /** ASCII case mapping, as toLowerCase / toUpperCase act on ASCII letters. */
  function LowerChar(c: char): char { if 'A' <= c <= 'Z' then (c as int + 32) as char else c }
  function UpperChar(c: char): char { if 'a' <= c <= 'z' then (c as int - 32) as char else c }

  function Lower(s: string): (r: string)
    ensures |r| == |s| && forall i | 0 <= i < |s| :: r[i] == LowerChar(s[i])
  {
    if s == [] then [] else [LowerChar(s[0])] + Lower(s[1..])
  }

  function Upper(s: string): (r: string)
    ensures |r| == |s| && forall i | 0 <= i < |s| :: r[i] == UpperChar(s[i])
  {
    if s == [] then [] else [UpperChar(s[0])] + Upper(s[1..])
  }

  /** The table key built from the two unit strings, e.g. `c`, `F` give `cToF`. */
  function TemperatureKey(fromUnit: string, toUnit: string): (k: string)
    ensures |k| == |fromUnit| + 2 + |toUnit|
    ensures |fromUnit| == 1 && |toUnit| == 1 ==> k == [LowerChar(fromUnit[0]), 'T', 'o', UpperChar(toUnit[0])]
  {
    Lower(fromUnit) + "To" + Upper(toUnit)
  }

  function ConvertTemperature(value: real, fromUnit: string, toUnit: string): (r: real)
    ensures fromUnit == toUnit ==> r == value
    ensures TemperatureKey(fromUnit, toUnit) !in TemperatureConversions ==> r == value
  {
    if fromUnit == toUnit then value
    else
      var key := TemperatureKey(fromUnit, toUnit);
      if key in TemperatureConversions then Apply(TemperatureConversions[key], value)
      else value
  }

  /** The three scales, read case-insensitively from a one-letter unit. */
  datatype Scale = Celsius | Fahrenheit | Kelvin

  function ScaleOf(c: char): (s: Option<Scale>)
  {
    if c == 'c' || c == 'C' then Some(Celsius)
    else if c == 'f' || c == 'F' then Some(Fahrenheit)
    else if c == 'k' || c == 'K' then Some(Kelvin)
    else None
  }

  /** A reference definition, independent of the table: every scale measured from absolute zero. */
  function ToKelvin(s: Scale, v: real): (k: real)
  {
    match s
    case Celsius => v + 273.15
    case Fahrenheit => (v - 32.0) * 5.0 / 9.0 + 273.15
    case Kelvin => v
  }

  function FromKelvin(s: Scale, k: real): (v: real)
  {
    match s
    case Celsius => k - 273.15
    case Fahrenheit => (k - 273.15) * 9.0 / 5.0 + 32.0
    case Kelvin => k
  }

  /** Both units are one of c, f, k in either case, and they name different scales. */
  predicate Recognised(fromUnit: string, toUnit: string)
  {
    |fromUnit| == 1 && |toUnit| == 1 &&
    ScaleOf(fromUnit[0]).Some? && ScaleOf(toUnit[0]).Some? &&
    ScaleOf(fromUnit[0]) != ScaleOf(toUnit[0])
  }

  /** A key found in the table splits back into a one-letter from-unit and to-unit. */
  lemma TableKeyParts(fromUnit: string, toUnit: string)
    requires TemperatureKey(fromUnit, toUnit) in TemperatureConversions
    ensures |fromUnit| == 1 && |toUnit| == 1
  {
    var key := TemperatureKey(fromUnit, toUnit);
    var l := Lower(fromUnit);
    assert key[|l|] == 'T';
    assert forall i | 0 <= i < |key| && key[i] == 'T' :: i == 1;
  }

  /** The table holds a formula for exactly the recognised unit pairs. */
  lemma KeyRecognised(fromUnit: string, toUnit: string)
    ensures TemperatureKey(fromUnit, toUnit) in TemperatureConversions <==> Recognised(fromUnit, toUnit)
  {
    var key := TemperatureKey(fromUnit, toUnit);
    if key in TemperatureConversions {
      TableKeyParts(fromUnit, toUnit);
      assert key == [LowerChar(fromUnit[0]), 'T', 'o', UpperChar(toUnit[0])];
    }
    if Recognised(fromUnit, toUnit) {
      assert key == [LowerChar(fromUnit[0]), 'T', 'o', UpperChar(toUnit[0])];
    }
  }

  /**
   * The whole temperature behaviour against the reference: a recognised pair
   * converts through Kelvin, every other pair passes the value through.
   */
  lemma TemperatureMatchesReference(value: real, fromUnit: string, toUnit: string)
    ensures ConvertTemperature(value, fromUnit, toUnit) ==
      if Recognised(fromUnit, toUnit)
      then FromKelvin(ScaleOf(toUnit[0]).value, ToKelvin(ScaleOf(fromUnit[0]).value, value))
      else value
  {
    KeyRecognised(fromUnit, toUnit);
    if Recognised(fromUnit, toUnit) {
      var key := TemperatureKey(fromUnit, toUnit);
      assert key == [LowerChar(fromUnit[0]), 'T', 'o', UpperChar(toUnit[0])];
    }
  }

  lemma KelvinRoundTrip(s: Scale, k: real)
    ensures ToKelvin(s, FromKelvin(s, k)) == k
  {
  }

  /** Converting a to b and then b back to a gives the value back, for every recognised pair. */
  lemma TemperatureRoundTrip(value: real, a: string, b: string)
    ensures Recognised(a, b) ==> Recognised(b, a)
    ensures ConvertTemperature(ConvertTemperature(value, a, b), b, a) == value
  {
    TemperatureMatchesReference(value, a, b);
    var w := ConvertTemperature(value, a, b);
    TemperatureMatchesReference(w, b, a);
    if Recognised(a, b) {
      KelvinRoundTrip(ScaleOf(b[0]).value, ToKelvin(ScaleOf(a[0]).value, value));
    }
  }

  /** a to b then b to c equals a to c, for one-letter units of the three scales. */
  lemma TemperatureComposition(value: real, a: string, b: string, c: string)
    requires Recognised(a, b) && Recognised(b, c)
    ensures ConvertTemperature(ConvertTemperature(value, a, b), b, c) == ConvertTemperature(value, a, c)
  {
    TemperatureMatchesReference(value, a, b);
    var w := ConvertTemperature(value, a, b);
    TemperatureMatchesReference(w, b, c);
    TemperatureMatchesReference(value, a, c);
    KelvinRoundTrip(ScaleOf(b[0]).value, ToKelvin(ScaleOf(a[0]).value, value));
    if !Recognised(a, c) {
      var sa, sc := ScaleOf(a[0]).value, ScaleOf(c[0]).value;
      assert sa == sc;
      assert FromKelvin(sa, ToKelvin(sa, value)) == value;
    }
  }

  /** The formula pairs of the table undo each other. */
  lemma FormulaInverses(x: real)
    ensures Apply(FToC, Apply(CToF, x)) == x && Apply(CToF, Apply(FToC, x)) == x
    ensures Apply(KToC, Apply(CToK, x)) == x && Apply(CToK, Apply(KToC, x)) == x
    ensures Apply(KToF, Apply(FToK, x)) == x && Apply(FToK, Apply(KToF, x)) == x
  {
  }

  // ---------------------------------------------------------------------------
  // convert

  /** The numeric reading of an accepted input text: '' and digit-less texts are the sentinel. */
  function ParseInput(s: string): (r: Numeric)
    requires Accepts(s)
    ensures r.Empty? <==> !HasDigit(s)
  {
    if s == "" || !HasDigit(s) then Empty else Num(TextValue(s))
  }

  /** The guards of the linear branch all pass. */
  predicate LinearDefined(catalog: Catalog, category: string, fromUnit: string, toUnit: string)
  {
    category in catalog &&
    HasUnit(catalog[category], fromUnit) && HasUnit(catalog[category], toUnit) &&
    catalog[category].toBase[toUnit] != 0.0
  }

  function Convert(value: Numeric, fromUnit: string, toUnit: string, category: string, catalog: Catalog): (r: Numeric)
    ensures value.Empty? ==> r.Empty?
    ensures category == Temperature && value.Num? ==> r.Num?
    ensures category != Temperature ==>
      (r.Num? <==> value.Num? && LinearDefined(catalog, category, fromUnit, toUnit))
    ensures category != Temperature && r.Num? ==>
      r.x * catalog[category].toBase[toUnit] == value.x * catalog[category].toBase[fromUnit]
  {
    if value.Empty? then Empty
    else if category == Temperature then Num(ConvertTemperature(value.x, fromUnit, toUnit))
    else if category !in catalog then Empty
    else
      var units := catalog[category].toBase;
      if fromUnit !in units || toUnit !in units then Empty
      else if units[toUnit] == 0.0 then Empty
      else Num(value.x * units[fromUnit] / units[toUnit])
  }

  /** The temperature branch never looks at the catalog. */
  lemma TemperatureIgnoresCatalog(value: Numeric, fromUnit: string, toUnit: string, c1: Catalog, c2: Catalog)
    ensures Convert(value, fromUnit, toUnit, Temperature, c1) == Convert(value, fromUnit, toUnit, Temperature, c2)
  {
  }

  /** Converting a unit to itself gives the value back, in every category. */
  lemma ConvertIdentity(v: real, u: string, category: string, catalog: Catalog)
    requires category == Temperature || LinearDefined(catalog, category, u, u)
    ensures Convert(Num(v), u, u, category, catalog) == Num(v)
  {
  }

  /** A linear conversion there and back gives the value back. */
  lemma LinearRoundTrip(v: real, a: string, b: string, category: string, catalog: Catalog)
    requires category != Temperature
    requires LinearDefined(catalog, category, a, b) && LinearDefined(catalog, category, b, a)
    ensures Convert(Convert(Num(v), a, b, category, catalog), b, a, category, catalog) == Num(v)
  {
  }

  /** Linear conversions compose through the base unit: a to b then b to c equals a to c. */
  lemma LinearComposition(v: real, a: string, b: string, c: string, category: string, catalog: Catalog)
    requires category != Temperature
    requires LinearDefined(catalog, category, a, b) && LinearDefined(catalog, category, b, c)
    requires LinearDefined(catalog, category, a, c)
    ensures Convert(Convert(Num(v), a, b, category, catalog), b, c, category, catalog)
            == Convert(Num(v), a, c, category, catalog)
  {
  }

  /** A linear conversion maps 0 to 0 and commutes with negation. */
  lemma LinearOddness(v: real, a: string, b: string, category: string, catalog: Catalog)
    requires category != Temperature && LinearDefined(catalog, category, a, b)
    ensures Convert(Num(0.0), a, b, category, catalog) == Num(0.0)
    ensures Convert(Num(-v), a, b, category, catalog).x == -Convert(Num(v), a, b, category, catalog).x
  {
  }

  /** The temperature values the test suite checks exactly, and 0 C in Kelvin. */
  lemma TemperatureExamples(catalog: Catalog)
    ensures Convert(Num(0.0), "c", "f", Temperature, catalog) == Num(32.0)
    ensures Convert(Num(100.0), "c", "f", Temperature, catalog) == Num(212.0)
    ensures Convert(Num(-40.0), "c", "f", Temperature, catalog) == Num(-40.0)
    ensures Convert(Num(0.0), "c", "k", Temperature, catalog) == Num(273.15)
    ensures Convert(Num(25.0), "c", "c", Temperature, catalog) == Num(25.0)
  {
    assert TemperatureKey("c", "f") == "cToF";
    assert TemperatureKey("c", "k") == "cToK";
  }

  /** A case variant of the same scale, or an unknown letter, passes the value through unconverted. */
  lemma TemperaturePassThrough(v: real)
    ensures ConvertTemperature(v, "c", "C") == v && ConvertTemperature(v, "C", "c") == v
    ensures ConvertTemperature(v, "c", "x") == v && ConvertTemperature(v, "celsius", "f") == v
  {
    TemperatureMatchesReference(v, "c", "C");
    TemperatureMatchesReference(v, "C", "c");
    TemperatureMatchesReference(v, "c", "x");
    TemperatureMatchesReference(v, "celsius", "f");
  }

  // ---------------------------------------------------------------------------
  // formatResult

  /** `toFixed(2)`: the nearest count of hundredths, halves rounded away from zero. */
  function Hundredths(x: real): (h: int)
    ensures -0.005 <= h as real / 100.0 - x <= 0.005
    ensures x >= 0.0 ==> h as real / 100.0 - x > -0.005
    ensures x <= 0.0 ==> h as real / 100.0 - x < 0.005
    ensures (x >= 0.0 ==> h >= 0) && (x <= 0.0 ==> h <= 0)
  {
    if x >= 0.0 then (x * 100.0 + 0.5).Floor else -((-x * 100.0 + 0.5).Floor)
  }

  /** The rounding is to the nearest hundredth and symmetric in the sign. */
  lemma HundredthsNearest(x: real)
    ensures -0.005 <= Hundredths(x) as real / 100.0 - x <= 0.005
    ensures Hundredths(-x) == -Hundredths(x)
    ensures (x >= 0.0 ==> Hundredths(x) >= 0) && (x <= 0.0 ==> Hundredths(x) <= 0)
  {
  }

  /** The rendering of h hundredths reads back as h / 100, and has the shape of a formatted result. */
  lemma RenderParses(h: int)
    ensures var r := Render(h);
      r != "" && Accepts(r) && ParseInput(r) == Num(h as real / 100.0) &&
      r[|r| - 1] != '.' && ('.' in r ==> r[|r| - 1] != '0') &&
      (forall i | 0 <= i < |r| && r[i] == '.' :: |r| - i <= 3) &&
      (h == 0 ==> r == "0")
  {
    var r := Render(h);
    assert RenderedShape(r) && (h == 0 ==> r == "0") by {
      RenderShape(h);
    }
    assert ParseInput(r) == Num(h as real / 100.0) by {
      RenderShape(h);
      RenderValue(h);
    }
  }

  /** A rendered hundredths count is never empty and passes the input filter. */
  lemma RenderAccepted(h: int)
    ensures Accepts(Render(h)) && Render(h) != ""
  {
    RenderShape(h);
  }

  /** `formatResult`: the sentinel gives "", a number gives an accepted, non-empty text. */
  function FormatResult(value: Numeric): (r: string)
    ensures value.Empty? <==> r == ""
    ensures Accepts(r)
  {
    match value
    case Empty => ""
    case Num(x) =>
      var h := Hundredths(x);
      RenderAccepted(h);
      Render(h)
  }

  /**
   * A formatted number reads back as its nearest hundredth, has at most two
   * fractional digits, no trailing point or fractional zero, and a zero
   * hundredths count prints as "0".
   */
  lemma FormatResultReadsBack(x: real)
    ensures var r := FormatResult(Num(x));
      ParseInput(r) == Num(Hundredths(x) as real / 100.0) &&
      r[|r| - 1] != '.' && ('.' in r ==> r[|r| - 1] != '0') &&
      (forall i | 0 <= i < |r| && r[i] == '.' :: |r| - i <= 3) &&
      (Hundredths(x) == 0 ==> r == "0")
  {
    RenderParses(Hundredths(x));
  }

  /** The formatted text of x assembled from the whole part and the fraction part of its hundredths. */
  lemma FormatsAs(x: real, h: int, whole: string, frac: string)
    requires Hundredths(x) == h
    requires NatToDigits(Abs(h) / 100) == whole && Fraction(Abs(h) % 100) == frac
    ensures FormatResult(Num(x)) == (if h < 0 then "-" else "") + whole + frac
  {
  }

  /** The digit strings the examples below need. */
  lemma SmallNumerals()
    ensures NatToDigits(0) == "0" && NatToDigits(1) == "1" && NatToDigits(5) == "5"
    ensures NatToDigits(12) == "12" && NatToDigits(123) == "123" && NatToDigits(100) == "100"
  {
    assert NatToDigits(1) == [DigitChar(1)];
    assert NatToDigits(12) == NatToDigits(1) + [DigitChar(2)];
    assert NatToDigits(10) == NatToDigits(1) + [DigitChar(0)];
    assert NatToDigits(100) == NatToDigits(10) + [DigitChar(0)];
    assert NatToDigits(123) == NatToDigits(12) + [DigitChar(3)];
  }

  /** Rounding to two places, as the test suite expects: 1.234 is "1.23". */
  lemma FormatRoundsDownExample()
    ensures FormatResult(Num(1.234)) == "1.23"
  {
    SmallNumerals();
    assert Fraction(23) == ".23";
    FormatsAs(1.234, 123, "1", ".23");
  }

  /** Rounding to two places, as the test suite expects: 123.456 is "123.46". */
  lemma FormatRoundsUpExample()
    ensures FormatResult(Num(123.456)) == "123.46"
  {
    SmallNumerals();
    assert Fraction(46) == ".46";
    FormatsAs(123.456, 12346, "123", ".46");
  }

  /** Stripping zeros, as the test suite expects: 1.10 is "1.1" and 100 is "100". */
  lemma FormatStripExamples()
    ensures FormatResult(Num(1.10)) == "1.1" && FormatResult(Num(100.0)) == "100"
  {
    SmallNumerals();
    assert Fraction(10) == ".1" && Fraction(0) == "";
    FormatsAs(1.10, 110, "1", ".1");
    FormatsAs(100.0, 10000, "100", "");
  }

  /** Zero, a value that rounds to zero, a negative value and the sentinel. */
  lemma FormatSignAndZeroExamples()
    ensures FormatResult(Num(0.0)) == "0" && FormatResult(Num(0.001)) == "0"
    ensures FormatResult(Num(-5.678)) == "-5.68" && FormatResult(Empty) == ""
  {
    SmallNumerals();
    assert Fraction(68) == ".68" && Fraction(0) == "";
    FormatsAs(0.0, 0, "0", "");
    FormatsAs(0.001, 0, "0", "");
    FormatsAs(-5.678, -568, "5", ".68");
  }
}
