/**
 * Decimal text as the converter reads and writes it: the language of the
 * input field's filter (`^-?\d*\.?\d*$`), the number such a text denotes when
 * JavaScript's parseFloat reads it, and the shortest rendering of a count of
 * hundredths, which is what `parseFloat(x.toFixed(2)).toString()` prints.
 */
module Decimal {

  predicate IsDigit(c: char) { '0' <= c <= '9' }

  predicate AllDigits(s: string) { forall i | 0 <= i < |s| :: IsDigit(s[i]) }

  predicate HasDigit(s: string) { exists i | 0 <= i < |s| :: IsDigit(s[i]) }

  function DigitValue(c: char): (d: nat)
    requires IsDigit(c)
    ensures d < 10
  {
    c as int - '0' as int
  }

  function DigitChar(d: nat): (c: char)
    requires d < 10
    ensures IsDigit(c) && DigitValue(c) == d
  {
    ('0' as int + d) as char
  }

  /** The number a string of decimal digits denotes (most significant first). */
  function DigitsValue(s: string): (n: nat)
    requires AllDigits(s)
  {
    if s == [] then 0 else 10 * DigitsValue(s[..|s| - 1]) + DigitValue(s[|s| - 1])
  }

  /** The value of the digits after a decimal point: "46" is 0.46. */
  function FractionValue(s: string): (r: real)
    requires AllDigits(s)
    ensures 0.0 <= r < 1.0
  {
    if s == [] then 0.0 else (DigitValue(s[0]) as real + FractionValue(s[1..])) / 10.0
  }

  /** The canonical digit string of n: never empty, no leading zero except for 0 itself. */
  function NatToDigits(n: nat): (s: string)
    ensures |s| >= 1 && AllDigits(s)
    ensures s[0] == '0' ==> n == 0
  {
    if n < 10 then [DigitChar(n)] else NatToDigits(n / 10) + [DigitChar(n % 10)]
  }

  /** Reading back the digits of n gives n. */
  lemma {:induction false} DigitsOfNat(n: nat)
    ensures DigitsValue(NatToDigits(n)) == n
  {
    if n >= 10 {
      var s := NatToDigits(n);
      assert s[..|s| - 1] == NatToDigits(n / 10);
      DigitsOfNat(n / 10);
    }
  }

  // ---------------------------------------------------------------------------
  // The input filter `^-?\d*\.?\d*$`

  predicate Negative(s: string) { |s| > 0 && s[0] == '-' }

  /** The text after an optional leading minus sign. */
  function Unsigned(s: string): (t: string)
    ensures s == (if Negative(s) then "-" else "") + t
  {
    if Negative(s) then s[1..] else s
  }

  /** `\d*\.?\d*`: digits, then optionally a point followed by digits. */
  predicate DecimalBody(t: string)
  {
    if t == [] then true
    else if IsDigit(t[0]) then DecimalBody(t[1..])
    else t[0] == '.' && AllDigits(t[1..])
  }

  /** Whether the whole of s matches `-?\d*\.?\d*`. */
  predicate Accepts(s: string)
  {
    DecimalBody(Unsigned(s))
  }

  /** Digits and points only, with at most one point. */
  ghost predicate BodyShaped(t: string)
  {
    (forall i | 0 <= i < |t| :: IsDigit(t[i]) || t[i] == '.') &&
    (forall i, j | 0 <= i < j < |t| && t[i] == '.' :: t[j] != '.')
  }

  /** Digits, at most one point, and a minus sign at most at the very front. */
  ghost predicate WellShaped(s: string)
  {
    (forall i | 0 <= i < |s| :: IsDigit(s[i]) || s[i] == '.' || (i == 0 && s[i] == '-')) &&
    (forall i, j | 0 <= i < j < |s| && s[i] == '.' :: s[j] != '.')
  }

  lemma {:induction false} DecimalBodyShape(t: string)
    ensures DecimalBody(t) <==> BodyShaped(t)
  {
    if t != [] {
      var rest := t[1..];
      assert forall i | 1 <= i < |t| :: t[i] == rest[i - 1];
      if IsDigit(t[0]) {
        DecimalBodyShape(rest);
        if BodyShaped(rest) {
          forall i, j | 0 <= i < j < |t| && t[i] == '.' ensures t[j] != '.' {
            assert i >= 1 && t[i] == rest[i - 1] && t[j] == rest[j - 1];
          }
        }
        if BodyShaped(t) {
          forall i, j | 0 <= i < j < |rest| && rest[i] == '.' ensures rest[j] != '.' {
            assert t[i + 1] == rest[i] && t[j + 1] == rest[j];
          }
        }
      } else if t[0] == '.' {
        if BodyShaped(t) {
          forall i | 0 <= i < |rest| ensures IsDigit(rest[i]) {
            assert t[i + 1] == rest[i];
          }
        }
      } else {
        assert !BodyShaped(t) by { assert !(IsDigit(t[0]) || t[0] == '.'); }
      }
    }
  }

  /** The filter accepts exactly the texts made of digits, at most one point and a leading minus. */
  lemma AcceptsIffWellShaped(s: string)
    ensures Accepts(s) <==> WellShaped(s)
  {
    var t := Unsigned(s);
    DecimalBodyShape(t);
    if Negative(s) {
      assert forall i | 1 <= i < |s| :: s[i] == t[i - 1];
      if BodyShaped(t) {
        forall i, j | 0 <= i < j < |s| && s[i] == '.' ensures s[j] != '.' {
          assert i >= 1 && s[i] == t[i - 1] && s[j] == t[j - 1];
        }
      }
      if WellShaped(s) {
        forall i | 0 <= i < |t| ensures IsDigit(t[i]) || t[i] == '.' {
          assert s[i + 1] == t[i];
        }
        forall i, j | 0 <= i < j < |t| && t[i] == '.' ensures t[j] != '.' {
          assert s[i + 1] == t[i] && s[j + 1] == t[j];
        }
      }
    } else {
      assert t == s;
      if WellShaped(s) && |s| > 0 {
        assert s[0] != '-';
      }
    }
  }

  /** The digits before the point of a body. */
  function IntDigits(t: string): (d: string)
    requires DecimalBody(t)
    ensures AllDigits(d)
  {
    if t == [] || !IsDigit(t[0]) then [] else [t[0]] + IntDigits(t[1..])
  }

  /** The digits after the point of a body (none when there is no point). */
  function FracDigits(t: string): (d: string)
    requires DecimalBody(t)
    ensures AllDigits(d)
  {
    if t == [] then [] else if IsDigit(t[0]) then FracDigits(t[1..]) else t[1..]
  }

  /** The number an accepted text denotes when parseFloat reads it. */
  function TextValue(s: string): (v: real)
    requires Accepts(s)
    ensures Negative(s) ==> v <= 0.0
    ensures !Negative(s) ==> v >= 0.0
  {
    var t := Unsigned(s);
    var magnitude := DigitsValue(IntDigits(t)) as real + FractionValue(FracDigits(t));
    if Negative(s) then -magnitude else magnitude
  }

  /** Digits followed by an empty or point-led body split back into those digits and that body. */
  lemma {:induction false} SplitAfterDigits(d: string, f: string)
    requires AllDigits(d) && DecimalBody(f) && (f == [] || f[0] == '.')
    ensures DecimalBody(d + f)
    ensures IntDigits(d + f) == d && FracDigits(d + f) == FracDigits(f)
  {
    if d != [] {
      assert (d + f)[1..] == d[1..] + f;
      SplitAfterDigits(d[1..], f);
      assert d == [d[0]] + d[1..];
    }
  }

  // ---------------------------------------------------------------------------
  // Rendering a count of hundredths

  /** The fraction part for f hundredths: nothing, one digit or two, never a trailing zero. */
  function Fraction(f: nat): string
    requires f < 100
  {
    if f == 0 then ""
    else if f % 10 == 0 then ['.', DigitChar(f / 10)]
    else ['.', DigitChar(f / 10), DigitChar(f % 10)]
  }

  /** The digits of a hundredths count without its sign: whole part, then the fraction. */
  function Magnitude(a: nat): (m: string)
  {
    NatToDigits(a / 100) + Fraction(a % 100)
  }

  function Abs(h: int): (a: nat) { if h < 0 then -h else h }

  /** h hundredths written as JavaScript prints the number h / 100. */
  function Render(h: int): (r: string)
  {
    if h < 0 then "-" + Magnitude(Abs(h)) else Magnitude(Abs(h))
  }

  /** The fraction part of f hundredths is empty, '.d' or '.dd' and reads back as f / 100. */
  lemma FractionBody(f: nat)
    requires f < 100
    ensures DecimalBody(Fraction(f)) && (Fraction(f) == [] || Fraction(f)[0] == '.')
    ensures FractionValue(FracDigits(Fraction(f))) == f as real / 100.0
  {
    var fr := Fraction(f);
    if f == 0 {
    } else if f % 10 == 0 {
      var ds := [DigitChar(f / 10)];
      assert FracDigits(fr) == ds;
      assert ds[1..] == [];
      assert FractionValue(ds) == (f / 10) as real / 10.0;
    } else {
      var ds := [DigitChar(f / 10), DigitChar(f % 10)];
      assert FracDigits(fr) == ds;
      assert ds[1..] == [DigitChar(f % 10)];
      assert ds[1..][1..] == [];
      assert FractionValue(ds[1..]) == (f % 10) as real / 10.0;
      assert FractionValue(ds) == ((f / 10) as real + (f % 10) as real / 10.0) / 10.0;
    }
  }

  /** A printed magnitude is its whole digits followed by its fraction part. */
  lemma MagnitudeBody(a: nat)
    ensures DecimalBody(Magnitude(a)) && IsDigit(Magnitude(a)[0])
    ensures IntDigits(Magnitude(a)) == NatToDigits(a / 100)
    ensures FracDigits(Magnitude(a)) == FracDigits(Fraction(a % 100))
  {
    FractionBody(a % 100);
    SplitAfterDigits(NatToDigits(a / 100), Fraction(a % 100));
  }

  /** A printed magnitude ends in neither '.' nor a fractional '0' and keeps at most two digits after the point. */
  lemma MagnitudeEnd(a: nat)
    ensures var m := Magnitude(a);
      m[|m| - 1] != '.' &&
      ('.' in m ==> m[|m| - 1] != '0') &&
      (forall i | 0 <= i < |m| && m[i] == '.' :: |m| - i <= 3) &&
      (a == 0 ==> m == "0")
  {
  }

  /** The shape facts of a rendering, stated once for the text of a magnitude. */
  ghost predicate RenderedShape(r: string)
  {
    Accepts(r) && HasDigit(r) && r[|r| - 1] != '.' &&
    ('.' in r ==> r[|r| - 1] != '0') &&
    (forall i | 0 <= i < |r| && r[i] == '.' :: |r| - i <= 3)
  }

  /** A printed magnitude has the shape of a rendering and no sign. */
  lemma MagnitudeShape(a: nat)
    ensures RenderedShape(Magnitude(a)) && Magnitude(a)[0] != '-'
  {
    var m := Magnitude(a);
    assert Accepts(m) && IsDigit(m[0]) by {
      MagnitudeBody(a);
    }
    assert HasDigit(m);
    MagnitudeEnd(a);
  }

  /** A minus sign in front keeps a digit in the text. */
  lemma SignedDigit(m: string)
    requires HasDigit(m)
    ensures HasDigit("-" + m)
  {
    var k :| 0 <= k < |m| && IsDigit(m[k]);
    assert ("-" + m)[k + 1] == m[k];
  }

  /** The point facts of a text carry over to the text with a sign in front. */
  lemma SignedPoint(m: string)
    requires |m| > 0 && m[|m| - 1] != '.' && ('.' in m ==> m[|m| - 1] != '0')
    requires forall i | 0 <= i < |m| && m[i] == '.' :: |m| - i <= 3
    ensures var r := "-" + m;
      r[|r| - 1] != '.' && ('.' in r ==> r[|r| - 1] != '0') &&
      (forall i | 0 <= i < |r| && r[i] == '.' :: |r| - i <= 3)
  {
    var r := "-" + m;
    assert r[0] == '-' && r[|r| - 1] == m[|m| - 1];
    forall i | 0 <= i < |r| && r[i] == '.' ensures |r| - i <= 3 && '.' in m {
      assert i >= 1 && r[i] == m[i - 1];
    }
  }

  /** A minus sign in front of a rendered magnitude keeps its shape. */
  lemma SignedShape(m: string)
    requires RenderedShape(m) && m[0] != '-'
    ensures RenderedShape("-" + m)
  {
    assert Unsigned("-" + m) == m;
    SignedDigit(m);
    SignedPoint(m);
  }

  /** What `parseFloat(x.toFixed(2)).toString()` promises about its text. */
  lemma RenderShape(h: int)
    ensures RenderedShape(Render(h))
    ensures Render(h)[0] == '-' <==> h < 0
    ensures h == 0 ==> Render(h) == "0"
  {
    var m := Magnitude(Abs(h));
    MagnitudeShape(Abs(h));
    if h < 0 {
      SignedShape(m);
      assert Render(h) == "-" + m;
    } else {
      assert Render(h) == m;
      if h == 0 {
        assert m == "0" by {
          MagnitudeEnd(0);
        }
      }
    }
  }

  /** The digits of a magnitude read back as a / 100. */
  lemma MagnitudeValue(a: nat)
    ensures Accepts(Magnitude(a)) && TextValue(Magnitude(a)) == a as real / 100.0
  {
    var m := Magnitude(a);
    MagnitudeBody(a);
    FractionBody(a % 100);
    DigitsOfNat(a / 100);
    assert Unsigned(m) == m;
    assert (a / 100) as real + (a % 100) as real / 100.0 == a as real / 100.0;
  }

  /** A minus sign in front of an unsigned accepted text negates its value. */
  lemma NegatedValue(m: string)
    requires Accepts(m) && m != [] && m[0] != '-'
    ensures Accepts("-" + m) && TextValue("-" + m) == -TextValue(m)
  {
    assert Unsigned("-" + m) == m && Unsigned(m) == m;
  }

  /** Reading the rendering back gives exactly h / 100. */
  lemma RenderValue(h: int)
    ensures Accepts(Render(h)) && TextValue(Render(h)) == h as real / 100.0
  {
    var m := Magnitude(Abs(h));
    MagnitudeValue(Abs(h));
    if h < 0 {
      MagnitudeShape(Abs(h));
      NegatedValue(m);
      assert Render(h) == "-" + m;
    } else {
      assert Render(h) == m;
    }
  }
}
