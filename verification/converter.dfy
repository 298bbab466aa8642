/**
 * The converter component: its state cells (the chosen units, the input text,
 * the shown result) and the reference holding the key of the last conversion
 * submitted to the history. Each handler runs together with the effects it
 * triggers, as one method.
 */
module Converter {
  import opened Wrappers
  import opened Decimal
  import opened Conversion

  /** The record a commit hands to the history. */
  datatype Item = Item(category: string, fromUnit: string, toUnit: string, fromValue: string, toValue: string)

  /** The from-unit a category starts with: its first unit key. */
  function DefaultFrom(c: Category): (u: string)
    requires ValidCategory(c)
    ensures HasUnit(c, u) && u == c.unitKeys[0]
  {
    c.unitKeys[0]
  }

  /** The to-unit a category starts with: the second key, unless there is none or it is the (falsy) empty string. */
  function DefaultTo(c: Category): (u: string)
    requires ValidCategory(c)
    ensures HasUnit(c, u)
    ensures u == c.unitKeys[0] || (|c.unitKeys| >= 2 && u == c.unitKeys[1])
    ensures |c.unitKeys| == 1 ==> u == c.unitKeys[0]
    ensures |c.unitKeys| >= 2 && c.unitKeys[1] != "" ==> u == c.unitKeys[1]
  {
    if |c.unitKeys| >= 2 && c.unitKeys[1] != "" then c.unitKeys[1] else c.unitKeys[0]
  }

  /** A category whose first two keys differ, the second non-empty, starts with two different units. */
  lemma DefaultsDiffer(c: Category)
    requires ValidCategory(c) && |c.unitKeys| >= 2 && c.unitKeys[1] != "" && c.unitKeys[0] != c.unitKeys[1]
    ensures DefaultFrom(c) != DefaultTo(c)
  {
  }

  /** The unit actually used: the chosen one while the category has it, the fallback otherwise. */
  function Effective(c: Category, chosen: string, fallback: string): (u: string)
    requires HasUnit(c, fallback)
    ensures HasUnit(c, u)
    ensures HasUnit(c, chosen) ==> u == chosen
  {
    if HasUnit(c, chosen) then chosen else fallback
  }

  /** The text the result field shows for an input: empty exactly when there is no input or no conversion. */
  function ResultFor(catalog: Catalog, category: string, input: string, fromUnit: string, toUnit: string): (r: string)
    requires Accepts(input)
    ensures Accepts(r)
    ensures r == "" <==> input == "" || Convert(ParseInput(input), fromUnit, toUnit, category, catalog).Empty?
  {
    if input == "" then ""
    else FormatResult(Convert(ParseInput(input), fromUnit, toUnit, category, catalog))
  }

  /** The result text shown for an input, with the units the category falls back to. */
  ghost predicate ShowsConversion(catalog: Catalog, category: string, fromUnit: string, toUnit: string, input: string, result: string)
    requires category in catalog && ValidCategory(catalog[category]) && Accepts(input)
  {
    var c := catalog[category];
    result == ResultFor(catalog, category, input, Effective(c, fromUnit, DefaultFrom(c)), Effective(c, toUnit, DefaultTo(c)))
  }

  /** The key a commit remembers: the four parts joined by hyphens. */
  function CommitKey(input: string, fromUnit: string, toUnit: string, category: string): (k: string)
    ensures |k| == |input| + |fromUnit| + |toUnit| + |category| + 3
    ensures k[|input|] == '-'
  {
    input + "-" + fromUnit + "-" + toUnit + "-" + category
  }

  /** The first hyphen of `x + "-" + y` is the joining one when x has none. */
  lemma HyphenAt(x: string, y: string)
    requires '-' !in x
    ensures var k := x + "-" + y;
      |k| > |x| && k[|x|] == '-' && forall i | 0 <= i < |x| :: k[i] != '-'
  {
  }

  lemma HyphenSplit(x: string, y: string, x2: string, y2: string)
    requires '-' !in x && '-' !in x2 && x + "-" + y == x2 + "-" + y2
    ensures x == x2 && y == y2
  {
    var k := x + "-" + y;
    HyphenAt(x, y);
    HyphenAt(x2, y2);
    assert |x| == |x2|;
    assert x == k[..|x|] && x2 == k[..|x2|];
    assert y == k[|x| + 1..] && y2 == k[|x2| + 1..];
  }

  /** After its optional minus sign an accepted input holds no hyphen. */
  lemma UnsignedHasNoHyphen(i: string)
    requires Accepts(i)
    ensures '-' !in Unsigned(i)
  {
    var u := Unsigned(i);
    AcceptsIffWellShaped(i);
    forall j | 0 <= j < |u| ensures u[j] != '-' {
      assert Negative(i) ==> u[j] == i[j + 1];
      assert !Negative(i) ==> u[j] == i[j];
    }
  }

  /** A key starting with an accepted input splits into the sign and the unsigned rest. */
  lemma KeySign(i: string, r: string)
    requires Accepts(i) && i != ""
    ensures var k := i + "-" + r;
      k[0] == '-' <==> Negative(i)
    ensures Negative(i) ==> (i + "-" + r)[1..] == Unsigned(i) + "-" + r
    ensures !Negative(i) ==> i + "-" + r == Unsigned(i) + "-" + r
  {
  }

  /** An accepted, non-empty input is recovered from the front of a key. */
  lemma InputSplit(i1: string, r1: string, i2: string, r2: string)
    requires Accepts(i1) && Accepts(i2) && i1 != "" && i2 != ""
    requires i1 + "-" + r1 == i2 + "-" + r2
    ensures i1 == i2 && r1 == r2
  {
    KeySign(i1, r1);
    KeySign(i2, r2);
    UnsignedHasNoHyphen(i1);
    UnsignedHasNoHyphen(i2);
    var u1, u2 := Unsigned(i1), Unsigned(i2);
    assert u1 + "-" + r1 == u2 + "-" + r2;
    HyphenSplit(u1, r1, u2, r2);
  }

  /** The commit key regrouped so that each hyphen joins one part to the rest. */
  lemma CommitKeyNested(i: string, f: string, t: string, c: string)
    ensures CommitKey(i, f, t, c) == i + "-" + (f + "-" + (t + "-" + c))
  {
  }

  /**
   * While unit and category keys contain no hyphen, equal commit keys mean
   * the same input, units and category: the repeat check only suppresses
   * genuine repeats.
   */
  lemma CommitKeyInjective(i1: string, f1: string, t1: string, c1: string,
                           i2: string, f2: string, t2: string, c2: string)
    requires Accepts(i1) && Accepts(i2) && i1 != "" && i2 != ""
    requires '-' !in f1 && '-' !in t1 && '-' !in c1 && '-' !in f2 && '-' !in t2 && '-' !in c2
    requires CommitKey(i1, f1, t1, c1) == CommitKey(i2, f2, t2, c2)
    ensures i1 == i2 && f1 == f2 && t1 == t2 && c1 == c2
  {
    var r1 := f1 + "-" + (t1 + "-" + c1);
    var r2 := f2 + "-" + (t2 + "-" + c2);
    CommitKeyNested(i1, f1, t1, c1);
    CommitKeyNested(i2, f2, t2, c2);
    InputSplit(i1, r1, i2, r2);
    HyphenSplit(f1, t1 + "-" + c1, f2, t2 + "-" + c2);
    HyphenSplit(t1, c1, t2, c2);
  }

  class ConverterState {
    const catalog: Catalog
    var category: string
    var fromUnit: string
    var toUnit: string
    var inputValue: string
    var result: string
    var lastSaved: string

    predicate InCatalog()
      reads this`category
    {
      category in catalog && ValidCategory(catalog[category])
    }

    /** The from-unit the conversion uses: always a unit of the current category. */
    function ValidFromUnit(): (u: string)
      reads this`category, this`fromUnit
      requires InCatalog()
      ensures HasUnit(catalog[category], u)
      ensures u == (if HasUnit(catalog[category], fromUnit) then fromUnit else catalog[category].unitKeys[0])
    {
      Effective(catalog[category], fromUnit, DefaultFrom(catalog[category]))
    }

    /** The to-unit the conversion uses: always a unit of the current category. */
    function ValidToUnit(): (u: string)
      reads this`category, this`toUnit
      requires InCatalog()
      ensures HasUnit(catalog[category], u)
      ensures HasUnit(catalog[category], toUnit) ==> u == toUnit
      ensures !HasUnit(catalog[category], toUnit) ==> u == DefaultTo(catalog[category])
    {
      Effective(catalog[category], toUnit, DefaultTo(catalog[category]))
    }

    /** The category exists and both text fields hold text the input filter accepts. */
    ghost predicate WellFormed()
      reads this`category, this`inputValue, this`result
    {
      InCatalog() && Accepts(inputValue) && Accepts(result)
    }

    /** The result field is up to date: the conversion effect has run on the current state. */
    ghost predicate Synced()
      reads this`category, this`fromUnit, this`toUnit, this`inputValue, this`result
      requires InCatalog() && Accepts(inputValue)
    {
      ShowsConversion(catalog, category, fromUnit, toUnit, inputValue, result)
    }

    /** The state between renders: well formed, and the result effect has caught up. */
    ghost predicate Valid()
      reads this`category, this`fromUnit, this`toUnit, this`inputValue, this`result
    {
      WellFormed() && Synced()
    }

    function CurrentKey(): (k: string)
      reads this`category, this`fromUnit, this`toUnit, this`inputValue
      requires InCatalog()
    {
      CommitKey(inputValue, ValidFromUnit(), ValidToUnit(), category)
    }

    /** A record's result text is what the conversion of its own input, units and category shows. */
    predicate Shown(item: Item)
    {
      Accepts(item.fromValue) &&
      item.toValue == ResultFor(catalog, item.category, item.fromValue, item.fromUnit, item.toUnit)
    }

    /** The record a commit of the current state submits: the raw input and the shown result. */
    function CurrentItem(): (item: Item)
      reads this`category, this`fromUnit, this`toUnit, this`inputValue, this`result
      requires InCatalog()
    {
      Item(category, ValidFromUnit(), ValidToUnit(), inputValue, result)
    }

    constructor (catalog: Catalog, category: string)
      requires category in catalog && ValidCategory(catalog[category])
      ensures Valid() && this.catalog == catalog && this.category == category
      ensures fromUnit == DefaultFrom(catalog[category]) && toUnit == DefaultTo(catalog[category])
      ensures inputValue == "" && result == "" && lastSaved == ""
    {
      this.catalog := catalog;
      this.category := category;
      fromUnit := DefaultFrom(catalog[category]);
      toUnit := DefaultTo(catalog[category]);
      inputValue := "";
      result := "";
      lastSaved := "";
    }

    /** The effect that recomputes the result whenever the input, the units or the category change. */
    method UpdateResult()
      requires InCatalog() && Accepts(inputValue)
      modifies this`result
      ensures Valid()
      ensures inputValue == "" ==> result == ""
    {
      result := ResultFor(catalog, category, inputValue, ValidFromUnit(), ValidToUnit());
    }

    /**
     * A new category from the parent: the reset effect puts the units back to
     * the category's defaults and clears both fields. The effect runs only
     * when the category actually changes.
     */
    method ChangeCategory(c: string)
      requires Valid() && c in catalog && ValidCategory(catalog[c])
      modifies this`category, this`fromUnit, this`toUnit, this`inputValue, this`result
      ensures Valid() && category == c
      ensures c != old(category) ==>
        fromUnit == DefaultFrom(catalog[c]) && toUnit == DefaultTo(catalog[c]) &&
        inputValue == "" && result == ""
      ensures c == old(category) ==>
        fromUnit == old(fromUnit) && toUnit == old(toUnit) &&
        inputValue == old(inputValue) && result == old(result)
    {
      if c != category {
        ResetForCategory(c);
        UpdateResult();
      }
    }

    /** The reset effect's updates for a new category, before the result effect runs. */
    method ResetForCategory(c: string)
      requires c in catalog && ValidCategory(catalog[c])
      modifies this`category, this`fromUnit, this`toUnit, this`inputValue, this`result
      ensures WellFormed() && category == c
      ensures fromUnit == DefaultFrom(catalog[c]) && toUnit == DefaultTo(catalog[c])
      ensures inputValue == "" && result == ""
    {
      category := c;
      fromUnit := DefaultFrom(catalog[c]);
      toUnit := DefaultTo(catalog[c]);
      inputValue := "";
      result := "";
    }

    /** A from-unit picked in the selector. */
    method SelectFromUnit(u: string)
      requires Valid()
      modifies this`fromUnit, this`result
      ensures Valid() && fromUnit == u
    {
      fromUnit := u;
      UpdateResult();
    }

    /** A to-unit picked in the selector. */
    method SelectToUnit(u: string)
      requires Valid()
      modifies this`toUnit, this`result
      ensures Valid() && toUnit == u
    {
      toUnit := u;
      UpdateResult();
    }

    /** Swap: the effective units trade places and the result becomes the new input. */
    method Swap()
      requires Valid()
      modifies this`fromUnit, this`toUnit, this`inputValue, this`result
      ensures Valid()
      ensures fromUnit == old(ValidToUnit()) && toUnit == old(ValidFromUnit())
      ensures ValidFromUnit() == old(ValidToUnit()) && ValidToUnit() == old(ValidFromUnit())
      ensures inputValue == old(result)
    {
      ExchangeUnits();
      UpdateResult();
    }

    /** The swap handler's updates, before the result effect runs. */
    method ExchangeUnits()
      requires WellFormed()
      modifies this`fromUnit, this`toUnit, this`inputValue
      ensures WellFormed()
      ensures fromUnit == old(ValidToUnit()) && toUnit == old(ValidFromUnit())
      ensures ValidFromUnit() == old(ValidToUnit()) && ValidToUnit() == old(ValidFromUnit())
      ensures inputValue == old(result)
    {
      var from, to := ValidFromUnit(), ValidToUnit();
      fromUnit := to;
      toUnit := from;
      inputValue := result;
      assert HasUnit(catalog[category], fromUnit) && HasUnit(catalog[category], toUnit);
    }

    /** A keystroke in the input field: the new text is taken only when the filter accepts it. */
    method InputChange(value: string)
      requires Valid()
      modifies this`inputValue, this`result
      ensures Valid()
      ensures inputValue == (if Accepts(value) then value else old(inputValue))
      ensures !Accepts(value) ==> result == old(result)
    {
      assert Accepts("") && Accepts("-");
      if value == "" || value == "-" || Accepts(value) {
        inputValue := value;
        UpdateResult();
      }
    }

    /**
     * Commit (blur or Enter): submits the current conversion unless the input
     * or the result is empty or its key equals the last submitted key.
     */
    method Commit() returns (submitted: Option<Item>)
      requires WellFormed()
      modifies this`lastSaved
      ensures WellFormed()
      ensures submitted.Some? <==> inputValue != "" && result != "" && old(lastSaved) != CurrentKey()
      ensures submitted.Some? ==> submitted.value == CurrentItem()
      ensures Synced() && submitted.Some? ==> Shown(submitted.value)
      ensures submitted.None? ==> lastSaved == old(lastSaved)
      ensures inputValue != "" && result != "" ==> lastSaved == CurrentKey()
    {
      if inputValue == "" || result == "" {
        return None;
      }
      var key := CommitKey(inputValue, ValidFromUnit(), ValidToUnit(), category);
      if lastSaved == key {
        return None;
      }
      lastSaved := key;
      submitted := Some(Item(category, ValidFromUnit(), ValidToUnit(), inputValue, result));
    }

    /** Two commits with nothing changed in between (blur, then Enter) submit at most once. */
    method CommitTwice() returns (first: Option<Item>, second: Option<Item>)
      requires WellFormed()
      modifies this`lastSaved
      ensures WellFormed() && second.None?
      ensures first.Some? <==> inputValue != "" && result != "" && old(lastSaved) != CurrentKey()
    {
      first := Commit();
      second := Commit();
    }

    /** Enter commits; Escape clears the input and the result; other keys do nothing. */
    method KeyDown(key: string) returns (submitted: Option<Item>)
      requires Valid()
      modifies this`lastSaved, this`inputValue, this`result
      ensures Valid()
      ensures key == "Enter" ==>
        inputValue == old(inputValue) && result == old(result) &&
        (submitted.Some? <==> inputValue != "" && result != "" && old(lastSaved) != CurrentKey()) &&
        (submitted.Some? ==> submitted.value == CurrentItem() && Shown(submitted.value)) &&
        (submitted.None? ==> lastSaved == old(lastSaved)) &&
        (inputValue != "" && result != "" ==> lastSaved == CurrentKey())
      ensures key == "Escape" ==> inputValue == "" && result == ""
      ensures key != "Enter" ==> submitted.None? && lastSaved == old(lastSaved)
      ensures key != "Enter" && key != "Escape" ==> inputValue == old(inputValue) && result == old(result)
    {
      submitted := None;
      if key == "Enter" {
        submitted := Commit();
      } else if key == "Escape" {
        ClearInput();
      }
    }

    /** Escape empties the input and the result. */
    method ClearInput()
      requires InCatalog()
      modifies this`inputValue, this`result
      ensures Valid() && inputValue == "" && result == ""
    {
      inputValue := "";
      UpdateResult();
    }
  }
}
