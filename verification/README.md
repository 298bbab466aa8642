# Unit converter: conversion engine, converter state machine and history

This project models the logic inside a small React unit-converter app and
proves properties of it. The app has three parts:

- **The conversion engine** (`src/utils/convert.js`). `convert` turns a value between two units of a
  category. Temperature goes through a six-entry formula table, looked up by a key built from the
  unit strings. Every other category uses linear factors to a base unit. `formatResult` renders a
  number rounded to hundredths, with trailing zeros stripped. The empty string `''` is the
  engine's "no result" sentinel throughout.
- **The converter component** (`src/components/Converter.jsx`). Its state cells are the chosen
  units, the input text and the shown result, plus a reference to the key of the last submitted
  conversion. The handlers are:
  - an input filter (`^-?\d*\.?\d*$`);
  - unit fallback to the category's first and second keys;
  - swap, Escape, and a reset whenever the category changes;
  - a commit (`saveToHistory`) that submits a record, unless the input or result is empty or the
    conversion repeats the last one submitted.
- **The application shell** (`src/components/App.jsx`). It holds the selected category and a
  newest-first history of at most 20 entries. A record that repeats the newest entry on input,
  units and category is dropped. The history is written to a persistent store after every change
  and read back at start-up.

Files:

- `wrappers.dfy`: `Option`.
- `decimal.dfy`: the filter's language, the number an accepted text denotes, and the text a count
  of hundredths renders to.
- `convert.dfy`: module `Conversion`, for `convert.js`. Pure functions and lemmas.
- `converter.dfy`: module `Converter`. Class `ConverterState` has one field per state cell, and one
  method per handler together with the effects the handler triggers.
- `app.dfy`: module `App`. The pure history updater, and class `AppState` with the history as a
  `seq` field and the store's snapshot beside it.

Modelling choices:

- Numbers are exact reals. The temperature formulas and linear factors are the source's. The
  catalog (`src/data/units`) is not part of this model; it is a parameter. It maps each category
  key to its unit keys in `Object.keys` order and each unit's factor to the base unit.
- `toFixed(2)` is rounding to the nearest hundredth, halves away from zero. `parseFloat(...).toString()`
  is the shortest decimal rendering of that count of hundredths.
- `Object.keys(...)[1] || ...[0]` also falls back when the second key is the empty string, because
  that string is falsy; `DefaultTo` follows this.
- The reset effect depends on `[category]`, so it fires only when the category actually changes.
  Selecting the current category again changes nothing.
- `JSON.parse` at `src/components/App.jsx:14` has no error handling, so the model has no fallback
  to an empty history for a corrupted snapshot.
- `ConverterState.WellFormed()` says the category exists and both text fields pass the input
  filter; `ConverterState.Valid()` adds that the result effect has caught up with the input, units
  and category. Every handler leaves the state valid. The commit needs only a well-formed state,
  and says what it submits from a synced one.
- The converter's category is the application's category cell passed down as a property: the
  methods that join the two components (`App.CommitToHistory`, `App.PickCategory`,
  `App.ReplayFromHistory`) require the two fields to agree and keep them equal.

## Model

| member | source | states |
|---|---|---|
| Decimal.AcceptsIffWellShaped | src/components/Converter.jsx:46-51 | The input filter accepts a text exactly when it has digits, at most one '.', and a '-' only at position 0. |
| Decimal.DecimalBodyShape | src/components/Converter.jsx:48 | `\d*\.?\d*` matches exactly the texts of digits with at most one point. |
| Decimal.DigitsOfNat | src/utils/convert.js:62 | Reading back the digits printed for a whole number gives that number. |
| Decimal.SplitAfterDigits | src/utils/convert.js:31 | An integer part followed by an optional fraction splits back into the same parts. |
| Decimal.FractionValue | src/utils/convert.js:31 | The digits after the point denote a value of at least 0 and below 1. |
| Decimal.TextValue | src/utils/convert.js:31 | The number `parseFloat` reads from an accepted text is at most 0 after a leading '-' and at least 0 otherwise. RenderValue and NegatedValue give its exact value on rendered texts. |
| Decimal.FractionBody | src/utils/convert.js:60-62 | The fraction part printed for f hundredths is empty, '.d' or '.dd', and reads back as f/100. |
| Decimal.MagnitudeBody | src/utils/convert.js:60-62 | The text printed for a magnitude is its whole digits followed by its fraction part, starting with a digit. |
| Decimal.MagnitudeShape | src/utils/convert.js:60-62 | A printed magnitude is unsigned, passes the filter, has a digit, never ends in '.' or a fractional '0' and has at most two digits after the point. |
| Decimal.RenderShape | src/utils/convert.js:60-62 | A rendered hundredths count passes the input filter and has a digit. It starts with '-' exactly when negative, never ends in '.' or in a fractional '0', has at most two digits after the point, and renders 0 as "0". |
| Decimal.MagnitudeValue | src/utils/convert.js:60-62 | A printed magnitude a reads back as exactly a/100. |
| Decimal.NegatedValue | src/utils/convert.js:57 | A minus sign in front of an unsigned accepted text negates the value it reads as. |
| Decimal.RenderValue | src/utils/convert.js:57-62 | Reading the rendered text back gives exactly h/100. |
| Conversion.Lower | src/utils/convert.js:16 | The lower-cased unit string has the same length and lower-cases each ASCII letter. |
| Conversion.Upper | src/utils/convert.js:17 | The upper-cased unit string has the same length and upper-cases each ASCII letter. |
| Conversion.TemperatureKey | src/utils/convert.js:15-18 | The key is as long as both units plus two. For one-letter units it is the lower-cased letter, 'To', and the upper-cased letter. KeyRecognised shows that the key is in the table exactly for different scales among c, f, k. |
| Conversion.ConvertTemperature | src/utils/convert.js:12-26 | Identical unit strings return the value before any lookup. A key missing from the table returns the value unchanged. |
| Conversion.TableKeyParts | src/utils/convert.js:15-19 | A key found in the table comes from a one-letter from-unit and a one-letter to-unit. |
| Conversion.KeyRecognised | src/utils/convert.js:3-21 | The table has a formula exactly for pairs of different scales among c, f, k, in either case. |
| Conversion.TemperatureMatchesReference | src/utils/convert.js:3-26 | Temperature conversion equals an independent definition via Kelvin for recognised pairs, and passes the value through for every other pair. |
| Conversion.TemperatureRoundTrip | src/utils/convert.js:12-26 | Converting a to b and back gives the value back for every pair of units: a recognised pair through the formulas (fToC undoes cToF, kToC undoes cToK, kToF undoes fToK, and b to a is recognised too), any other pair by passing the value through. |
| Conversion.TemperatureComposition | src/utils/convert.js:4-9 | Converting a to b then b to c equals converting a to c. |
| Conversion.FormulaInverses | src/utils/convert.js:4-9 | The three formula pairs of the table are mutual inverses. |
| Conversion.TemperaturePassThrough | src/utils/convert.js:21-25 | Case variants of one scale ('c'/'C'), unknown letters and long names all pass the value through. |
| Conversion.TemperatureExamples | src/utils/convert.test.js:50-92 | 0°C is 32°F, 100°C is 212°F, -40°C is -40°F, 0°C is 273.15 K, and 25 c to c is 25. |
| Conversion.Apply | src/utils/convert.js:3-10 | Each formula of the table converts between two different scales, and it equals the reference conversion through Kelvin. FormulaInverses shows that the three pairs undo each other. |
| Conversion.ParseInput | src/utils/convert.js:29-31 | An accepted input is the sentinel exactly when it has no digit (the empty string, "-", ".", "-."); otherwise it is its decimal value. |
| Conversion.Convert | src/utils/convert.js:28-52 | The sentinel maps to the sentinel. Temperature always gives a number. A linear category gives a number exactly when the category and both units exist and the target factor is non-zero, and then result × to-factor = value × from-factor. |
| Conversion.TemperatureIgnoresCatalog | src/utils/convert.js:33-35 | The temperature branch gives the same result whatever the catalog. |
| Conversion.ConvertIdentity | src/utils/convert.js:48-51 | Converting a unit to itself gives the value back, in every category. |
| Conversion.LinearRoundTrip | src/utils/convert.js:48-51 | A linear conversion a to b and back gives the value back. |
| Conversion.LinearComposition | src/utils/convert.js:48-51 | Linear a to b then b to c equals a to c. |
| Conversion.LinearOddness | src/utils/convert.js:48-51 | A linear conversion maps 0 to 0 and negating the input negates the output. |
| Conversion.Hundredths | src/utils/convert.js:60 | `toFixed(2)` picks the count of hundredths within half a hundredth of the value, with the value's sign, taking the one away from zero at an exact half, so the count is unique. HundredthsNearest adds symmetry under negation. |
| Conversion.HundredthsNearest | src/utils/convert.js:60 | The rounding is within half a hundredth of the value, symmetric under negation and sign-preserving. |
| Conversion.RenderParses | src/utils/convert.js:60-62 | A rendered hundredths count is non-empty, accepted by the filter and parses back to h/100, with the shape of a formatted result. |
| Conversion.FormatResult | src/utils/convert.js:54-63 | The sentinel formats as "" and a number never does; every formatted text passes the input filter, so it can be swapped back into the input. |
| Conversion.FormatResultReadsBack | src/utils/convert.js:57-62 | A formatted number reads back as its nearest hundredth. It has at most two fractional digits and no trailing '.' or fractional '0', and a zero hundredths count is "0". |
| Conversion.RenderAccepted | src/utils/convert.js:60-62 | A rendered hundredths count is non-empty and passes the input filter. |
| Conversion.FormatRoundsDownExample | src/utils/convert.test.js:179-182 | 1.234 is "1.23". |
| Conversion.FormatRoundsUpExample | src/utils/convert.test.js:229-232 | 123.456 is "123.46". |
| Conversion.FormatStripExamples | src/utils/convert.test.js:184-192 | 1.10 is "1.1" and 100 is "100". |
| Conversion.FormatSignAndZeroExamples | src/utils/convert.test.js:194-226 | 0 and 0.001 are "0", -5.678 is "-5.68", the sentinel is "". |
| Converter.DefaultFrom | src/components/Converter.jsx:11 | The initial from-unit is the category's first key, and it is a unit of the category. |
| Converter.DefaultTo | src/components/Converter.jsx:12 | The initial to-unit is a unit of the category. It is the second key whenever that key exists and is non-empty, and the first key otherwise. |
| Converter.DefaultsDiffer | src/components/Converter.jsx:11-12 | A category whose first two keys differ, the second non-empty, starts with two different units. |
| Converter.Effective | src/components/Converter.jsx:15-16 | The unit used is always a unit of the category, and it is the chosen unit whenever the category has it. |
| Converter.ResultFor | src/components/Converter.jsx:30-38 | The result text is accepted by the input filter, and it is empty exactly when the input is empty or the conversion gives the sentinel. |
| Converter.CommitKey | src/components/Converter.jsx:68 | The key is as long as its four parts plus three hyphens, and a hyphen follows the input. CommitKeyInjective shows that equal keys mean equal parts. |
| Converter.CommitKeyInjective | src/components/Converter.jsx:68-69 | While unit and category keys have no hyphen, equal commit keys mean the same input, units and category. |
| Converter.ConverterState.ValidFromUnit | src/components/Converter.jsx:15 | The effective from-unit belongs to the category: the chosen one if the category has it, else the first key. |
| Converter.ConverterState.ValidToUnit | src/components/Converter.jsx:16 | The effective to-unit belongs to the category: the chosen one if the category has it, else the second or first key. |
| Converter.ConverterState.constructor | src/components/Converter.jsx:11-20 | The initial state: default units, empty input, result and last key. |
| Converter.ConverterState.UpdateResult | src/components/Converter.jsx:30-38 | The result effect brings the result field in line with the input, units and category. |
| Converter.ConverterState.ChangeCategory | src/components/Converter.jsx:22-28 | A different category resets the units to its first and second keys and clears input and result. The same category changes nothing. |
| Converter.ConverterState.ResetForCategory | src/components/Converter.jsx:22-28 | The reset effect's updates: the new category, its first and second keys as units, and empty input and result. |
| Converter.ConverterState.SelectFromUnit | src/components/Converter.jsx:30-38 | A picked from-unit is stored and the result recomputed. |
| Converter.ConverterState.SelectToUnit | src/components/Converter.jsx:30-38 | A picked to-unit is stored and the result recomputed. |
| Converter.ConverterState.Swap | src/components/Converter.jsx:40-44 | The effective units trade places, the old result becomes the input, and the result is recomputed. |
| Converter.ConverterState.ExchangeUnits | src/components/Converter.jsx:40-44 | The swap handler's updates: the effective units trade places and the old result becomes the input. |
| Converter.ConverterState.InputChange | src/components/Converter.jsx:46-51 | Text the filter accepts becomes the input, and the result is recomputed. Rejected text leaves input and result unchanged. |
| Converter.ConverterState.Commit | src/components/Converter.jsx:65-79 | A record is submitted exactly when input and result are non-empty and the key differs from the last one submitted. The record carries the effective units, the input verbatim and the shown result, and when the result effect has caught up its result text is the conversion of its own input, units and category. The last key is updated to the current one. |
| Converter.ConverterState.CommitTwice | src/components/Converter.jsx:65-71 | Two commits with nothing changed in between submit at most once. |
| Converter.ConverterState.KeyDown | src/components/Converter.jsx:81-89 | Enter commits as Commit does. It submits the current record, showing its own conversion, exactly when input and result are non-empty and the key is new, and otherwise keeps the last key. Escape clears input and result. Any other key changes nothing. |
| Converter.ConverterState.ClearInput | src/components/Converter.jsx:85-88 | Escape leaves input and result empty, and the state synced. |
| App.AddToHistory | src/components/App.jsx:21-34 | A repeat of the newest entry on input, units and category leaves the list unchanged. Otherwise the entry with its id goes in front, older entries follow in order, and the length is min(previous + 1, 20). The length stays within 20. |
| App.ClearHistory | src/components/App.jsx:36 | Clearing leaves the empty list. |
| App.IsDuplicate | src/components/App.jsx:23-27 | A duplicate repeats an entry of the history on input, units and category. Only the newest entry is compared: OnlyFrontChecked shows that an older repeat is still inserted. |
| App.OnlyFrontChecked | src/components/App.jsx:23-32 | A candidate equal to an older entry but not to the newest is still inserted in front, and the older copy stays while it is within the bound of 20. |
| App.RecordGrows | src/components/App.jsx:31-32 | A new entry in a list with fewer than 20 entries grows it by exactly one, in front. |
| App.FullDropsOldest | src/components/App.jsx:8-32 | A new entry in a full list drops exactly the oldest entry. |
| App.RepeatIsSameRecord | src/components/App.jsx:23-27 | Two records that show their own conversion and agree on input, units and category are equal, so the check that ignores the result text drops only true repeats. |
| App.RepeatOnEmpty | src/components/App.jsx:23-29 | Recording the same conversion twice on an empty history keeps one entry, the first. |
| App.RecordAllNewestFirst | src/components/App.jsx:21-34 | Recording a run without consecutive repeats leaves the run newest first in front of the old entries, cut to 20. |
| App.AppState.Load | src/components/App.jsx:12-19 | Start-up takes the stored list when there is one and the empty list otherwise, and the store then holds it. |
| App.AppState.Record | src/components/App.jsx:17-34 | The history becomes the updater's result, and the store holds the new history. |
| App.AppState.Submit | src/components/App.jsx:21-34 | A handed-over record is recorded by the updater and persisted; no record leaves the state unchanged. |
| App.AppState.Clear | src/components/App.jsx:36 | The history becomes empty, and the store holds the empty list. |
| App.AppState.SelectCategory | src/components/App.jsx:50 | The picked category becomes the selected one. |
| App.AppState.ApplyFromHistory | src/components/App.jsx:38-40 | Picking a history entry selects its category. |
| App.CommitToHistory | src/components/Converter.jsx:65-79 | With the converter showing the application's category, a submitted commit carries that category and is recorded by the updater with the given id; when the result is synced its result text is the conversion of its own fields. With non-empty input and result the last key becomes the current key, so a second commit with nothing changed is suppressed. A suppressed commit leaves the application state and the last key unchanged. |
| App.PickCategory | src/components/App.jsx:50-51 | A picked category becomes the application's and the converter's. A new one resets the converter to its default units with empty input and result; the same one changes nothing. |
| App.ReplayFromHistory | src/components/App.jsx:38-40 | A picked entry's category becomes the application's and the converter's. A new category resets the converter to its default units with empty input and result; the same one changes nothing. |

## Left out

- IEEE-754 doubles: the model's arithmetic is exact. Binary rounding in the formulas and in `toFixed`, exponential notation for huge or tiny magnitudes, and `-0` are not modelled.
- Conversion.Hundredths: rounds exact reals half away from zero. It does not capture `toFixed`'s behaviour on binary values just below a half.
- Conversion.ParseInput: defined only on texts the input filter accepts. `isNaN`/`parseFloat` coercion of other strings (whitespace, '1e3', 'Infinity') is not modelled. `formatResult` on '', non-numeric strings, null or undefined appears only as the sentinel `Empty`; a numeric string such as '123.456' is taken as the number it denotes.
- Conversion.Lower: ASCII letters only; `toLowerCase`/`toUpperCase` on other Unicode letters is not modelled.
- Converter.CommitKeyInjective: requires hyphen-free unit and category keys. The catalog is not part of this model, so that cannot be checked against it.
- The concrete catalog (`src/data/units`) is not part of this model; it is a parameter. Lookups of inherited object properties such as `constructor` are not modelled.
- `localStorage` and JSON encoding: the store is an opaque snapshot, `None` when nothing is stored. A corrupted snapshot makes `JSON.parse` throw in the code; this is not modelled.
- `Date.now()` ids: the id is a parameter. Ids are not unique and no uniqueness is claimed.
- React scheduling: each handler and the effects it triggers run as one atomic method. Intermediate renders are not modelled, such as the one where the result effect sees the new category with the old input.
- The history record's optional callback (`onConvert?.`) is always present; the converter is always wired to the app.
- Clipboard copy and its timeout (src/components/Converter.jsx:53-63): asynchronous browser API and timers.
- Rendering, CSS, `CategorySelector.jsx`, `UnitSelector.jsx` and `History.jsx`: presentation only.
