/**
 * The application shell: the selected category, the newest-first conversion
 * history bounded to twenty entries, and its persisted snapshot.
 */
module App {
  import opened Wrappers
  import opened Converter
  import opened Conversion

  /** The most entries the history keeps. */
  const MaxHistory: nat := 20

  /** A history entry: a submitted conversion record stamped with an id. */
  datatype Entry = Entry(item: Item, id: int)

  function Min(a: int, b: int): (m: int) { if a <= b then a else b }

  /** Two records are the same conversion when input, units and category agree; the result text is not compared. */
  predicate SameKey(e: Entry, item: Item)
  {
    e.item.fromValue == item.fromValue && e.item.fromUnit == item.fromUnit &&
    e.item.toUnit == item.toUnit && e.item.category == item.category
  }

  /** Only the newest entry is compared with a candidate. */
  predicate IsDuplicate(prev: seq<Entry>, item: Item)
    ensures IsDuplicate(prev, item) ==> exists e | e in prev :: SameKey(e, item)
  {
    |prev| > 0 && SameKey(prev[0], item)
  }

  /**
   * The history updater: a repeat of the newest entry leaves the list as it
   * is; anything else goes in front and the list is cut back to MaxHistory.
   */
  function AddToHistory(prev: seq<Entry>, item: Item, id: int): (r: seq<Entry>)
    ensures IsDuplicate(prev, item) ==> r == prev
    ensures !IsDuplicate(prev, item) ==>
      |r| == Min(|prev| + 1, MaxHistory) && r[0] == Entry(item, id) &&
      forall i | 1 <= i < |r| :: r[i] == prev[i - 1]
    ensures |prev| <= MaxHistory ==> |r| <= MaxHistory
  {
    if IsDuplicate(prev, item) then prev
    else
      var next := [Entry(item, id)] + prev;
      next[..Min(|next|, MaxHistory)]
  }

  /** Clearing empties the history. */
  function ClearHistory(prev: seq<Entry>): (r: seq<Entry>)
    ensures |r| == 0
  {
    []
  }

  /**
   * Only the front is checked: a candidate equal to an older entry but not
   * to the newest one is still recorded, and the older copy stays while it
   * is within the bound.
   */
  lemma OnlyFrontChecked(prev: seq<Entry>, item: Item, id: int, k: nat)
    requires 1 <= k < |prev| && !SameKey(prev[0], item) && SameKey(prev[k], item)
    ensures var r := AddToHistory(prev, item, id);
      r[0] == Entry(item, id) && (k + 1 < MaxHistory ==> r[k + 1] == prev[k] && SameKey(r[k + 1], item))
  {
  }

  /** A new entry in a list with room grows it by exactly one. */
  lemma RecordGrows(prev: seq<Entry>, item: Item, id: int)
    requires |prev| < MaxHistory && !IsDuplicate(prev, item)
    ensures AddToHistory(prev, item, id) == [Entry(item, id)] + prev
  {
  }

  /** A new entry in a full list drops exactly the oldest entry. */
  lemma FullDropsOldest(prev: seq<Entry>, item: Item, id: int)
    requires |prev| == MaxHistory && !IsDuplicate(prev, item)
    ensures AddToHistory(prev, item, id) == [Entry(item, id)] + prev[..MaxHistory - 1]
    ensures multiset(AddToHistory(prev, item, id)) + multiset{prev[MaxHistory - 1]} ==
            multiset(prev) + multiset{Entry(item, id)}
  {
    var r := AddToHistory(prev, item, id);
    assert |r| == MaxHistory;
    assert forall i | 0 <= i < |r| :: r[i] == ([Entry(item, id)] + prev[..MaxHistory - 1])[i];
    assert prev == prev[..MaxHistory - 1] + [prev[MaxHistory - 1]];
  }

  /**
   * The duplicate check ignores the result text, and loses nothing by it: two
   * records that show their own conversion and agree on input, units and
   * category are the same record.
   */
  lemma RepeatIsSameRecord(conv: ConverterState, e: Entry, item: Item)
    requires conv.Shown(e.item) && conv.Shown(item) && SameKey(e, item)
    ensures e.item == item
  {
  }

  /** Recording the same conversion twice in a row on an empty history keeps one entry, the first. */
  lemma RepeatOnEmpty(item: Item, id1: int, id2: int)
    ensures AddToHistory(AddToHistory([], item, id1), item, id2) == [Entry(item, id1)]
  {
  }

  // ---------------------------------------------------------------------------
  // A run of submissions

  /** The history after recording each entry of a run in turn, oldest first. */
  function RecordAll(prev: seq<Entry>, run: seq<Entry>): (r: seq<Entry>)
    decreases |run|
  {
    if run == [] then prev else RecordAll(AddToHistory(prev, run[0].item, run[0].id), run[1..])
  }

  /** A run listed newest first. */
  function Reversed(run: seq<Entry>): (r: seq<Entry>)
    ensures |r| == |run|
  {
    if run == [] then [] else Reversed(run[1..]) + [run[0]]
  }

  /** No entry of the run repeats the one recorded just before it, nor the front of the history. */
  predicate FreshRun(prev: seq<Entry>, run: seq<Entry>)
  {
    (|run| > 0 ==> !IsDuplicate(prev, run[0].item)) &&
    forall i | 1 <= i < |run| :: !SameKey(run[i - 1], run[i].item)
  }

  /** Cutting the prepended history and then the whole list is one cut of the whole list. */
  lemma PrependStep(a: seq<Entry>, e: Entry, prev: seq<Entry>)
    ensures var k := Min(|prev| + 1, MaxHistory);
      (a + ([e] + prev)[..k])[..Min(|a| + k, MaxHistory)] ==
      ((a + [e]) + prev)[..Min(|a| + 1 + |prev|, MaxHistory)]
  {
  }

  /** Recording the first entry of a fresh run leaves the rest of it fresh. */
  lemma FreshRunTail(prev: seq<Entry>, run: seq<Entry>)
    requires |run| > 0 && FreshRun(prev, run)
    ensures FreshRun(AddToHistory(prev, run[0].item, run[0].id), run[1..])
  {
  }

  /**
   * A run with no consecutive repeats leaves the history as the run, newest
   * first, in front of the previous entries, cut back to MaxHistory.
   */
  lemma {:induction false} RecordAllNewestFirst(prev: seq<Entry>, run: seq<Entry>)
    requires |prev| <= MaxHistory && FreshRun(prev, run)
    ensures RecordAll(prev, run) == (Reversed(run) + prev)[..Min(|run| + |prev|, MaxHistory)]
    decreases |run|
  {
    if run == [] {
      assert (Reversed(run) + prev)[..|prev|] == prev;
    } else {
      var e := run[0];
      var rest := run[1..];
      var next := AddToHistory(prev, e.item, e.id);
      RecordGrowsOrDrops(prev, e.item, e.id);
      FreshRunTail(prev, run);
      RecordAllNewestFirst(next, rest);
      PrependStep(Reversed(rest), e, prev);
    }
  }

  /** The updater on a fresh entry is the prepend-and-cut, whatever the length. */
  lemma RecordGrowsOrDrops(prev: seq<Entry>, item: Item, id: int)
    requires !IsDuplicate(prev, item)
    ensures AddToHistory(prev, item, id) == ([Entry(item, id)] + prev)[..Min(|prev| + 1, MaxHistory)]
  {
  }

  // ---------------------------------------------------------------------------
  // The application state

  class AppState {
    /** The selected category. */
    var category: string
    /** The history, newest first. */
    var history: seq<Entry>
    /** The store's snapshot under the history key; None when nothing is stored. */
    var stored: Option<seq<Entry>>

    /** The persist effect has run: the store holds the current history. */
    ghost predicate Valid()
      reads this
    {
      stored == Some(history)
    }

    /**
     * Start-up: the history is the stored snapshot when there is one and
     * empty otherwise, and the persist effect writes it back.
     */
    constructor Load(saved: Option<seq<Entry>>)
      ensures Valid() && category == "length"
      ensures history == (if saved.Some? then saved.value else [])
    {
      category := "length";
      history := if saved.Some? then saved.value else [];
      stored := Some(history);
    }

    /** A conversion submitted by the converter is recorded and persisted. */
    method Record(item: Item, id: int)
      modifies this`history, this`stored
      ensures Valid() && history == AddToHistory(old(history), item, id)
    {
      history := AddToHistory(history, item, id);
      stored := Some(history);
    }

    /** What the converter hands over, if anything, is recorded; nothing handed over changes nothing. */
    method Submit(submitted: Option<Item>, id: int)
      requires Valid()
      modifies this`history, this`stored
      ensures Valid()
      ensures submitted.Some? ==> history == AddToHistory(old(history), submitted.value, id)
      ensures submitted.None? ==> unchanged(this)
    {
      if submitted.Some? {
        Record(submitted.value, id);
      }
    }

    /** The clear button empties the history and the store follows. */
    method Clear()
      modifies this`history, this`stored
      ensures Valid() && history == []
    {
      history := ClearHistory(history);
      stored := Some(history);
    }

    /** A category picked in the selector. */
    method SelectCategory(c: string)
      modifies this`category
      ensures category == c
    {
      category := c;
    }

    /** Picking a history entry selects its category and nothing else. */
    method ApplyFromHistory(e: Entry)
      modifies this`category
      ensures category == e.item.category
    {
      category := e.item.category;
    }
  }

  // ---------------------------------------------------------------------------
  // The two components wired together: the converter's category is the
  // application's category cell, passed down as a property.

  /**
   * The converter's commit wired to the history: whatever the commit submits
   * is recorded with the given id and its key becomes the last one; a
   * suppressed commit leaves the history and the last key alone.
   */
  method CommitToHistory(conv: ConverterState, app: AppState, id: int) returns (submitted: Option<Item>)
    requires conv.WellFormed() && app.Valid() && conv.category == app.category
    modifies conv`lastSaved, app`history, app`stored
    ensures conv.WellFormed() && app.Valid()
    ensures submitted.Some? <==>
      conv.inputValue != "" && conv.result != "" && old(conv.lastSaved) != conv.CurrentKey()
    ensures submitted.Some? ==>
      submitted.value == conv.CurrentItem() && submitted.value.category == app.category &&
      app.history == AddToHistory(old(app.history), conv.CurrentItem(), id)
    ensures conv.Synced() && submitted.Some? ==> conv.Shown(submitted.value)
    ensures submitted.None? ==> unchanged(app) && conv.lastSaved == old(conv.lastSaved)
    ensures conv.inputValue != "" && conv.result != "" ==> conv.lastSaved == conv.CurrentKey()
  {
    submitted := conv.Commit();
    app.Submit(submitted, id);
  }

  /**
   * A category picked in the selector: the application's cell changes and
   * the converter, which receives it, runs its reset effect.
   */
  method PickCategory(app: AppState, conv: ConverterState, c: string)
    requires conv.Valid() && conv.category == app.category
    requires c in conv.catalog && ValidCategory(conv.catalog[c])
    modifies app`category, conv`category, conv`fromUnit, conv`toUnit, conv`inputValue, conv`result
    ensures conv.Valid() && app.category == c && conv.category == c
    ensures c != old(app.category) ==>
      conv.fromUnit == DefaultFrom(conv.catalog[c]) && conv.toUnit == DefaultTo(conv.catalog[c]) &&
      conv.inputValue == "" && conv.result == ""
    ensures c == old(app.category) ==>
      conv.fromUnit == old(conv.fromUnit) && conv.toUnit == old(conv.toUnit) &&
      conv.inputValue == old(conv.inputValue) && conv.result == old(conv.result)
  {
    app.SelectCategory(c);
    conv.ChangeCategory(c);
  }

  /**
   * A history entry picked in the list: only its category is applied, and the
   * converter resets to that category's default units with an empty input.
   */
  method ReplayFromHistory(app: AppState, conv: ConverterState, e: Entry)
    requires conv.Valid() && conv.category == app.category
    requires e.item.category in conv.catalog && ValidCategory(conv.catalog[e.item.category])
    modifies app`category, conv`category, conv`fromUnit, conv`toUnit, conv`inputValue, conv`result
    ensures conv.Valid() && app.category == e.item.category && conv.category == e.item.category
    ensures e.item.category != old(app.category) ==>
      conv.fromUnit == DefaultFrom(conv.catalog[e.item.category]) &&
      conv.toUnit == DefaultTo(conv.catalog[e.item.category]) &&
      conv.inputValue == "" && conv.result == ""
    ensures e.item.category == old(app.category) ==>
      conv.fromUnit == old(conv.fromUnit) && conv.toUnit == old(conv.toUnit) &&
      conv.inputValue == old(conv.inputValue) && conv.result == old(conv.result)
  {
    app.ApplyFromHistory(e);
    conv.ChangeCategory(e.item.category);
  }
}
