/**
 * The language menu: one checkable item per loaded pack, and the handler
 * that runs when an item is clicked.  Clicking flips the item's Checked
 * flag first; the handler then either re-checks an unchecked item or, for
 * a newly checked item, unchecks all others and switches the language.
 */
module LanguageMenu {
  import opened Wrappers
  import opened LanguageStore

  /** The Checked flags of the items, in table order, and the two cultures a click can change. */
  datatype Selection = Selection(checked: seq<bool>, defaultCulture: string, currentCulture: Option<string>)

  /** The selection after a click, and whether the user asked for a restart. */
  datatype ClickResult = ClickResult(selection: Selection, restartRequested: bool)

  /** One click on item `item`; `confirm` is the user's answer to the restart prompt, if it is shown. */
  datatype Event = Event(item: nat, confirm: bool)

  /** The item labels: each pack's display name, in table order. */
  function DisplayNames(table: seq<Language>): seq<string>
  {
    seq(|table|, i requires 0 <= i < |table| => table[i].displayName)
  }

  /** The Checked flags Setup gives the items: checked when the item's language is the default. */
  function InitialChecked(table: seq<Language>, defaultCulture: string): seq<bool>
  {
    seq(|table|, i requires 0 <= i < |table| => IsDefault(table, defaultCulture, table[i].displayName))
  }

  /** What LanguageSelected computes: the flag of the last item (false when there is none). */
  function LastChecked(flags: seq<bool>): bool
  {
    |flags| > 0 && flags[|flags| - 1]
  }

  predicate AnyChecked(flags: seq<bool>)
  {
    exists i :: 0 <= i < |flags| && flags[i]
  }

  predicate AtMostOneChecked(flags: seq<bool>)
  {
    forall i, j :: 0 <= i < j < |flags| && flags[i] ==> !flags[j]
  }

  /** Every checked item is the one whose display name leads to the default culture. */
  predicate CheckedAreDefault(table: seq<Language>, s: Selection)
    requires |s.checked| == |table|
  {
    forall i :: 0 <= i < |table| && s.checked[i] ==> IsDefault(table, s.defaultCulture, table[i].displayName)
  }

  /**
   * LanguageSelected: the loop overwrites its flag with each item's state,
   * so the answer is the state of the last item, not whether any item is checked.
   */
  method LanguageSelected(dropDownItems: array<bool>) returns (anyChecked: bool)
    ensures anyChecked == LastChecked(dropDownItems[..])
  {
    anyChecked := false;
    var i := 0;
    while i < dropDownItems.Length
      invariant 0 <= i <= dropDownItems.Length
      invariant anyChecked == (i > 0 && dropDownItems[i - 1])
    {
      anyChecked := dropDownItems[i];
      i := i + 1;
    }
  }

  /**
   * The last item's flag is not "some item is checked": it never reports a
   * checked item that is not there, and it misses one exactly when some
   * item is checked but the last is not.
   */
  lemma LastCheckedMissesEarlierItems(flags: seq<bool>)
    ensures LastChecked(flags) ==> AnyChecked(flags)
    ensures LastChecked(flags) != AnyChecked(flags) <==> AnyChecked(flags) && !flags[|flags| - 1]
  {
  }

  /**
   * The click handler on item `k` of a menu built from `table`, after the
   * click has flipped the item's flag.  A now-unchecked item is checked
   * again when it is the default's item and the last item is unchecked.  A
   * now-checked item stays the only checked item, and the language with its
   * display name becomes the default and the current one.
   */
  function Click(table: seq<Language>, s: Selection, k: nat, confirm: bool): (r: ClickResult)
    requires k < |s.checked| == |table|
    ensures |r.selection.checked| == |s.checked|
    ensures s.checked[k] ==>
      && r.selection.defaultCulture == s.defaultCulture
      && r.selection.currentCulture == s.currentCulture
      && !r.restartRequested
      && (forall i :: 0 <= i < |table| && i != k ==> r.selection.checked[i] == s.checked[i])
      && (r.selection.checked[k] <==>
            IsDefault(table, s.defaultCulture, table[k].displayName) && !LastChecked(s.checked[k := false]))
    ensures !s.checked[k] ==>
      && (forall i :: 0 <= i < |table| ==> r.selection.checked[i] == (i == k))
      && r.selection.currentCulture == Some(r.selection.defaultCulture)
      && r.selection.defaultCulture in Keys(table)
      && IsDefault(table, r.selection.defaultCulture, table[k].displayName)
      && (r.restartRequested <==> confirm)
  {
    var name := table[k].displayName;
    var toggled := s.checked[k := !s.checked[k]];
    if !toggled[k] then
      var flags := if IsDefault(table, s.defaultCulture, name) && !LastChecked(toggled)
                   then toggled[k := true] else toggled;
      ClickResult(s.(checked := flags), false)
    else
      assert table[k] in table;
      var flags := seq(|toggled|, i requires 0 <= i < |toggled| => i == k);
      var sw := SwitchLanguage(table, s.defaultCulture, s.currentCulture, name, confirm);
      ClickResult(Selection(flags, sw.defaultCulture, sw.currentCulture), sw.restartRequested)
  }

  /** The selection after a sequence of clicks. */
  function Clicks(table: seq<Language>, s: Selection, events: seq<Event>): (r: Selection)
    requires |s.checked| == |table|
    requires forall e :: e in events ==> e.item < |table|
    ensures |r.checked| == |table|
    decreases |events|
  {
    if events == [] then s
    else Clicks(table, Click(table, s, events[0].item, events[0].confirm).selection, events[1..])
  }

  /** Setup's flags check only items of the default culture. */
  lemma SetupChecksDefaultOnly(table: seq<Language>, defaultCulture: string, currentCulture: Option<string>)
    ensures CheckedAreDefault(table, Selection(InitialChecked(table, defaultCulture), defaultCulture, currentCulture))
  {
  }

  /**
   * A click keeps every checked item the default's, and leaves at least one
   * item checked: unchecking the only checked item is undone because it is
   * the default's and the last item is then unchecked.
   */
  lemma {:induction false} ClickKeepsOneChecked(table: seq<Language>, s: Selection, k: nat, confirm: bool)
    requires k < |s.checked| == |table|
    requires CheckedAreDefault(table, s)
    ensures var r := Click(table, s, k, confirm).selection;
      CheckedAreDefault(table, r) && AnyChecked(r.checked)
  {
    var r := Click(table, s, k, confirm).selection;
    var n := |table|;
    if s.checked[k] {
      var toggled := s.checked[k := false];
      if LastChecked(toggled) {
        assert n - 1 != k && r.checked[n - 1];
      } else {
        assert r.checked[k];
      }
    } else {
      assert r.checked[k];
    }
  }

  /** From a consistent selection, any non-empty sequence of clicks leaves some item checked. */
  lemma {:induction false} ClicksKeepOneChecked(table: seq<Language>, s: Selection, events: seq<Event>)
    requires |s.checked| == |table|
    requires forall e :: e in events ==> e.item < |table|
    requires CheckedAreDefault(table, s)
    ensures var r := Clicks(table, s, events);
      CheckedAreDefault(table, r) && (events != [] ==> AnyChecked(r.checked))
    decreases |events|
  {
    if events != [] {
      var e := events[0];
      assert e in events;
      var next := Click(table, s, e.item, e.confirm).selection;
      ClickKeepsOneChecked(table, s, e.item, e.confirm);
      assert forall e' :: e' in events[1..] ==> e' in events;
      ClicksKeepOneChecked(table, next, events[1..]);
      if events[1..] == [] {
        assert Clicks(table, next, events[1..]) == next;
      }
    }
  }

  /** Once the user has clicked at least once, the menu always has a checked item. */
  lemma MenuKeepsASelection(table: seq<Language>, defaultCulture: string, currentCulture: Option<string>,
                            events: seq<Event>)
    requires forall e :: e in events ==> e.item < |table|
    requires events != []
    ensures AnyChecked(Clicks(table, Selection(InitialChecked(table, defaultCulture), defaultCulture, currentCulture), events).checked)
  {
    var s := Selection(InitialChecked(table, defaultCulture), defaultCulture, currentCulture);
    SetupChecksDefaultOnly(table, defaultCulture, currentCulture);
    ClicksKeepOneChecked(table, s, events);
  }

  /** A click never leaves two items checked when there were not two before. */
  lemma ClickKeepsAtMostOne(table: seq<Language>, s: Selection, k: nat, confirm: bool)
    requires k < |s.checked| == |table|
    requires AtMostOneChecked(s.checked)
    ensures AtMostOneChecked(Click(table, s, k, confirm).selection.checked)
  {
  }

  /**
   * With distinct display names (and, as in any loaded table, distinct
   * cultures) Setup checks at most one item.
   */
  lemma SetupChecksAtMostOne(table: seq<Language>, defaultCulture: string)
    requires DistinctCultures(table)
    requires forall i, j :: 0 <= i < j < |table| ==> table[i].displayName != table[j].displayName
    ensures AtMostOneChecked(InitialChecked(table, defaultCulture))
  {
  }

  /**
   * When two packs share a display name (as "en" and "EN" would), Setup
   * checks both items of the default's name.
   */
  lemma SharedDisplayNameChecksTwo()
    ensures InitialChecked([Language("en", "English", map[]), Language("EN", "English", map[])], "en") == [true, true]
  {
  }

  class LanguageMenu {
    const manager: LanguageManager
    /** Each item's text: the display name of its pack. */
    const labels: seq<string>
    /** Each item's Checked flag. */
    const checked: array<bool>

    ghost predicate Valid()
      reads this, manager
    {
      checked.Length == |labels| && labels == DisplayNames(manager.languages)
    }

    /** Setup: one item per loaded pack, checked when it is the default's. */
    constructor Setup(m: LanguageManager)
      ensures manager == m && fresh(checked) && Valid()
      ensures checked[..] == InitialChecked(m.languages, m.defaultCulture)
    {
      var table, defaultCulture := m.languages, m.defaultCulture;
      ghost var flags := InitialChecked(table, defaultCulture);
      var items := new bool[|table|];
      var i := 0;
      while i < |table|
        invariant 0 <= i <= |table|
        invariant forall j :: 0 <= j < i ==> items[j] == flags[j]
      {
        items[i] := IsDefault(table, defaultCulture, table[i].displayName);
        i := i + 1;
      }
      assert items[..] == flags;
      manager := m;
      labels := DisplayNames(table);
      checked := items;
    }

    /**
     * A click on item `k`: the item's flag flips (the item checks on
     * click), then the handler runs.  `confirm` is the answer to the
     * restart prompt shown after a switch.
     */
    method OnClick(k: nat, confirm: bool) returns (restartRequested: bool)
      requires Valid() && k < checked.Length
      modifies checked, manager
      ensures Valid() && manager.languages == old(manager.languages)
      ensures ClickResult(Selection(checked[..], manager.defaultCulture, manager.currentCulture), restartRequested) ==
              Click(manager.languages, Selection(old(checked[..]), old(manager.defaultCulture), old(manager.currentCulture)), k, confirm)
    {
      ghost var before := Selection(checked[..], manager.defaultCulture, manager.currentCulture);
      assert labels[k] == manager.languages[k].displayName;
      checked[k] := !checked[k];
      ghost var toggled := checked[..];
      if !checked[k] {
        var selected := LanguageSelected(checked);
        if IsDefault(manager.languages, manager.defaultCulture, labels[k]) && !selected {
          checked[k] := true;
        }
        return false;
      }
      var i := 0;
      while i < checked.Length
        invariant 0 <= i <= checked.Length
        invariant forall j :: 0 <= j < checked.Length ==> checked[j] == (if j < i && j != k then false else toggled[j])
        invariant manager.languages == old(manager.languages)
        invariant manager.defaultCulture == old(manager.defaultCulture)
        invariant manager.currentCulture == old(manager.currentCulture)
      {
        if i != k {
          checked[i] := false;
        }
        i := i + 1;
      }
      restartRequested := manager.SetDefaultLanguage(labels[k], confirm);
    }
  }
}
