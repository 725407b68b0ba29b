/**
 * The slicer's controller, class `Visual` of visual.ts. The DOM is abstracted to the
 * drop-down the container currently shows (its option texts, its selected index and the
 * column its change listener was built for); the host's `applyJsonFilter` to a log of
 * the requests submitted to it.
 */
module Slicer {
  import opened Wrappers
  import opened Filters
  import opened Selection

  /** The `select` element in the container, with the `category` its change listener captured. */
  datatype Dropdown = Dropdown(options: seq<string>, selectedIndex: nat, source: ColumnSource)

  /** How an update ends: a drop-down with option `selected` chosen, or the fault an empty
      column causes (`select.options[select.selectedIndex]` is undefined, so reading its `text` throws). */
  datatype UpdateOutcome = Rendered(selected: nat) | NoOptionToSelect

  class Visual {
    /** The user's last choice; `None` until the first change event. */
    var currentSelection: Option<string>
    /** What the container shows; `None` before the first update and after a faulted one. */
    var dropdown: Option<Dropdown>
    /** Every filter request submitted to the host, oldest first. */
    var filters: seq<FilterRequest>

    /** Whenever a drop-down is shown: its selected index is in range, the host's latest filter
        is on the selected option's text, and if the remembered choice is among the options then
        the selected option is that choice. */
    ghost predicate Valid()
      reads this
    {
      match dropdown
      case None => true
      case Some(d) =>
        d.selectedIndex < |d.options|
        && filters != []
        && filters[|filters| - 1] == MakeFilter(d.source, d.options[d.selectedIndex])
        && (currentSelection.Some? && currentSelection.value in d.options ==>
              d.options[d.selectedIndex] == currentSelection.value)
    }

    constructor ()
      ensures Valid()
      ensures currentSelection == None && dropdown == None && filters == []
    {
      currentSelection := None;
      dropdown := None;
      filters := [];
    }

    /** `filterByValue(category, value)`: submit one merge request for `value`. */
    method FilterByValue(source: ColumnSource, value: string)
      modifies this`filters
      ensures filters == old(filters) + [MakeFilter(source, value)]
    {
      filters := filters + [MakeFilter(source, value)];
    }

    /** `update(options)` with the bound column's values and metadata. */
    method Update(values: seq<string>, source: ColumnSource) returns (outcome: UpdateOutcome)
      modifies this
      ensures Valid()
      ensures currentSelection == old(currentSelection)
      ensures values == [] ==>
        outcome == NoOptionToSelect && dropdown == None && filters == old(filters)
      ensures values != [] ==>
        var k := SelectIndex(values, old(currentSelection));
        outcome == Rendered(k)
        && dropdown == Some(Dropdown(values, k, source))
        && filters == old(filters) + [MakeFilter(source, values[k])]
    {
      // `this.target.innerHTML = ''`
      dropdown := None;
      // one option per value, in order
      var options: seq<string> := [];
      var i := 0;
      while i < |values|
        invariant 0 <= i <= |values|
        invariant options == values[..i]
      {
        options := options + [values[i]];
        i := i + 1;
      }
      assert options == values;
      var selected := SelectIndex(values, currentSelection);
      if |options| <= selected {
        return NoOptionToSelect;
      }
      FilterByValue(source, options[selected]);
      dropdown := Some(Dropdown(options, selected, source));
      outcome := Rendered(selected);
    }

    /** The change listener: the user has chosen option `i` of the drop-down on display. */
    method Change(i: nat)
      requires dropdown.Some? && i < |dropdown.value.options|
      modifies this
      ensures Valid()
      ensures dropdown == Some(old(dropdown.value).(selectedIndex := i))
      ensures currentSelection == Some(old(dropdown.value.options[i]))
      ensures filters == old(filters) + [MakeFilter(old(dropdown.value.source), old(dropdown.value.options[i]))]
    {
      var d := dropdown.value.(selectedIndex := i);
      var selectedItem := d.options[d.selectedIndex];
      currentSelection := Some(selectedItem);
      FilterByValue(d.source, selectedItem);
      dropdown := Some(d);
    }
  }

  /** After the user chooses option `i`, a later update keeps that value selected (its first
      occurrence) when the new values still hold it, falls back to the first option when they
      do not, and filters on what it selects. */
  method ChangeThenUpdate(v: Visual, i: nat, values: seq<string>, source: ColumnSource)
      returns (outcome: UpdateOutcome)
    requires v.dropdown.Some? && i < |v.dropdown.value.options|
    modifies v
    ensures v.Valid()
    ensures var chosen := old(v.dropdown.value.options[i]);
      v.currentSelection == Some(chosen)
      && (values == [] <==> outcome == NoOptionToSelect)
      && (outcome.Rendered? ==>
            outcome.selected < |values| && v.filters != []
            && v.filters[|v.filters| - 1] == MakeFilter(source, values[outcome.selected]))
      && (chosen in values ==>
            outcome.Rendered? && values[outcome.selected] == chosen && chosen !in values[..outcome.selected])
      && (values != [] && chosen !in values ==> outcome == Rendered(0))
  {
    v.Change(i);
    outcome := v.Update(values, source);
  }

  /** The column ["Red", "Green", "Blue"] on a fresh slicer shows those three options with "Red"
      selected and filters on "Red"; after the user picks "Blue" and "Blue" leaves the column,
      the slicer falls back to "Red" and filters on it again. */
  method RedGreenBlue(source: ColumnSource)
      returns (first: UpdateOutcome, shown: seq<string>, second: UpdateOutcome, log: seq<FilterRequest>)
    ensures first == Rendered(0) && shown == ["Red", "Green", "Blue"]
    ensures second == Rendered(0)
    ensures log == [MakeFilter(source, "Red"), MakeFilter(source, "Blue"), MakeFilter(source, "Red")]
  {
    var v := new Visual();
    first := v.Update(["Red", "Green", "Blue"], source);
    shown := v.dropdown.value.options;
    v.Change(2);
    assert "Blue" !in ["Red", "Green"];
    second := v.Update(["Red", "Green"], source);
    log := v.filters;
  }
}
