/**
 * Which option `Visual.update` selects: the first value strictly equal to the remembered
 * selection, or the first option when there is no such value (or nothing is remembered yet).
 */
module Selection {
  import opened Wrappers
  import opened JsBuiltins

  /** `values.findIndex(item => item === this.currentSelection)`; an unset selection
      (`undefined`) is strictly equal to no string. */
  function FindSelection(values: seq<string>, current: Option<string>): (r: int)
    ensures -1 <= r < |values|
    ensures 0 <= r <==> current.Some? && current.value in values
    ensures 0 <= r ==> values[r] == current.value && current.value !in values[..r]
  {
    match current
    case None => -1
    case Some(v) => FirstIndex(values, v)
  }

  /** `find_value >= 0 ? find_value : 0`. */
  function SelectIndex(values: seq<string>, current: Option<string>): (k: nat)
    ensures values != [] ==> k < |values|
    ensures current.Some? && current.value in values ==>
      values[k] == current.value && current.value !in values[..k]
    ensures !(current.Some? && current.value in values) ==> k == 0
    ensures forall j :: 0 <= j < |values| && current == Some(values[j]) ==> k <= j
  {
    var found := FindSelection(values, current);
    if 0 <= found then found else 0
  }

  /** Choosing option `i` and rendering the same values again shows option `i` exactly
      when no earlier option has the same text; otherwise the earliest equal one. */
  lemma RerenderKeepsChoice(values: seq<string>, i: nat)
    requires i < |values|
    ensures SelectIndex(values, Some(values[i])) == i <==> values[i] !in values[..i]
    ensures values[SelectIndex(values, Some(values[i]))] == values[i]
  {
  }
}
