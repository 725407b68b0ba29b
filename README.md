# Forced-selection slicer, modelled in Dafny

A Power BI custom visual that shows one category column as a drop-down and keeps the
report filtered on exactly one of its values. Class `Visual` of
`forcedSelectionSlicer/src/visual.ts` is the whole of its logic:

- On every `update` the container is cleared and a `select` is rebuilt with one option per
  column value, in column order.
- The remembered choice (`currentSelection`) is looked up by strict equality. Its first
  occurrence is selected, or option 0 when it is absent or nothing has been chosen yet.
- A filter for the selected option is submitted to the host straight away.
- A change listener records the user's choice in `currentSelection` and submits a filter for it.
- `filterByValue` builds a basic "In" filter on `<table>.<column>`, where the table is the part
  of the column's query name before the first `.`. It submits the filter under object
  `"general"`, property `"filter"`, with the merge action.

Layout:

- `wrappers.dfy`: `Option`. An unset `currentSelection` is `None`.
- `js_builtins.dfy`: the JavaScript built-ins the class calls. `findIndex` with `===` and
  one-character `indexOf` are both `FirstIndex`; `substring` is modelled with its index clamping.
- `filters.dfy`: the filter descriptor, the table-name rule, `MakeFilter`, and what an "In"
  filter admits.
- `selection.dfy`: which index `update` selects.
- `option_text.dfy`: how the HTML `option.text` getter rewrites whitespace. This is the finding below.
- `visual.dfy`: class `Visual`. The DOM is abstracted to the drop-down on display (option
  texts, selected index, and the column its listener captured). The host's `applyJsonFilter`
  becomes a log of submitted requests. `Valid()` is the class invariant: whenever a drop-down
  is shown, the latest request filters on its selected option, and the selected option is the
  remembered choice whenever that choice is among the options.

Two edge cases follow the code:

- A query name without `.` gives the **empty** table name. `indexOf` returns -1 and
  `substring(0, -1)` clamps that to 0. The result is not the whole name.
- An empty column does not get a filter. Setting `selectedIndex` to 0 on an empty `select` leaves it at -1, so
  `select.options[select.selectedIndex]` is undefined and line 72 throws
  after the container has been cleared. `Update` reports `NoOptionToSelect` in that case:
  nothing is shown, no listener is attached, no filter is submitted and the remembered choice
  is kept. The model does not require the column to be non-empty.

## Model

| member | source | states |
|---|---|---|
| JsBuiltins.FirstIndex | forcedSelectionSlicer/src/visual.ts:70 | -1 exactly when the element is absent; otherwise an index holding it with no earlier occurrence (findIndex with `===`, and `indexOf('.')` at line 89) |
| JsBuiltins.Substring | forcedSelectionSlicer/src/visual.ts:89 | in-range arguments give `s[start..end]`, and swapped in-range arguments give the same piece; two non-positive arguments, or two past the end, give the empty string; an end past the length reads to the end; the result is never longer than `s` |
| Filters.TableName | forcedSelectionSlicer/src/visual.ts:89 | with a `.` in the query name: the dot-free prefix that is followed by the first `.`; with none: the empty string |
| Filters.TableNameOfQualified | forcedSelectionSlicer/src/visual.ts:89 | parsing `<table>.<column>` gives back `<table>` whenever the table has no `.`, whatever the column part holds |
| Filters.TableNameExamples | forcedSelectionSlicer/src/visual.ts:89 | `"Table1.Column1"` gives `"Table1"`; `"Sales"` gives `""` |
| Filters.MakeFilter | forcedSelectionSlicer/src/visual.ts:84-97 | the request carries the single value `[value]`, targets column `displayName` and the table parsed from `queryName`, has the basic schema, type and operator "In", and is filed under "general"/"filter" with merge |
| Filters.MakeFilterAdmitsOnlyValue | forcedSelectionSlicer/src/visual.ts:85-96 | the submitted filter admits a cell exactly when it is in the source's table and column and equals the chosen value; it is filed under "general"/"filter" with merge |
| Selection.FindSelection | forcedSelectionSlicer/src/visual.ts:70 | non-negative exactly when a choice is remembered and present; then it is that choice's first position; an unset choice is never found |
| Selection.SelectIndex | forcedSelectionSlicer/src/visual.ts:70-71 | in range for a non-empty column; the first occurrence of the remembered choice when present (no later than any position holding it), index 0 otherwise |
| Selection.RerenderKeepsChoice | forcedSelectionSlicer/src/visual.ts:70-77 | after choosing option `i`, re-rendering the same values shows a copy of the chosen value, and shows option `i` itself exactly when no earlier option has that text |
| OptionText.TextOf | forcedSelectionSlicer/src/visual.ts:66 | what `option.text` reads back is normalised (no whitespace at either end, inner whitespace only as single spaces) and keeps every non-whitespace character of the written value, in order |
| OptionText.JoinedTextOf | forcedSelectionSlicer/src/visual.ts:66 | a run of whitespace between two words reads back as exactly one space, and each side reads back as it does on its own |
| OptionText.TextOfEnds | forcedSelectionSlicer/src/visual.ts:66 | whitespace runs before and after a text are dropped entirely, whatever they hold, and the text in between reads back as it does on its own |
| OptionText.NormalisedTextIsItself | forcedSelectionSlicer/src/visual.ts:66 | a value that is already normalised reads back unchanged, so for such values the option text and the column value agree |
| OptionText.TextOfIdempotent | forcedSelectionSlicer/src/visual.ts:66 | reading back text that was already read back changes nothing |
| OptionText.PaddedValueLosesSelection | forcedSelectionSlicer/src/visual.ts:66-77 | with values `["Green", " Red"]`, choosing `" Red"` remembers `"Red"`, and the next update selects index 0 |
| OptionText.RewrittenChoiceFallsBack | forcedSelectionSlicer/src/visual.ts:66-77 | as written, whenever the text read back for the chosen option is not itself one of the values, the next update selects index 0 |
| OptionText.RerenderKeepsNormalisedChoice | forcedSelectionSlicer/src/visual.ts:66-77 | as written, a chosen value that is already normalised is selected again by the next update of the same values |
| Slicer.Visual.constructor | forcedSelectionSlicer/src/visual.ts:48-52 | no choice remembered, nothing shown, no filter submitted |
| Slicer.Visual.FilterByValue | forcedSelectionSlicer/src/visual.ts:84-97 | appends exactly one request, `MakeFilter(source, value)`, to the host's log and changes nothing else |
| Slicer.Visual.Update | forcedSelectionSlicer/src/visual.ts:54-82 | establishes the invariant from any prior state and never changes the remembered choice; a non-empty column is shown as its values in order with `SelectIndex` selected and exactly one filter for the selected value appended; an empty column leaves nothing shown and no filter appended |
| Slicer.Visual.Change | forcedSelectionSlicer/src/visual.ts:75-79 | establishes the invariant; selects option `i`, remembers its text, and appends exactly one filter whose values are `[options[i]]` for the column the listener captured |
| Slicer.ChangeThenUpdate | forcedSelectionSlicer/src/visual.ts:70-79 | after a choice, a later update selects the chosen value's first occurrence if the new values hold it, index 0 if they do not, faults only on an empty column, and filters on what it selects |
| Slicer.RedGreenBlue | forcedSelectionSlicer/src/visual.ts:54-82 | `["Red","Green","Blue"]` on a fresh slicer shows those options with "Red" selected; after choosing "Blue" and an update to `["Red","Green"]`, "Red" is selected again; the log holds filters for Red, Blue and Red |

## Left out

- `forcedSelectionSlicer/.tmp/precompile/visualPlugin.ts` (plugin registration, `create`, `createModalDialog`): this is generated wiring into host globals and holds no logic of the visual.
- Formatting settings (`populateFormattingSettingsModel` at line 55, `getFormattingModel` at lines 103-105): these are pass-throughs to a formatting library that is not part of this model.
- The DOM calls (`innerHTML`, `createElement`, `add`, `addEventListener`, `appendChild`) are abstracted to the `Dropdown` value the container shows.
- Listeners of earlier drop-downs are not modelled. Each update detaches the previous `select`, so the user can only fire the listener of the drop-down on display. This is why `Change` requires a drop-down to be shown and `i` to be one of its options.
- The host's handling of a filter request (its effect on the report, and any failure it raises) is not modelled. Requests are only logged.
- A missing data view or category column (lines 57-58 would throw) is not modelled. `Update` takes the column's values and metadata as arguments.
- Column values are modelled as strings. The `toString()` of non-string values at line 66 is not modelled.
- JavaScript strings are UTF-16 code units and Dafny strings hold Unicode scalar values. Characters outside the Basic Multilingual Plane shift `indexOf`'s position but not the table name that `substring` returns.
- Slicer.Visual.Update, Slicer.Visual.Change, Slicer.ChangeThenUpdate and Selection.RerenderKeepsChoice: an option's text is taken to be its column value verbatim. This is the corrected behaviour of the finding below. Code as written remembers and filters on the whitespace-normalised text (`OptionText.TextOf`), so their stability claims hold for the code as written only for normalised values (`OptionText.RerenderKeepsNormalisedChoice`); for others it falls back to index 0 (`OptionText.RewrittenChoiceFallsBack`).
- Slicer.Visual.Change: it also accepts the option that is already selected and then submits a filter. A native `select` fires no change event when the selected option is picked again, so in the browser that call does not happen.

## Findings

| source | as written | input that shows it | evidently intended | confidence | as-written member | corrected member |
|---|---|---|---|---|---|---|
| forcedSelectionSlicer/src/visual.ts:66-77 | the remembered choice and the filter value are read back from `option.text`, which HTML returns with ASCII whitespace stripped and collapsed | column `["Green", " Red"]`, user picks `" Red"`: the filter value is `"Red"`, which the "In" filter's set-membership meaning (`Filters.Admits`) does not match to the cell `" Red"`, and the next update finds no value `=== "Red"` and selects `"Green"` | remember and filter on the column value itself, so a choice survives every re-render that still contains it | not executed; high (the HTML text getter strips and collapses whitespace) | OptionText.PaddedValueLosesSelection | Slicer.ChangeThenUpdate |
