# Table and form panel logic of openIMIS fe-core, in Dafny

This project models the logic inside two generic React components of the
openIMIS frontend core. The JSX around that logic is not modelled.

- **Table** (`src/components/generics/Table.js`):
  - the column pipeline of each render. Hidden columns are removed from up to
    seven parallel, index-aligned arrays, walking from the last position to the
    first. A synthetic delete column may then be appended.
  - the selection state machine. It is a map from item identifier to item. The
    identifier comes from the caller's `itemIdentifier`, or the item's `uuid`
    when none is given (`Selection.IdOf`). The map is seeded at mount, toggled
    by clicks, merged into by an edge-triggered select-all signal and emptied by
    an edge-triggered clear-all signal.
  - the render decisions: span resolution and cell skipping, row and cell style
    tags, effective page size, the pagination footer and the loading overlay.
- **FormPanel** (`src/components/generics/FormPanel.js`):
  - the attribute update fold (`updateAttributes` / `updateAttribute`);
  - the three-way reset decision of `_componentDidUpdate`;
  - mount seeding.

Files and modules:

| file | module | what it holds |
|---|---|---|
| `options.dfy` | `Options` | `Option`, and `At` (an array position that may be missing) |
| `js.dfy` | `Js` | JavaScript values, truthiness, value-returning `\|\|` and `&&`, destructuring defaults |
| `filtering.dfy` | `Filtering` | keeping the positions of a sequence that a position predicate keeps; the reverse splice loop's intermediate states |
| `columns.dfy` | `Columns` | column filtering and the delete column |
| `selection.dfy` | `Selection` | the selection state machine |
| `presentation.dfy` | `Presentation` | spans, style tags, rows, footer, overlay |
| `form_panel.dfy` | `FormPanel` | the form panel |

Modelling choices:

- JavaScript values are `Js.Value`. `!==` is datatype inequality. Objects and
  arrays are compared by a reference number.
- A missing `preHeaders` array or a missing `items` list is `None`.
- An `aligns` entry is `Some` alignment class, or `None` when it names none:
  a hole of a sparse array, `undefined`, `null`, `""` or an unknown string.
- `modulesManager?.hideField(module, key)` is an optional, uninterpreted
  predicate (`Columns.Visibility`). An absent modules manager hides nothing.
- Each lifecycle hook is one synchronous step. The result lists the payloads
  the `onChangeSelection` observer receives, one per call.
- An observer payload (`Object.values` of the map) is the set of selected items.

Behaviours of the code that a reader might not expect, which the model keeps:

- Single-selection mode is bounded only for clicks
  (`Selection.SingleToggleAtMostOne`). Mount seeding and select-all can put
  several items into a single-mode selection
  (`Selection.SingleModeSelectAllUnbounded`).
- When both signals change in one update, the two state updates are batched.
  The observer is then called twice, both times with the final, empty
  selection (`Selection.BothSignalsClear`).
- The delete column extends only the headers, the pre-headers and the
  formatters. It sits at the position just past the filtered formatters. So it
  takes the `aligns` and `colSpans` entries there whenever those arrays are
  longer than the filtered formatters: an array longer than the headers, or
  formatters shorter than the headers. A falsy span there drops the delete
  cell from every row (`Presentation.ShortFormattersDeleteCell`).

## Model

| member | source | states |
|---|---|---|
| `Filtering.Splice` | src/components/generics/Table.js:176-182 | `splice(i, 1)` on a copy removes position i when the array has it. Otherwise the array is unchanged, which is also what the `length > i` guards achieve. |
| `Filtering.FilterAt` | src/components/generics/Table.js:173-184 | Take the columns kept out of the first n positions. The k-th element of any filtered array is that array's element at the k-th kept position, or both are missing, whatever the array's length. |
| `Columns.FilterColumns` | src/components/generics/Table.js:170-184 | The reverse splice loop over copies of all seven arrays equals the declarative filter. Each array keeps, in order, exactly its positions j with j ≥ \|headers\| or headers[j] not hidden. |
| `Columns.FilteredAligned` | src/components/generics/Table.js:173-184 | After filtering, every array is index-aligned with the caller's columns. Position k of each array holds that array's entry for the k-th surviving column, whatever the arrays' lengths. The surviving columns are exactly the unhidden ones. |
| `Columns.FilteredEqualLengths` | src/components/generics/Table.js:173-184 | Alignments and formatters that start as long as the headers end as long as the filtered headers. |
| `Columns.AppendDelete` | src/components/generics/Table.js:185-193 | With `onDelete`, headers and formatters grow by exactly one trailing entry: an empty header and the delete trigger. So do pre-headers when they exist. Earlier entries are unchanged, and alignments, spans and actions are not extended. Without `onDelete`, nothing changes. |
| `Columns.PrepareColumns` | src/components/generics/Table.js:170-193 | One render's column pipeline is filtering followed by the delete column. Without a delete column the result is aligned with the caller's columns. With one, the last formatter is the delete trigger. |
| `Columns.HiddenMiddleColumn` | src/components/generics/Table.js:174-184 | Headers H0, H1, H2 aligned left, right, center, with H1 hidden, become H0, H2 aligned left, center. |
| `Columns.CallerAfterRender` | src/components/generics/Table.js:147-180 | As written, one render leaves the caller's `aligns` and `colSpans` (and `headerSpans`, `headerActions`) filtered in place. The caller's `headers`, `preHeaders` and formatters are untouched copies. |
| `Columns.RepeatedRenderMisaligns` | src/components/generics/Table.js:177-180 | As written, a second render of the same props filters the already-filtered alignments again. H2 then loses its alignment, so the result is no longer aligned with the caller's columns. |
| `Selection.IdOf` | src/components/generics/Table.js:100-106 | An item's identifier is the caller's `itemIdentifier` result when one is given, and the item's `uuid` field otherwise. |
| `Selection.ModeOf` | src/components/generics/Table.js:113-121 | The selection mode is off exactly when `withSelection` is falsy, and multiple exactly when it is the string `"multiple"`. Any other truthy value means single. |
| `Selection.Atomize` | src/components/generics/Table.js:68-73 | The map built by `_atom` has exactly the identifiers of the items as keys. Each identifier maps to the last item that carries it. |
| `Selection.Atom` | src/components/generics/Table.js:68-73 | A missing list gives no map (`false`). A present list gives a map keyed by its items' identifiers. |
| `Selection.Mount` | src/components/generics/Table.js:75-81 | At mount, an enabled selection holds exactly the pre-selected items' identifiers, with the last item per identifier. A disabled selection stays empty. |
| `Selection.IsSelected` | src/components/generics/Table.js:108 | An item is selected iff selection is enabled and its identifier is a key. With selection off, it is never selected. |
| `Selection.Toggle` | src/components/generics/Table.js:114-122 | A selected identifier is removed and no other key changes. An unselected one is added to the others in multiple mode. In single mode it replaces the whole map by a singleton. |
| `Selection.Select` | src/components/generics/Table.js:110-128 | A non-click event, or a click with selection off, changes nothing and notifies no one. A click in an enabled mode toggles the item and calls the observer, if any, exactly once with the resulting items. |
| `Selection.Notify` | src/components/generics/Table.js:123-126 | Each observer call receives the items of the final selection. There is no call without an observer. |
| `Selection.Merge` | src/components/generics/Table.js:87 | Select-all is additive. The keys become the old keys plus the incoming ones, and no selected key is lost. A missing list merges nothing. |
| `Selection.DidUpdate` | src/components/generics/Table.js:83-98 | With no signal change, nothing changes and no one is notified. A clear-all change empties the selection. A select-all change alone gives the old keys plus the items' identifiers. Each fired signal calls the observer once, with the final selection. |
| `Selection.ToggleTwiceRestores` | src/components/generics/Table.js:116-119 | In multiple mode, two clicks on the same item restore the set of selected identifiers. If the item was not selected, they restore the selection itself. |
| `Selection.SingleToggleAtMostOne` | src/components/generics/Table.js:116-122 | In single mode, a selection of at most one entry still has at most one after a click. A click that adds an item leaves exactly one. |
| `Selection.SingleToggleAddsOne` | src/components/generics/Table.js:116-122 | In single mode, a click on an unselected item leaves exactly that item selected, whatever the selection held before. |
| `Selection.ClickParity` | src/components/generics/Table.js:116-119 | In multiple mode, after any run of clicks an identifier is selected iff its initial membership differs from whether it was clicked an odd number of times. |
| `Selection.ClicksFromEmpty` | src/components/generics/Table.js:116-119 | Starting from an empty multiple-mode selection, the selected identifiers are exactly those clicked an odd number of times. |
| `Selection.SingleModeSelectAllUnbounded` | src/components/generics/Table.js:84-90 | A select-all in single mode over two items with distinct identifiers leaves two entries selected. |
| `Selection.BothSignalsClear` | src/components/generics/Table.js:84-97 | When both signals change in one update, the merge is followed by the clear. The selection ends empty, and the observer is called twice with no items. |
| `Selection.MultipleScenario` | src/components/generics/Table.js:110-128 | In multiple mode, clicks on 1, 2, 1 leave only 2 selected, and the last observer call receives item 2 alone. |
| `Selection.SingleScenario` | src/components/generics/Table.js:110-128 | In single mode, clicks on 1 then 2 leave only 2 selected. |
| `Presentation.ResolveSpan` | src/components/generics/Table.js:209-212 | A position is skipped iff the span array has it and the entry there is falsy. A laid-out position spans that entry, or 1 past the array's end, and its span is always truthy. |
| `Presentation.SlotsSpec` | src/components/generics/Table.js:282-286 | A row lays out exactly its non-skipped positions, in increasing order, each with its resolved span. |
| `Presentation.SpanFollowsColumn` | src/components/generics/Table.js:177-180 | After filtering, header and body cells at filtered position k resolve to the span the caller declared for the k-th surviving column. |
| `Presentation.Styles` | src/components/generics/Table.js:274-277 | The styles of a row are exactly those whose predicate is given and holds for the item. They are listed in the order locked, highlighted, highlighted-alt, disabled. |
| `Presentation.RowTags` | src/components/generics/Table.js:272-279 | A row carries the base row class first, a row class for each applying style, and the clickable class iff a double-click handler is given. |
| `Presentation.CellTags` | src/components/generics/Table.js:287-293 | A cell carries a cell class for each applying style. It carries the alignment class a iff the alignments array has its position and the entry there names a. An entry that names no alignment class adds none. |
| `Presentation.RowAndCellStylesAgree` | src/components/generics/Table.js:272-293 | A row and each of its cells carry the same styles. |
| `Presentation.RowCells` | src/components/generics/Table.js:281-299 | A row has one cell per non-skipped formatter position, in increasing order. Each cell has that position's span, formatter and cell classes. |
| `Presentation.RowCellsComplete` | src/components/generics/Table.js:282-284 | No non-skipped formatter position is left out of a row. |
| `Presentation.ShortFormattersDeleteCell` | src/components/generics/Table.js:185-193 | With headers H0, H1 aligned left, right, spans 1, 0 and one formatter, the delete column lands at position 1. Its cell takes the right alignment, its span there is falsy, and no row lays it out. |
| `Presentation.BodyRows` | src/components/generics/Table.js:263-301 | There is one row per item, in order, or none for a missing list. Each row is marked selected iff `isSelected` holds for its item. |
| `Presentation.HeaderRow` | src/components/generics/Table.js:223-229 | The header row exists iff there are headers. It lays out the header positions not skipped by `headerSpans`. |
| `Presentation.PreHeaderRow` | src/components/generics/Table.js:205-212 | The pre-header row exists iff pre-headers exist and are non-empty. It shares `headerSpans` with the header row. |
| `Presentation.RowsPerPage` | src/components/generics/Table.js:195 | The effective page size is a truthy `pageSize`. Otherwise it is the first row-count option, which is 10 when the options are not given and undefined when they are empty. |
| `Presentation.Footer` | src/components/generics/Table.js:303-319 | The footer exists iff `withPagination` and `count` are both truthy. The pager spans every formatter column and gets the count, the page (default 0) and the effective page size. |
| `Presentation.PagerSpansDeleteColumn` | src/components/generics/Table.js:308 | With a delete column, the pager spans the surviving declared formatters plus one. |
| `Presentation.LoadingOverlay` | src/components/generics/Table.js:324-326 | The overlay is shown iff `fetching` or `error` is truthy, and it carries the error. Its busy indicator is on iff the items are present, non-empty and a fetch is in progress. |
| `FormPanel.UpdateAttributes` | src/components/generics/FormPanel.js:30-37 | The map passed to `onEditedChanged` has each key written by an update set to what the last update writing it wrote: `v` under `attr`, `s` under `attr + "_str"`. Every other key keeps its value from the panel's data. |
| `FormPanel.UpdateAttribute` | src/components/generics/FormPanel.js:39 | A single attribute update writes `v` under `attr` and `s` under `attr + "_str"` into a copy of the data. |
| `FormPanel.LastWriteAppend` | src/components/generics/FormPanel.js:32-35 | Updates applied later win wherever they write. |
| `FormPanel.UpdateNotOverwritten` | src/components/generics/FormPanel.js:32-35 | If no later update writes an update's two keys, they end with its value and display string. |
| `FormPanel.DidUpdate` | src/components/generics/FormPanel.js:13-24 | Leaving a record or a change of `reset` replaces the data by `edited` and answers true. Otherwise the answer is true iff `edited` is not deeply equal to the previous one. A true answer replaces the data, and a false one keeps it. |
| `FormPanel.Mount` | src/components/generics/FormPanel.js:9-11 | At mount, the data is the `edited` prop. |
| `FormPanel.MountSettled` | src/components/generics/FormPanel.js:9-24 | Right after mount, an update with the same props keeps the mounted data and reports no change, when deep equality is reflexive. |
| `FormPanel.SamePropsKeepData` | src/components/generics/FormPanel.js:13-24 | An update with unchanged props keeps the data, including edits, when deep equality is reflexive. |
| `FormPanel.ResetSettles` | src/components/generics/FormPanel.js:13-24 | After any update, a further update with the same props does not reset again. |

## Left out

- Rendering: JSX and Material-UI output, and `clsx` class strings. Styles are modelled as tag sequences only. Also left out: the theme styles (Table.js:26-61), the title (Table.js:198-203), header cell contents, cursor, click handler and `justifyContent` (Table.js:230-255), the pre-header cells' alignment class (Table.js:213), `headerAction` boxes (Table.js:130-136), the row `href` built from `process.env.PUBLIC_URL`, and the table `size`. They decide presentation only.
- Label resolution (`FormattedMessage`, `formatMessage`, `formatMessageWithValues`). It is an external collaborator.
- Function-valued headers (Table.js:243-246). Headers are strings here, and a function header's rendering has no modellable behaviour.
- Invoking the callbacks `onDoubleClick`, `onDelete(idx)`, `onChangePage` and `onChangeRowsPerPage`. The model records only which handlers and formatters are bound (`Clickable`, `DeleteTrigger`).
- React scheduling. Each lifecycle hook is one synchronous step. The two batched updates of `componentDidUpdate` are applied in order before any observer call.
- The order of `Object.values`. Payloads are sets of items, so duplicate values under different keys are not counted.
- Selection.Merge: lodash `_.merge` deep-merges the fields of an item whose identifier is already selected. The model keeps only the key and stores the incoming item.
- The in-place mutation of the current selection object (`delete s[id]` at Table.js:117, and `_.merge` into `state.selection`). The model works on values.
- The in-place splicing of the caller's `aligns`, `headerSpans`, `headerActions` and `colSpans`. It is logged under Findings. The rest of the model filters copies.
- Columns.CallerAfterRender: treats the four caller arrays as distinct objects. When one array is passed as two of them (say as both `headerSpans` and `colSpans`), Table.js:178 and 180 splice it twice per hidden column. With headers H0, H1, H2, H1 hidden and one shared span array `[1,2,3]`, the source leaves `[1]`, and the model gives `[1,3]` for each.
- Presentation.CellTags: an `aligns` entry that is a string naming another class of the theme (such as `"clickable"`) adds that class in the source (`classes[aligns[fidx]]`, Table.js:292). The model treats every such entry as naming no class (`None`).
- Selection.IsSelected: the model tests key membership (`id in sel`), while the source tests `!!selection[id]`. The two agree when identifiers are own keys that are not `Object.prototype` names (such as `"constructor"` or `"__proto__"`) and every selected item is truthy. Prototype lookups and falsy items are not modelled.
- Selection.Toggle: the same restriction on identifiers applies to the `!!s[id]` test at Table.js:116, and `s[id] = i` with `id` equal to `"__proto__"` is not modelled as a prototype write.
- Selection.Atomize: `m[id] = i` with `id` equal to `"__proto__"` (Table.js:71) sets the prototype in the source and is modelled as an ordinary key.
- FormPanel.UpdateAttributes: `data[attr] = v` with `attr` equal to `"__proto__"` is modelled as an ordinary key write.
- Absent or `null` array props. `itemFormatters` has no default, so a missing or `null` one throws at Table.js:172. The other defaults (`= []`, and `= [10, 20, 50]` for `rowsPerPageOptions`) replace only `undefined`. A `null` `aligns`, `headerSpans`, `headerActions` or `colSpans` throws when a line reading its `length` runs: Table.js:213, 240 and 292 for `aligns`, 209, 212, 227 and 229 for `headerSpans`, 234, 236 and 253 for `headerActions`, and 283 and 286 for `colSpans`. A `null` `rowsPerPageOptions` throws at Table.js:195 when `pageSize` is falsy. The types here require arrays, so these throws are not modelled. A missing `headers` array is modelled as an empty one, as the source treats it.
- JavaScript numbers are integers here: no fractions and no `NaN`. Spans, counts and page sizes are only tested for truthiness or passed through.
- FormPanel deep equality (`_.isEqual`, FormPanel.js:19) is a parameter. `_` is not imported in that file, so what it resolves to is outside this model.
- The FormPanel `componentDidUpdate` wrapper (FormPanel.js:26-28). It only calls the modelled decision and drops its answer.

## Findings

| source | as written | input that shows it | evidently intended | confidence | as-written member | corrected member |
|---|---|---|---|---|---|---|
| src/components/generics/Table.js:177-180 | `aligns`, `headerSpans`, `headerActions` and `colSpans` are destructured from the props without a copy and spliced in place, while `headers`, `preHeaders` and formatters are copied | headers `["H0","H1","H2"]`, aligns `[left,right,center]`, `H1` hidden, the same props rendered twice: the second render shows H0, H2 with aligns `[left]` | filter copies of every array, so each render of the same props yields the same aligned columns | medium to high (shows on any re-render with the same props object; for a table with `withSelection`, the `setState` of `componentDidMount` at Table.js:77 re-renders right after mount, and so does the `setState` after a row click at Table.js:123, so the caller's arrays are filtered a second time before any click); not executed | `Columns.RepeatedRenderMisaligns` | `Columns.FilteredAligned` |
