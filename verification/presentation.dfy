/** The render decisions of the table (src/components/generics/Table.js:195-329)
    that do not depend on the UI library: which header and body cells are laid
    out and with which column span, the style tags of rows and cells, the
    pagination footer and the loading overlay. */
module Presentation {
  import opened Options
  import opened Js
  import opened Filtering
  import opened Columns
  import opened Selection

  /** The layout of one cell position: skipped, or laid out with a column span. */
  datatype Span = Skip | ColSpan(width: Value)

  /** Span resolution at position `idx`: a position the span array has is
      skipped when its entry is falsy and spans that entry otherwise; a
      position past the end of the array spans one column. */
  function ResolveSpan(spans: seq<Value>, idx: nat): (s: Span)
    ensures s == Skip <==> idx < |spans| && !Truthy(spans[idx])
    ensures s.ColSpan? ==> Truthy(s.width)
    ensures s.ColSpan? && idx < |spans| ==> s.width == spans[idx]
    ensures idx >= |spans| ==> s == ColSpan(Num(1))
  {
    match At(spans, idx)
    case None => ColSpan(Num(1))
    case Some(w) => if Truthy(w) then ColSpan(w) else Skip
  }

  /** A laid-out cell: its column position and its column span. */
  datatype Slot = Slot(position: nat, width: Value)

  /** The value the `colSpan` of position `j` receives when it is laid out. */
  function WidthAt(spans: seq<Value>, j: nat): Value {
    if j < |spans| then spans[j] else Num(1)
  }

  predicate LaidOut(spans: seq<Value>, j: nat) {
    ResolveSpan(spans, j).ColSpan?
  }

  function LaidOutAt(spans: seq<Value>): nat -> bool {
    (j: nat) => LaidOut(spans, j)
  }

  /** Every position below `n`, with the span it would receive. */
  function AllSlots(spans: seq<Value>, n: nat): seq<Slot> {
    seq(n, (j: int) requires 0 <= j => Slot(j, WidthAt(spans, j)))
  }

  /** The cells of one row of `n` positions: the positions that are not skipped. */
  function Slots(spans: seq<Value>, n: nat): seq<Slot> {
    Filter(AllSlots(spans, n), LaidOutAt(spans))
  }

  /** A row lays out exactly its non-skipped positions, in increasing order,
      each with its resolved span. */
  lemma SlotsSpec(spans: seq<Value>, n: nat)
    ensures forall k :: 0 <= k < |Slots(spans, n)| ==>
              Slots(spans, n)[k].position < n &&
              ResolveSpan(spans, Slots(spans, n)[k].position) == ColSpan(Slots(spans, n)[k].width)
    ensures forall j: nat :: j < n && LaidOut(spans, j) ==> Slot(j, WidthAt(spans, j)) in Slots(spans, n)
    ensures forall p, q :: 0 <= p < q < |Slots(spans, n)| ==>
              Slots(spans, n)[p].position < Slots(spans, n)[q].position
  {
    var keep := LaidOutAt(spans);
    var all := AllSlots(spans, n);
    var r := Slots(spans, n);
    var ps := Positions(keep, 0, n);
    FilterFromSelects(all, keep, 0);
    PositionsSpec(keep, 0, n);
    assert forall k :: 0 <= k < |ps| ==> ps[k] in ps;
    forall j: nat | j < n && LaidOut(spans, j)
      ensures Slot(j, WidthAt(spans, j)) in r
    {
      assert keep(j);
      assert j in ps;
      var k :| 0 <= k < |ps| && ps[k] == j;
      assert r[k] == all[j];
    }
  }

  /** After hiding columns, the header at filtered position k is laid out with
      the span the caller declared for its own column, and so is the body cell. */
  lemma SpanFollowsColumn<X, F>(c: Config<X, F>, v: Visibility)
    ensures forall k :: 0 <= k < |ShownPositions(v, c.headers)| ==>
              && ResolveSpan(Filtered(c, v).headerSpans, k)
                   == ResolveSpan(c.headerSpans, ShownPositions(v, c.headers)[k])
              && ResolveSpan(Filtered(c, v).colSpans, k)
                   == ResolveSpan(c.colSpans, ShownPositions(v, c.headers)[k])
  {
    FilteredAligned(c, v);
  }

  /** The four row state predicates, each optional. */
  datatype Style = Locked | Highlighted | HighlightedAlt | Disabled

  datatype RowPredicates<!I> = RowPredicates(
    locked: Option<I -> bool>,
    highlighted: Option<I -> bool>,
    highlightedAlt: Option<I -> bool>,
    disabled: Option<I -> bool>)

  /** `!!pred && pred(item)`: an absent predicate never applies. */
  predicate Applies<I>(p: RowPredicates<I>, s: Style, item: I) {
    var pred := match s
      case Locked => p.locked
      case Highlighted => p.highlighted
      case HighlightedAlt => p.highlightedAlt
      case Disabled => p.disabled;
    pred.Some? && pred.value(item)
  }

  /** The precedence order in which the style classes are listed. */
  function Rank(s: Style): nat {
    match s
    case Locked => 0
    case Highlighted => 1
    case HighlightedAlt => 2
    case Disabled => 3
  }

  /** A style class of the table. */
  datatype Tag =
    | TableRow
    | RowStyle(style: Style)
    | Clickable
    | CellStyle(style: Style)
    | AlignTag(align: Align)

  /** The styles whose predicates hold for `item`, in precedence order. */
  function Styles<I>(p: RowPredicates<I>, item: I): (r: seq<Style>)
    ensures forall s :: s in r <==> Applies(p, s, item)
    ensures forall i, j :: 0 <= i < j < |r| ==> Rank(r[i]) < Rank(r[j])
  {
    (if Applies(p, Locked, item) then [Locked] else [])
    + (if Applies(p, Highlighted, item) then [Highlighted] else [])
    + (if Applies(p, HighlightedAlt, item) then [HighlightedAlt] else [])
    + (if Applies(p, Disabled, item) then [Disabled] else [])
  }

  /** Each style as a row class (`asCell` false) or as a cell class. */
  function StyleTags(ss: seq<Style>, asCell: bool): (r: seq<Tag>)
    ensures forall s :: RowStyle(s) in r <==> !asCell && s in ss
    ensures forall s :: CellStyle(s) in r <==> asCell && s in ss
    ensures forall t :: t in r ==> t.RowStyle? || t.CellStyle?
  {
    if |ss| == 0 then []
    else [if asCell then CellStyle(ss[0]) else RowStyle(ss[0])] + StyleTags(ss[1..], asCell)
  }

  /** The classes of a body row: the base row class, one class per applying
      style, and the clickable class when a double-click handler is given. */
  function RowTags<I>(p: RowPredicates<I>, item: I, doubleClick: bool): (r: seq<Tag>)
    ensures |r| > 0 && r[0] == TableRow
    ensures forall s :: RowStyle(s) in r <==> Applies(p, s, item)
    ensures Clickable in r <==> doubleClick
    ensures forall s :: CellStyle(s) !in r
  {
    [TableRow] + StyleTags(Styles(p, item), false)
    + (if doubleClick then [Clickable] else [])
  }

  /** The classes of a body cell at position `fidx`: one class per applying
      style, then the alignment class when the alignments array has that
      position and its entry there names one. */
  function CellTags<I>(p: RowPredicates<I>, item: I, aligns: seq<Option<Align>>, fidx: nat): (r: seq<Tag>)
    ensures forall s :: CellStyle(s) in r <==> Applies(p, s, item)
    ensures forall a :: AlignTag(a) in r <==> fidx < |aligns| && aligns[fidx] == Some(a)
    ensures TableRow !in r && Clickable !in r
  {
    StyleTags(Styles(p, item), true)
    + (if fidx < |aligns| && aligns[fidx].Some? then [AlignTag(aligns[fidx].value)] else [])
  }

  /** A row and each of its cells carry the same styles. */
  lemma RowAndCellStylesAgree<I>(p: RowPredicates<I>, item: I, doubleClick: bool, aligns: seq<Option<Align>>, fidx: nat)
    ensures forall s :: RowStyle(s) in RowTags(p, item, doubleClick) <==> CellStyle(s) in CellTags(p, item, aligns, fidx)
  {
  }

  /** A rendered body cell. */
  datatype Cell<F> = Cell(position: nat, colSpan: Value, tags: seq<Tag>, formatter: Formatter<F>)

  /** A rendered body row for the item at `index`. */
  datatype Row<I, F> = Row(item: I, index: nat, selected: bool, tags: seq<Tag>, cells: seq<Cell<F>>)

  /** The cells of the row of `item`: one per formatter position not skipped by `colSpans`. */
  function RowCells<I, X, F>(cols: Config<X, F>, p: RowPredicates<I>, item: I): (r: seq<Cell<F>>)
    ensures forall k :: 0 <= k < |r| ==>
              && r[k].position < |cols.formatters|
              && ResolveSpan(cols.colSpans, r[k].position) == ColSpan(r[k].colSpan)
              && r[k].formatter == cols.formatters[r[k].position]
              && r[k].tags == CellTags(p, item, cols.aligns, r[k].position)
    ensures forall p, q :: 0 <= p < q < |r| ==> r[p].position < r[q].position
    ensures |r| == |Slots(cols.colSpans, |cols.formatters|)|
    ensures forall k :: 0 <= k < |r| ==> r[k].position == Slots(cols.colSpans, |cols.formatters|)[k].position
  {
    var slots := Slots(cols.colSpans, |cols.formatters|);
    SlotsSpec(cols.colSpans, |cols.formatters|);
    seq(|slots|, k requires 0 <= k < |slots| =>
      Cell(slots[k].position, slots[k].width, CellTags(p, item, cols.aligns, slots[k].position),
           cols.formatters[slots[k].position]))
  }

  /** No formatter position that is not skipped is left out of a row. */
  lemma RowCellsComplete<I, X, F>(cols: Config<X, F>, p: RowPredicates<I>, item: I, j: nat)
    requires j < |cols.formatters| && LaidOut(cols.colSpans, j)
    ensures exists k :: 0 <= k < |RowCells(cols, p, item)| && RowCells(cols, p, item)[k].position == j
  {
    var slots := Slots(cols.colSpans, |cols.formatters|);
    SlotsSpec(cols.colSpans, |cols.formatters|);
    assert Slot(j, WidthAt(cols.colSpans, j)) in slots;
    var k :| 0 <= k < |slots| && slots[k] == Slot(j, WidthAt(cols.colSpans, j));
    assert RowCells(cols, p, item)[k].position == j;
  }

  /** When the formatters are shorter than the headers, the delete column sits
      at a position that `aligns` and `colSpans` still have. With headers H0, H1
      aligned left, right, spans 1, 0 and one formatter, the delete cell takes
      the right alignment, and its falsy span drops it from every row. */
  lemma ShortFormattersDeleteCell()
    ensures var c: Config<(), ()> := Config(None, ["H0", "H1"], [Some(Left), Some(Right)], [], [],
                                            [Num(1), Num(0)], [Declared(())]);
            var r := AppendDelete(Filtered(c, Visibility(None, "core")), true);
            var p: RowPredicates<()> := RowPredicates(None, None, None, None);
            && r.formatters == [Declared(()), DeleteTrigger]
            && CellTags(p, (), r.aligns, 1) == [AlignTag(Right)]
            && ResolveSpan(r.colSpans, 1) == Skip
            && forall k :: 0 <= k < |RowCells(r, p, ())| ==> RowCells(r, p, ())[k].position != 1
  {
    var c: Config<(), ()> := Config(None, ["H0", "H1"], [Some(Left), Some(Right)], [], [],
                                    [Num(1), Num(0)], [Declared(())]);
    var v := Visibility(None, "core");
    var keep := ShownAt(v, c.headers);
    assert keep(0) && keep(1);
    assert Filter(c.aligns, keep) == c.aligns;
    assert Filter(c.colSpans, keep) == c.colSpans;
    assert Filter(c.formatters, keep) == c.formatters;
    var p: RowPredicates<()> := RowPredicates(None, None, None, None);
    assert Styles(p, ()) == [];
  }

  /** The table body: one row per item, in order, when the items are present
      and non-empty; each row is marked selected exactly when `isSelected` holds. */
  function BodyRows<I, X, F>(items: Option<seq<I>>, cols: Config<X, F>, p: RowPredicates<I>, doubleClick: bool,
                             withSelection: Value, ident: Identity<I>, sel: map<string, I>): (r: seq<Row<I, F>>)
    ensures items.None? ==> r == []
    ensures items.Some? ==> |r| == |items.value|
    ensures items.Some? ==> forall k :: 0 <= k < |r| ==>
              && r[k].item == items.value[k] && r[k].index == k
              && r[k].selected == IsSelected(withSelection, ident, sel, items.value[k])
              && r[k].tags == RowTags(p, items.value[k], doubleClick)
              && r[k].cells == RowCells(cols, p, items.value[k])
  {
    if items.None? || |items.value| == 0 then []
    else
      var xs := items.value;
      seq(|xs|, k requires 0 <= k < |xs| =>
        Row(xs[k], k, IsSelected(withSelection, ident, sel, xs[k]), RowTags(p, xs[k], doubleClick),
            RowCells(cols, p, xs[k])))
  }

  /** The header row: laid out when there are headers, one cell per header
      position not skipped by `headerSpans`. */
  function HeaderRow<X, F>(cols: Config<X, F>): (r: Option<seq<Slot>>)
    ensures r.Some? <==> |cols.headers| > 0
    ensures r.Some? ==> r.value == Slots(cols.headerSpans, |cols.headers|)
  {
    if |cols.headers| > 0 then Some(Slots(cols.headerSpans, |cols.headers|)) else None
  }

  /** The pre-header row: laid out when pre-headers exist and are non-empty,
      sharing `headerSpans` with the header row. */
  function PreHeaderRow<X, F>(cols: Config<X, F>): (r: Option<seq<Slot>>)
    ensures r.Some? <==> cols.preHeaders.Some? && |cols.preHeaders.value| > 0
    ensures r.Some? ==> r.value == Slots(cols.headerSpans, |cols.preHeaders.value|)
  {
    if cols.preHeaders.Some? && |cols.preHeaders.value| > 0
    then Some(Slots(cols.headerSpans, |cols.preHeaders.value|))
    else None
  }

  /** The default `rowsPerPageOptions`. */
  function DefaultRowsPerPageOptions(): seq<Value> {
    [Num(10), Num(20), Num(50)]
  }

  /** `pageSize || rowsPerPageOptions[0]`, the options defaulting when absent. */
  function RowsPerPage(pageSize: Value, options: Option<seq<Value>>): (r: Value)
    ensures Truthy(pageSize) ==> r == pageSize
    ensures !Truthy(pageSize) && options.None? ==> r == Num(10)
    ensures !Truthy(pageSize) && options.Some? ==>
              r == (if |options.value| > 0 then options.value[0] else Undefined)
  {
    var opts := options.GetOr(DefaultRowsPerPageOptions());
    Or(pageSize, if |opts| > 0 then opts[0] else Undefined)
  }

  /** The paging control as the footer binds it. */
  datatype Pager = Pager(colSpan: nat, count: Value, page: Value, rowsPerPage: Value, options: seq<Value>)

  /** The footer: present exactly when `withPagination` and `count` are both
      truthy; the pager spans every body column, including a delete column. */
  function Footer<X, F>(withPagination: Value, count: Value, page: Value, pageSize: Value,
                        options: Option<seq<Value>>, cols: Config<X, F>): (r: Option<Pager>)
    ensures r.Some? <==> Truthy(withPagination) && Truthy(count)
    ensures r.Some? ==> r.value.colSpan == |cols.formatters| && r.value.count == count
    ensures r.Some? ==> r.value.page == (if page == Undefined then Num(0) else page)
    ensures r.Some? ==> r.value.rowsPerPage == RowsPerPage(pageSize, options)
  {
    if Truthy(withPagination) && Truthy(count) then
      Some(Pager(|cols.formatters|, count, Default(page, Num(0)), RowsPerPage(pageSize, options),
                 options.GetOr(DefaultRowsPerPageOptions())))
    else None
  }

  /** With a delete column, the pager spans the surviving declared columns and the delete column. */
  lemma PagerSpansDeleteColumn<X, F>(c: Config<X, F>, v: Visibility, count: Value, page: Value, pageSize: Value)
    requires Truthy(count)
    ensures Footer(Bool(true), count, page, pageSize, None, AppendDelete(Filtered(c, v), true)).value.colSpan
              == |Filtered(c, v).formatters| + 1
  {
  }

  /** The overlay over the table while fetching or on an error. */
  datatype Overlay = NoOverlay | Overlay(progress: Value, error: Value)

  /** `items?.length && fetching`. */
  function Progress<I>(items: Option<seq<I>>, fetching: Value): Value {
    match items
    case None => Undefined
    case Some(xs) => And(Num(|xs|), fetching)
  }

  /** The overlay is shown while fetching or on an error; its busy indicator
      is on only when there are items already and a fetch is in progress. */
  function LoadingOverlay<I>(fetching: Value, error: Value, items: Option<seq<I>>): (o: Overlay)
    ensures o.Overlay? <==> Truthy(fetching) || Truthy(error)
    ensures o.Overlay? ==> o.error == error
    ensures o.Overlay? ==> (Truthy(o.progress) <==> items.Some? && |items.value| > 0 && Truthy(fetching))
  {
    if Truthy(Or(fetching, error)) then Overlay(Progress(items, fetching), error) else NoOverlay
  }
}
