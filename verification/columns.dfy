/** The column configuration pipeline of the table's render pass
    (src/components/generics/Table.js:170-193): hidden columns are removed from
    every parallel column array, walking positions from last to first, and an
    optional synthetic delete column is appended. */
module Columns {
  import opened Options
  import opened Js
  import opened Filtering

  /** An alignment class of the table's theme. */
  datatype Align = Left | Right | Center

  /** A body-cell formatter: one the caller declared, or the synthetic one of
      the delete column that renders a delete trigger bound to the row index. */
  datatype Formatter<F> = Declared(f: F) | DeleteTrigger

  /** The parallel, index-aligned column arrays. `preHeaders` is `None` when the
      caller gave none; the other arrays default to empty. Spans are JavaScript
      values because only their truthiness and their value matter. An entry of
      `aligns` is `Some` alignment class, or `None` when it names none (a hole
      of a sparse array, `undefined`, `null`, `""` or another string). `X` is
      the caller's opaque `[onClick, renderAction]` header action pair. */
  datatype Config<X, F> = Config(
    preHeaders: Option<seq<string>>,
    headers: seq<string>,
    aligns: seq<Option<Align>>,
    headerSpans: seq<Value>,
    headerActions: seq<X>,
    colSpans: seq<Value>,
    formatters: seq<Formatter<F>>)

  /** The module visibility policy: the optional modules manager whose
      `hideField(module, key)` is consulted, and the table's module id. */
  datatype Visibility = Visibility(manager: Option<(string, string) -> bool>, moduleId: string)

  /** `modulesManager?.hideField(module, key)` is truthy; an absent manager hides nothing. */
  predicate Hidden(v: Visibility, key: string) {
    v.manager.Some? && v.manager.value(v.moduleId, key)
  }

  /** Position `j` of a parallel array survives filtering: it is past the end
      of `headers`, or the header there is not hidden. */
  predicate Shown(v: Visibility, headers: seq<string>, j: nat) {
    j >= |headers| || !Hidden(v, headers[j])
  }

  /** `Shown` as a position predicate for the generic filter. */
  function ShownAt(v: Visibility, headers: seq<string>): nat -> bool {
    (j: nat) => Shown(v, headers, j)
  }

  /** The declarative filter: every array keeps, in order, exactly its own
      positions `j` with `Shown(v, c.headers, j)`; a missing `preHeaders` stays missing. */
  function Filtered<X, F>(c: Config<X, F>, v: Visibility): Config<X, F> {
    var keep := ShownAt(v, c.headers);
    Config(
      if c.preHeaders.Some? then Some(Filter(c.preHeaders.value, keep)) else None,
      Filter(c.headers, keep),
      Filter(c.aligns, keep),
      Filter(c.headerSpans, keep),
      Filter(c.headerActions, keep),
      Filter(c.colSpans, keep),
      Filter(c.formatters, keep))
  }

  /** Column `i` spliced out of every array long enough to have it: the body
      of the loop for a hidden header. */
  function RemoveColumn<X, F>(c: Config<X, F>, i: nat): Config<X, F> {
    Config(
      if c.preHeaders.Some? then Some(Splice(c.preHeaders.value, i)) else None,
      Splice(c.headers, i),
      Splice(c.aligns, i),
      Splice(c.headerSpans, i),
      Splice(c.headerActions, i),
      Splice(c.colSpans, i),
      Splice(c.formatters, i))
  }

  /** The arrays after the loop has examined the positions `>= i`. */
  function PartialColumns<X, F>(c: Config<X, F>, keep: nat -> bool, i: nat): Config<X, F> {
    Config(
      if c.preHeaders.Some? then Some(Partial(c.preHeaders.value, keep, i)) else None,
      Partial(c.headers, keep, i),
      Partial(c.aligns, keep, i),
      Partial(c.headerSpans, keep, i),
      Partial(c.headerActions, keep, i),
      Partial(c.colSpans, keep, i),
      Partial(c.formatters, keep, i))
  }

  /** Before the loop every array is as the caller gave it. */
  lemma PartialColumnsStart<X, F>(c: Config<X, F>, v: Visibility)
    ensures PartialColumns(c, ShownAt(v, c.headers), |c.headers|) == c
  {
    var keep := ShownAt(v, c.headers);
    var n := |c.headers|;
    if c.preHeaders.Some? {
      PartialStart(c.preHeaders.value, keep, n);
    }
    PartialStart(c.headers, keep, n);
    PartialStart(c.aligns, keep, n);
    PartialStart(c.headerSpans, keep, n);
    PartialStart(c.headerActions, keep, n);
    PartialStart(c.colSpans, keep, n);
    PartialStart(c.formatters, keep, n);
  }

  /** One iteration: examining position `i - 1` removes that column exactly when it is not kept. */
  lemma PartialColumnsStep<X, F>(c: Config<X, F>, keep: nat -> bool, i: nat)
    requires 0 < i
    ensures PartialColumns(c, keep, i - 1) ==
              if keep(i - 1) then PartialColumns(c, keep, i)
              else RemoveColumn(PartialColumns(c, keep, i), i - 1)
  {
    if c.preHeaders.Some? {
      PartialStep(c.preHeaders.value, keep, i);
    }
    PartialStep(c.headers, keep, i);
    PartialStep(c.aligns, keep, i);
    PartialStep(c.headerSpans, keep, i);
    PartialStep(c.headerActions, keep, i);
    PartialStep(c.colSpans, keep, i);
    PartialStep(c.formatters, keep, i);
  }

  /** After the loop every array is fully filtered. */
  lemma PartialColumnsDone<X, F>(c: Config<X, F>, v: Visibility)
    ensures PartialColumns(c, ShownAt(v, c.headers), 0) == Filtered(c, v)
  {
    var keep := ShownAt(v, c.headers);
    if c.preHeaders.Some? {
      PartialDone(c.preHeaders.value, keep);
    }
    PartialDone(c.headers, keep);
    PartialDone(c.aligns, keep);
    PartialDone(c.headerSpans, keep);
    PartialDone(c.headerActions, keep);
    PartialDone(c.colSpans, keep);
    PartialDone(c.formatters, keep);
  }

  /** The reverse splice loop of the render pass, on copies of the arrays:
      for `i` from the last header position down to 0, a hidden header's
      position is spliced out of every array long enough to have it. */
  method FilterColumns<X, F>(c: Config<X, F>, v: Visibility) returns (r: Config<X, F>)
    ensures r == Filtered(c, v)
  {
    ghost var keep := ShownAt(v, c.headers);
    PartialColumnsStart(c, v);
    r := c;
    var i: nat := |c.headers|;
    while i > 0
      invariant i <= |c.headers|
      invariant r == PartialColumns(c, keep, i)
    {
      PartialColumnsStep(c, keep, i);
      i := i - 1;
      // The positions up to `i` are untouched, so the header examined is the caller's.
      assert r.headers[i] == c.headers[i];
      if Hidden(v, r.headers[i]) {
        r := RemoveColumn(r, i);
      }
    }
    PartialColumnsDone(c, v);
  }

  /** The positions of the caller's columns that survive filtering, in order. */
  function ShownPositions(v: Visibility, headers: seq<string>): seq<nat> {
    Positions(ShownAt(v, headers), 0, |headers|)
  }

  /** Every array of the filtered configuration is index-aligned with the
      caller's columns: at filtered position k each array holds its own entry
      for the k-th surviving column (or lacks one exactly when the caller's
      array was too short), whatever the arrays' lengths. */
  ghost predicate AlignedWith<X, F>(c: Config<X, F>, v: Visibility, r: Config<X, F>) {
    var ps := ShownPositions(v, c.headers);
    && |r.headers| == |ps|
    && (forall j: nat :: j in ps <==> j < |c.headers| && !Hidden(v, c.headers[j]))
    && (forall k :: 0 <= k < |ps| ==>
          && ps[k] < |c.headers|
          && r.headers[k] == c.headers[ps[k]]
          && At(r.aligns, k) == At(c.aligns, ps[k])
          && At(r.headerSpans, k) == At(c.headerSpans, ps[k])
          && At(r.headerActions, k) == At(c.headerActions, ps[k])
          && At(r.colSpans, k) == At(c.colSpans, ps[k])
          && At(r.formatters, k) == At(c.formatters, ps[k]))
    && (r.preHeaders.Some? <==> c.preHeaders.Some?)
    && (r.preHeaders.Some? ==> forall k :: 0 <= k < |ps| ==>
          At(r.preHeaders.value, k) == At(c.preHeaders.value, ps[k]))
  }

  /** The filter keeps every column array aligned with the caller's columns. */
  lemma FilteredAligned<X, F>(c: Config<X, F>, v: Visibility)
    ensures AlignedWith(c, v, Filtered(c, v))
  {
    var keep := ShownAt(v, c.headers);
    var n := |c.headers|;
    var ps := Positions(keep, 0, n);
    var r := Filtered(c, v);
    PositionsSpec(keep, 0, n);
    FilterFromSelects(c.headers, keep, 0);
    FilterAt(c.aligns, keep, n);
    FilterAt(c.headerSpans, keep, n);
    FilterAt(c.headerActions, keep, n);
    FilterAt(c.colSpans, keep, n);
    FilterAt(c.formatters, keep, n);
    if c.preHeaders.Some? {
      FilterAt(c.preHeaders.value, keep, n);
    }
  }

  /** Arrays that start as long as `headers` end as long as the filtered headers. */
  lemma FilteredEqualLengths<X, F>(c: Config<X, F>, v: Visibility)
    requires |c.aligns| == |c.headers| && |c.formatters| == |c.headers|
    ensures |Filtered(c, v).aligns| == |Filtered(c, v).headers|
    ensures |Filtered(c, v).formatters| == |Filtered(c, v).headers|
  {
    var keep := ShownAt(v, c.headers);
    FilterEqualLengths(c.aligns, c.headers, keep);
    FilterEqualLengths(c.formatters, c.headers, keep);
  }

  /** With a delete callback, the synthetic delete column is appended: an empty
      header (and an empty pre-header when pre-headers exist) and the delete
      trigger formatter. Alignments and spans are not extended. */
  function AppendDelete<X, F>(c: Config<X, F>, onDelete: bool): (r: Config<X, F>)
    ensures !onDelete ==> r == c
    ensures onDelete ==>
      && |r.headers| == |c.headers| + 1 && r.headers[..|c.headers|] == c.headers
      && r.headers[|c.headers|] == ""
      && |r.formatters| == |c.formatters| + 1 && r.formatters[..|c.formatters|] == c.formatters
      && r.formatters[|c.formatters|] == DeleteTrigger
      && (r.preHeaders.Some? <==> c.preHeaders.Some?)
      && (r.preHeaders.Some? ==>
            && |r.preHeaders.value| == |c.preHeaders.value| + 1
            && r.preHeaders.value[..|c.preHeaders.value|] == c.preHeaders.value
            && r.preHeaders.value[|c.preHeaders.value|] == "")
      && r.aligns == c.aligns && r.headerSpans == c.headerSpans
      && r.headerActions == c.headerActions && r.colSpans == c.colSpans
  {
    if !onDelete then c
    else c.(
      preHeaders := if c.preHeaders.Some? then Some(c.preHeaders.value + [""]) else None,
      headers := c.headers + [""],
      formatters := c.formatters + [DeleteTrigger])
  }

  /** The whole column pipeline of one render: filter, then append the delete column. */
  method PrepareColumns<X, F>(c: Config<X, F>, v: Visibility, onDelete: bool) returns (r: Config<X, F>)
    ensures r == AppendDelete(Filtered(c, v), onDelete)
    ensures !onDelete ==> AlignedWith(c, v, r)
    ensures onDelete ==> r.formatters[|r.formatters| - 1] == DeleteTrigger
  {
    FilteredAligned(c, v);
    var f := FilterColumns(c, v);
    r := AppendDelete(f, onDelete);
  }

  /** The example of a hidden middle column: headers H0, H1, H2 aligned left,
      right, center with H1 hidden become H0, H2 aligned left, center. */
  lemma HiddenMiddleColumn()
    ensures var c: Config<(), ()> := Config(None, ["H0", "H1", "H2"], [Some(Left), Some(Right), Some(Center)], [], [], [],
                                    [Declared(()), Declared(()), Declared(())]);
            var v := Visibility(Some((m: string, k: string) => k == "H1"), "core");
            && Filtered(c, v).headers == ["H0", "H2"]
            && Filtered(c, v).aligns == [Some(Left), Some(Center)]
  {
    var c: Config<(), ()> := Config(None, ["H0", "H1", "H2"], [Some(Left), Some(Right), Some(Center)], [], [], [],
                            [Declared(()), Declared(()), Declared(())]);
    var v := Visibility(Some((m: string, k: string) => k == "H1"), "core");
    var keep := ShownAt(v, c.headers);
    assert keep(0) && !keep(1) && keep(2);
    assert Filter(c.headers, keep) == ["H0", "H2"];
    assert Filter(c.aligns, keep) == [Some(Left), Some(Center)];
  }

  /** The caller's own arrays after one render as written: `aligns`,
      `headerSpans`, `headerActions` and `colSpans` are destructured from the
      props without a copy, so the splices of the loop shorten the caller's
      arrays, while `headers`, `preHeaders` and the formatters were copied. */
  function CallerAfterRender<X, F>(c: Config<X, F>, v: Visibility): (after: Config<X, F>)
    ensures after.headers == c.headers && after.preHeaders == c.preHeaders
    ensures after.formatters == c.formatters
    ensures after.aligns == Filtered(c, v).aligns
    ensures after.colSpans == Filtered(c, v).colSpans
    ensures after.headerSpans == Filtered(c, v).headerSpans
    ensures after.headerActions == Filtered(c, v).headerActions
  {
    var f := Filtered(c, v);
    c.(aligns := f.aligns, headerSpans := f.headerSpans,
       headerActions := f.headerActions, colSpans := f.colSpans)
  }

  /** Rendering twice with the same props, as written: the second render
      filters the already-filtered alignments again against the unfiltered
      headers. With H1 of H0, H1, H2 hidden, the second render shows H0, H2
      aligned left only, so H2 loses its own (center) alignment. */
  lemma RepeatedRenderMisaligns()
    ensures var c: Config<(), ()> := Config(None, ["H0", "H1", "H2"], [Some(Left), Some(Right), Some(Center)], [], [], [],
                                            [Declared(()), Declared(()), Declared(())]);
            var v := Visibility(Some((m: string, k: string) => k == "H1"), "core");
            var second := Filtered(CallerAfterRender(c, v), v);
            && second.headers == ["H0", "H2"]
            && second.aligns == [Some(Left)]
            && !AlignedWith(c, v, second)
  {
    var c: Config<(), ()> := Config(None, ["H0", "H1", "H2"], [Some(Left), Some(Right), Some(Center)], [], [], [],
                                    [Declared(()), Declared(()), Declared(())]);
    var v := Visibility(Some((m: string, k: string) => k == "H1"), "core");
    var keep := ShownAt(v, c.headers);
    assert keep(0) && !keep(1) && keep(2);
    assert Filter(c.aligns, keep) == [Some(Left), Some(Center)];
    var c1 := CallerAfterRender(c, v);
    assert c1.aligns == [Some(Left), Some(Center)];
    assert Filter(c1.headers, keep) == ["H0", "H2"];
    assert Filter(c1.aligns, keep) == [Some(Left)];
    var ps := ShownPositions(v, c.headers);
    assert ps == [0, 2];
    assert At(Filtered(c1, v).aligns, 1) == None != At(c.aligns, ps[1]);
  }
}
