/** The table's selection state machine (src/components/generics/Table.js:64-128):
    a map from item identifier to item, seeded at mount, toggled by clicks,
    merged into by an edge-triggered select-all signal and emptied by an
    edge-triggered clear-all signal. Every mutation notifies the optional
    `onChangeSelection` observer with the values of the resulting map. */
module Selection {
  import opened Options
  import opened Js

  /** `withSelection`: falsy means no selection, `"multiple"` means several
      items, any other truthy value means one item per click. */
  datatype Mode = Off | Single | Multiple

  function ModeOf(withSelection: Value): (m: Mode)
    ensures m == Off <==> !Truthy(withSelection)
    ensures m == Multiple <==> withSelection == Str("multiple")
  {
    if !Truthy(withSelection) then Off
    else if withSelection == Str("multiple") then Multiple
    else Single
  }

  /** The identifier resolver: the caller's `itemIdentifier` when given,
      otherwise the item's `uuid` field. Identifiers are object keys, hence strings. */
  datatype Identity<!I> = Identity(itemIdentifier: Option<I -> string>, uuid: I -> string)

  /** `itemIdentifier(i)`: the caller's resolver when given, the `uuid` field otherwise. */
  function IdOf<I>(ident: Identity<I>, i: I): (id: string)
    ensures ident.itemIdentifier.Some? ==> id == ident.itemIdentifier.value(i)
    ensures ident.itemIdentifier.None? ==> id == ident.uuid(i)
  {
    match ident.itemIdentifier
    case Some(f) => f(i)
    case None => ident.uuid(i)
  }

  /** The identifiers of a list of items. */
  function Ids<I>(ident: Identity<I>, items: seq<I>): set<string> {
    set k | 0 <= k < |items| :: IdOf(ident, items[k])
  }

  /** No later item of `items` has the identifier of `items[k]`. */
  predicate LastWithId<I>(ident: Identity<I>, items: seq<I>, k: nat)
    requires k < |items|
  {
    forall j :: k < j < |items| ==> IdOf(ident, items[j]) != IdOf(ident, items[k])
  }

  /** The reduce of `_atom` over a present list: each item stored under its
      identifier, a later item overwriting an earlier one with the same identifier. */
  function Atomize<I>(ident: Identity<I>, items: seq<I>): (m: map<string, I>)
    ensures m.Keys == Ids(ident, items)
    ensures forall k :: 0 <= k < |items| && LastWithId(ident, items, k) ==>
              m[IdOf(ident, items[k])] == items[k]
  {
    if |items| == 0 then map[]
    else
      var init := items[..|items| - 1];
      var last := items[|items| - 1];
      assert forall k :: 0 <= k < |init| ==> init[k] == items[k];
      assert Ids(ident, items) == Ids(ident, init) + {IdOf(ident, last)};
      Atomize(ident, init)[IdOf(ident, last) := last]
  }

  /** `_atom(a)`: `false` (here `None`) for a missing list. */
  function Atom<I>(ident: Identity<I>, items: Option<seq<I>>): (m: Option<map<string, I>>)
    ensures m.Some? <==> items.Some?
    ensures items.Some? ==> m.value.Keys == Ids(ident, items.value)
  {
    if items.Some? then Some(Atomize(ident, items.value)) else None
  }

  /** The selection after mounting: seeded from the pre-selected items
      (`props.selection || []`) when selection is enabled, empty otherwise. */
  function Mount<I>(withSelection: Value, ident: Identity<I>, preselected: Option<seq<I>>): (m: map<string, I>)
    ensures !Truthy(withSelection) ==> m == map[]
    ensures Truthy(withSelection) ==> m.Keys == Ids(ident, preselected.GetOr([]))
    ensures Truthy(withSelection) ==>
              var ps := preselected.GetOr([]);
              forall k :: 0 <= k < |ps| && LastWithId(ident, ps, k) ==> m[IdOf(ident, ps[k])] == ps[k]
  {
    if Truthy(withSelection) then Atomize(ident, preselected.GetOr([])) else map[]
  }

  /** `isSelected`: selection is enabled and the item's identifier is selected. */
  function IsSelected<I>(withSelection: Value, ident: Identity<I>, sel: map<string, I>, item: I): (b: bool)
    ensures b <==> ModeOf(withSelection) != Off && IdOf(ident, item) in sel
  {
    Truthy(withSelection) && IdOf(ident, item) in sel
  }

  /** The selection change of one accepted click in an enabled mode. */
  function Toggle<I>(mode: Mode, ident: Identity<I>, sel: map<string, I>, item: I): (r: map<string, I>)
    requires mode != Off
    ensures IdOf(ident, item) in sel ==> r.Keys == sel.Keys - {IdOf(ident, item)}
    ensures IdOf(ident, item) !in sel && mode == Multiple ==> r.Keys == sel.Keys + {IdOf(ident, item)}
    ensures IdOf(ident, item) !in sel && mode == Single ==> r.Keys == {IdOf(ident, item)}
    ensures IdOf(ident, item) !in sel ==> r[IdOf(ident, item)] == item
    ensures forall k :: k in r && k != IdOf(ident, item) ==> k in sel && r[k] == sel[k]
  {
    var id := IdOf(ident, item);
    if id in sel then sel - {id}
    else if mode == Multiple then sel[id := item]
    else map[id := item]
  }

  /** The selection together with the payloads the observer received, one per
      call, each the set of selected items (`Object.values` of the map). */
  datatype Outcome<I> = Outcome(selection: map<string, I>, notified: seq<set<I>>)

  /** `times` notifications of the final selection, when there is an observer. */
  function Notify<I>(observer: bool, sel: map<string, I>, times: nat): (o: Outcome<I>)
    ensures o.selection == sel
    ensures |o.notified| == if observer then times else 0
    ensures forall k :: 0 <= k < |o.notified| ==> o.notified[k] == sel.Values
  {
    if !observer || times == 0 then Outcome(sel, [])
    else
      var rest := Notify(observer, sel, times - 1);
      Outcome(sel, rest.notified + [sel.Values])
  }

  /** `select(item, event)`: only a `"click"` event in an enabled mode changes
      the selection, and then the observer is called once. */
  function Select<I>(withSelection: Value, ident: Identity<I>, observer: bool,
                     sel: map<string, I>, item: I, eventType: string): (o: Outcome<I>)
    ensures eventType != "click" || !Truthy(withSelection) ==> o == Outcome(sel, [])
    ensures eventType == "click" && Truthy(withSelection) ==>
              && o.selection == Toggle(ModeOf(withSelection), ident, sel, item)
              && o.notified == if observer then [o.selection.Values] else []
  {
    if eventType != "click" || !Truthy(withSelection) then Outcome(sel, [])
    else Notify(observer, Toggle(ModeOf(withSelection), ident, sel, item), 1)
  }

  /** `_.merge(selection, _atom(items))` on keys: the incoming entries are added
      to the selection, nothing is removed, and a missing list merges nothing. */
  function Merge<I>(sel: map<string, I>, incoming: Option<map<string, I>>): (r: map<string, I>)
    ensures incoming.None? ==> r == sel
    ensures incoming.Some? ==> r.Keys == sel.Keys + incoming.value.Keys
    ensures incoming.Some? ==> forall k :: k in incoming.value ==> r[k] == incoming.value[k]
    ensures forall k :: k in sel ==> k in r
  {
    if incoming.Some? then sel + incoming.value else sel
  }

  /** The two edge-triggered signals among the props. */
  datatype Signals = Signals(selectAll: Value, clearAll: Value)

  predicate SelectAllFires(withSelection: Value, prev: Signals, cur: Signals) {
    Truthy(withSelection) && prev.selectAll != cur.selectAll
  }

  predicate ClearAllFires(withSelection: Value, prev: Signals, cur: Signals) {
    Truthy(withSelection) && prev.clearAll != cur.clearAll
  }

  /** `componentDidUpdate` as one synchronous step: the select-all merge of the
      current items, then the clear, each only on a change of its signal. The
      two state updates are batched, so every observer call made by the step
      sees its final selection. */
  function DidUpdate<I>(withSelection: Value, ident: Identity<I>, observer: bool, sel: map<string, I>,
                        prev: Signals, cur: Signals, items: Option<seq<I>>): (o: Outcome<I>)
    ensures !SelectAllFires(withSelection, prev, cur) && !ClearAllFires(withSelection, prev, cur) ==>
              o == Outcome(sel, [])
    ensures ClearAllFires(withSelection, prev, cur) ==> o.selection == map[]
    ensures SelectAllFires(withSelection, prev, cur) && !ClearAllFires(withSelection, prev, cur) ==>
              o.selection.Keys == sel.Keys + (if items.Some? then Ids(ident, items.value) else {})
    ensures |o.notified| == if observer then
              (if SelectAllFires(withSelection, prev, cur) then 1 else 0)
              + (if ClearAllFires(withSelection, prev, cur) then 1 else 0)
            else 0
    ensures forall k :: 0 <= k < |o.notified| ==> o.notified[k] == o.selection.Values
  {
    var selectAll := SelectAllFires(withSelection, prev, cur);
    var clearAll := ClearAllFires(withSelection, prev, cur);
    var merged := if selectAll then Merge(sel, Atom(ident, items)) else sel;
    var cleared := if clearAll then map[] else merged;
    Notify(observer, cleared, (if selectAll then 1 else 0) + (if clearAll then 1 else 0))
  }

  /** Items that are their own identifiers, for the worked scenarios. */
  function OwnIds(): Identity<string> {
    Identity(None, (s: string) => s)
  }

  /** In multiple mode, toggling the same item twice restores the selected
      identifiers, and restores the selection itself when the item was not selected. */
  lemma ToggleTwiceRestores<I>(ident: Identity<I>, sel: map<string, I>, item: I)
    ensures Toggle(Multiple, ident, Toggle(Multiple, ident, sel, item), item).Keys == sel.Keys
    ensures IdOf(ident, item) !in sel ==>
              Toggle(Multiple, ident, Toggle(Multiple, ident, sel, item), item) == sel
  {
    var id := IdOf(ident, item);
    if id !in sel {
      assert sel[id := item] - {id} == sel;
    }
  }

  /** In single mode, a selection of at most one item still has at most one after a click. */
  lemma SingleToggleAtMostOne<I>(ident: Identity<I>, sel: map<string, I>, item: I)
    requires |sel| <= 1
    ensures |Toggle(Single, ident, sel, item)| <= 1
    ensures IdOf(ident, item) !in sel ==> |Toggle(Single, ident, sel, item)| == 1
  {
    var id := IdOf(ident, item);
    if id in sel {
      assert |(sel - {id}).Keys| == |sel.Keys - {id}|;
    }
  }

  /** In single mode, a click on an unselected item leaves exactly that item
      selected, whatever the selection held before. */
  lemma SingleToggleAddsOne<I>(ident: Identity<I>, sel: map<string, I>, item: I)
    requires IdOf(ident, item) !in sel
    ensures Toggle(Single, ident, sel, item) == map[IdOf(ident, item) := item]
    ensures |Toggle(Single, ident, sel, item)| == 1
  {
  }

  /** Clicks on `items`, in order, in multiple mode. */
  function ClickAll<I>(ident: Identity<I>, sel: map<string, I>, items: seq<I>): map<string, I> {
    if |items| == 0 then sel
    else Toggle(Multiple, ident, ClickAll(ident, sel, items[..|items| - 1]), items[|items| - 1])
  }

  /** The identifiers of `items`, in order. */
  function IdSeq<I>(ident: Identity<I>, items: seq<I>): (r: seq<string>)
    ensures |r| == |items|
  {
    if |items| == 0 then [] else IdSeq(ident, items[..|items| - 1]) + [IdOf(ident, items[|items| - 1])]
  }

  /** The identifiers of a non-empty list end with those of its last item. */
  lemma IdSeqSnoc<I>(ident: Identity<I>, items: seq<I>)
    requires |items| > 0
    ensures IdSeq(ident, items) == IdSeq(ident, items[..|items| - 1]) + [IdOf(ident, items[|items| - 1])]
  {
  }

  /** A multiple-mode click flips the membership of the clicked identifier only. */
  lemma ToggleFlips<I>(ident: Identity<I>, sel: map<string, I>, item: I, id: string)
    ensures id in Toggle(Multiple, ident, sel, item) <==> (id in sel) != (id == IdOf(ident, item))
  {
  }

  /** Appending `x` adds one occurrence of `x` and none of anything else. */
  lemma CountAppend(ids: seq<string>, x: string, id: string)
    ensures multiset(ids + [x])[id] == multiset(ids)[id] + (if id == x then 1 else 0)
  {
    assert multiset(ids + [x]) == multiset(ids) + multiset{x};
  }

  /** One more click flips the parity of the click count exactly when it hits. */
  lemma ParityStep(wasIn: bool, isIn: bool, n: nat, hit: bool)
    requires isIn <==> (wasIn != (n % 2 == 1))
    ensures (isIn != hit) <==> (wasIn != ((n + (if hit then 1 else 0)) % 2 == 1))
  {
  }

  /** The last of a run of clicks flips the membership of its own identifier only. */
  lemma ClickStep<I>(ident: Identity<I>, sel: map<string, I>, items: seq<I>, id: string)
    requires |items| > 0
    ensures id in ClickAll(ident, sel, items) <==>
              (id in ClickAll(ident, sel, items[..|items| - 1])) != (id == IdOf(ident, items[|items| - 1]))
  {
    ToggleFlips(ident, ClickAll(ident, sel, items[..|items| - 1]), items[|items| - 1], id);
  }

  /** The last of a run of clicks adds one to its own identifier's click count only. */
  lemma CountStep<I>(ident: Identity<I>, items: seq<I>, id: string)
    requires |items| > 0
    ensures multiset(IdSeq(ident, items))[id] ==
              multiset(IdSeq(ident, items[..|items| - 1]))[id] + (if id == IdOf(ident, items[|items| - 1]) then 1 else 0)
  {
    IdSeqSnoc(ident, items);
    CountAppend(IdSeq(ident, items[..|items| - 1]), IdOf(ident, items[|items| - 1]), id);
  }

  /** In multiple mode an identifier is selected after a run of clicks exactly
      when it was selected before and was clicked an even number of times, or
      was not selected and was clicked an odd number of times. */
  lemma {:induction false} ClickParity<I>(ident: Identity<I>, sel: map<string, I>, items: seq<I>, id: string)
    ensures id in ClickAll(ident, sel, items) <==>
              ((id in sel) != (multiset(IdSeq(ident, items))[id] % 2 == 1))
  {
    if |items| > 0 {
      var init := items[..|items| - 1];
      ClickParity(ident, sel, init, id);
      ClickStep(ident, sel, items, id);
      CountStep(ident, items, id);
      ParityStep(id in sel, id in ClickAll(ident, sel, init), multiset(IdSeq(ident, init))[id],
                 id == IdOf(ident, items[|items| - 1]));
    }
  }

  /** From an empty selection, the selected identifiers are those clicked an odd number of times. */
  lemma ClicksFromEmpty<I>(ident: Identity<I>, items: seq<I>)
    ensures forall id :: id in ClickAll(ident, map[], items) <==> multiset(IdSeq(ident, items))[id] % 2 == 1
  {
    forall id {
      ClickParity(ident, map[], items, id);
    }
  }

  /** Single mode is not bounded by one entry: a select-all over two items
      with distinct identifiers selects both. */
  lemma SingleModeSelectAllUnbounded()
    ensures var ident := OwnIds();
            var o := DidUpdate(Bool(true), ident, true, map[], Signals(Bool(false), Null),
                               Signals(Bool(true), Null), Some(["a", "b"]));
            && ModeOf(Bool(true)) == Single
            && |o.selection| == 2
  {
    var ident := OwnIds();
    var m := Atomize(ident, ["a", "b"]);
    assert Ids(ident, ["a", "b"]) == {"a", "b"};
    assert m.Keys == {"a", "b"};
  }

  /** Both signals changing in one update: the merge is applied, then the clear,
      so the selection ends empty and an observer is called twice with no items. */
  lemma BothSignalsClear<I>(ident: Identity<I>, sel: map<string, I>, items: Option<seq<I>>, prev: Signals, cur: Signals)
    requires prev.selectAll != cur.selectAll && prev.clearAll != cur.clearAll
    ensures DidUpdate(Str("multiple"), ident, true, sel, prev, cur, items) == Outcome(map[], [{}, {}])
  {
    var o := DidUpdate(Str("multiple"), ident, true, sel, prev, cur, items);
    assert |o.notified| == 2 && o.notified[0] == {} && o.notified[1] == {};
  }

  /** Multiple mode: clicks on 1, 2, 1 leave 2 selected, and the observer's
      last call receives item 2 alone. */
  lemma MultipleScenario()
    ensures var ident := OwnIds();
            var o1 := Select(Str("multiple"), ident, true, map[], "1", "click");
            var o2 := Select(Str("multiple"), ident, true, o1.selection, "2", "click");
            var o3 := Select(Str("multiple"), ident, true, o2.selection, "1", "click");
            o3.selection == map["2" := "2"] && o3.notified == [{"2"}]
  {
    var ident := OwnIds();
    var o1 := Select(Str("multiple"), ident, true, map[], "1", "click");
    assert o1.selection == map["1" := "1"];
    var o2 := Select(Str("multiple"), ident, true, o1.selection, "2", "click");
    assert o2.selection == map["1" := "1", "2" := "2"];
    var o3 := Select(Str("multiple"), ident, true, o2.selection, "1", "click");
    assert o3.selection == map["2" := "2"];
    assert o3.selection.Values == {"2"};
  }

  /** Single mode: clicks on 1 then 2 leave 2 alone selected. */
  lemma SingleScenario()
    ensures var ident := OwnIds();
            var o1 := Select(Bool(true), ident, true, map[], "1", "click");
            var o2 := Select(Bool(true), ident, true, o1.selection, "2", "click");
            o2.selection == map["2" := "2"] && o2.notified == [{"2"}]
  {
    var ident := OwnIds();
    var o1 := Select(Bool(true), ident, true, map[], "1", "click");
    assert o1.selection == map["1" := "1"];
    var o2 := Select(Bool(true), ident, true, o1.selection, "2", "click");
    assert IdOf(ident, "2") == "2" && "2" !in o1.selection;
    assert o2.selection == map["2" := "2"];
    assert o2.selection.Values == {"2"};
  }
}
