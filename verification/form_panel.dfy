/** The form panel's local copy of the edited record
    (src/components/generics/FormPanel.js): seeded from the `edited` prop,
    reset when the props say so, and updated attribute by attribute, each
    update writing the value and its display string. */
module FormPanel {
  import opened Options
  import opened Js

  /** A record as a string-keyed object. */
  type Data = map<string, Value>

  /** One update `{ attr, v, s }`: the new value and its display string. */
  datatype AttrUpdate = AttrUpdate(attr: string, v: Value, s: Value)

  /** The key that holds the display string of `attr`. */
  function StrKey(attr: string): (k: string)
    ensures k != attr
  {
    attr + "_str"
  }

  /** `{ ...data }`: a missing record spreads to the empty object. */
  function Spread(d: Option<Data>): Data {
    d.GetOr(map[])
  }

  /** What the last update of `us` that writes `key` writes there, if any. */
  function LastWrite(us: seq<AttrUpdate>, key: string): Option<Value> {
    if |us| == 0 then None
    else
      var u := us[|us| - 1];
      if key == StrKey(u.attr) then Some(u.s)
      else if key == u.attr then Some(u.v)
      else LastWrite(us[..|us| - 1], key)
  }

  /** `updateAttributes(updates)`: a copy of the panel's data with every
      update applied in order; the result is what `onEditedChanged` receives,
      once, and the panel's own data is left as it was. A key ends with the
      value of the last update writing it, or keeps its value from the data. */
  method UpdateAttributes(data: Option<Data>, us: seq<AttrUpdate>) returns (edited: Data)
    ensures forall key :: key in edited <==> key in Spread(data) || LastWrite(us, key).Some?
    ensures forall key :: LastWrite(us, key).Some? ==> edited[key] == LastWrite(us, key).value
    ensures forall key :: key in Spread(data) && LastWrite(us, key).None? ==> edited[key] == Spread(data)[key]
  {
    edited := Spread(data);
    var i := 0;
    while i < |us|
      invariant i <= |us|
      invariant forall key :: key in edited <==> key in Spread(data) || LastWrite(us[..i], key).Some?
      invariant forall key :: LastWrite(us[..i], key).Some? ==> edited[key] == LastWrite(us[..i], key).value
      invariant forall key :: key in Spread(data) && LastWrite(us[..i], key).None? ==>
                  edited[key] == Spread(data)[key]
    {
      var u := us[i];
      assert us[..i + 1][..i] == us[..i] && us[..i + 1][i] == u;
      edited := edited[u.attr := u.v];
      edited := edited[StrKey(u.attr) := u.s];
      i := i + 1;
    }
    assert us[..|us|] == us;
  }

  /** `updateAttribute(attr, v, s)`: the single update `{ attr, v, s }`. */
  method UpdateAttribute(data: Option<Data>, attr: string, v: Value, s: Value) returns (edited: Data)
    ensures edited == Spread(data)[attr := v][StrKey(attr) := s]
  {
    edited := UpdateAttributes(data, [AttrUpdate(attr, v, s)]);
    var expected := Spread(data)[attr := v][StrKey(attr) := s];
    assert forall key :: LastWrite([AttrUpdate(attr, v, s)], key)
                           == (if key == StrKey(attr) then Some(s) else if key == attr then Some(v) else None);
    assert edited.Keys == expected.Keys;
  }

  /** The updates of `b`, applied after those of `a`, win wherever they write. */
  lemma {:induction false} LastWriteAppend(a: seq<AttrUpdate>, b: seq<AttrUpdate>, key: string)
    ensures LastWrite(a + b, key) == if LastWrite(b, key).Some? then LastWrite(b, key) else LastWrite(a, key)
  {
    if |b| > 0 {
      var ab := a + b;
      assert ab[|ab| - 1] == b[|b| - 1];
      assert ab[..|ab| - 1] == a + b[..|b| - 1];
      LastWriteAppend(a, b[..|b| - 1], key);
    } else {
      assert a + b == a;
    }
  }

  /** An update that no later update overwrites decides its two keys. */
  lemma UpdateNotOverwritten(a: seq<AttrUpdate>, u: AttrUpdate, b: seq<AttrUpdate>)
    requires LastWrite(b, u.attr).None? && LastWrite(b, StrKey(u.attr)).None?
    ensures LastWrite(a + [u] + b, u.attr) == Some(u.v)
    ensures LastWrite(a + [u] + b, StrKey(u.attr)) == Some(u.s)
  {
    LastWriteAppend(a + [u], b, u.attr);
    LastWriteAppend(a + [u], b, StrKey(u.attr));
    assert (a + [u])[..|a + [u]| - 1] == a;
  }

  /** The props the reset decision reads. */
  datatype Props = Props(editedId: Value, reset: Value, edited: Option<Data>)

  /** The decision of `_componentDidUpdate`: the panel's data afterwards and
      whether it was reset. */
  datatype Decision = Decision(data: Option<Data>, changed: bool)

  /** Leaving a record (`edited_id` from truthy to falsy) or a change of the
      `reset` signal. */
  predicate ForcedReset(prev: Props, cur: Props) {
    (Truthy(prev.editedId) && !Truthy(cur.editedId)) || prev.reset != cur.reset
  }

  /** `_componentDidUpdate`: a forced reset, or an `edited` prop that is not
      deeply equal to the previous one, replaces the data by the new `edited`
      and answers true; otherwise the data is kept and the answer is false.
      Deep equality is the caller's `deepEqual`. */
  function DidUpdate(prev: Props, cur: Props, data: Option<Data>,
                     deepEqual: (Option<Data>, Option<Data>) -> bool): (r: Decision)
    ensures ForcedReset(prev, cur) ==> r == Decision(cur.edited, true)
    ensures !ForcedReset(prev, cur) ==> (r.changed <==> !deepEqual(prev.edited, cur.edited))
    ensures r.changed ==> r.data == cur.edited
    ensures !r.changed ==> r.data == data
  {
    if ForcedReset(prev, cur) then Decision(cur.edited, true)
    else if !deepEqual(prev.edited, cur.edited) then Decision(cur.edited, true)
    else Decision(data, false)
  }

  /** `componentDidMount`: the data is seeded with the `edited` prop. */
  function Mount(props: Props): (data: Option<Data>)
    ensures data == props.edited
  {
    props.edited
  }

  /** A panel just mounted is settled: an update with the same props keeps the
      mounted data and does not report a change, when deep equality is reflexive. */
  lemma MountSettled(props: Props, deepEqual: (Option<Data>, Option<Data>) -> bool)
    requires deepEqual(props.edited, props.edited)
    ensures DidUpdate(props, props, Mount(props), deepEqual) == Decision(props.edited, false)
  {
  }

  /** An update whose props did not change keeps the panel's data, edits
      included, provided deep equality is reflexive on the record. */
  lemma SamePropsKeepData(props: Props, data: Option<Data>, deepEqual: (Option<Data>, Option<Data>) -> bool)
    requires deepEqual(props.edited, props.edited)
    ensures DidUpdate(props, props, data, deepEqual) == Decision(data, false)
  {
  }

  /** Once the data has been reset to a new record, a further update with the
      same props leaves it alone: a reset is not repeated. */
  lemma ResetSettles(prev: Props, cur: Props, data: Option<Data>, deepEqual: (Option<Data>, Option<Data>) -> bool)
    requires deepEqual(cur.edited, cur.edited)
    ensures var d := DidUpdate(prev, cur, data, deepEqual);
            DidUpdate(cur, cur, d.data, deepEqual) == Decision(d.data, false)
  {
  }
}
