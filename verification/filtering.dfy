/** Keeping the positions of a sequence that a predicate on POSITIONS (not on
    elements) retains. The widget uses it twice: hidden columns are dropped
    from every parallel column array by the same position predicate, and cells
    whose span is falsy are skipped when a row is laid out. */
module Filtering {
  import opened Options

  /** The positions `from <= j < n` retained by `keep`, in increasing order. */
  function Positions(keep: nat -> bool, from: nat, n: nat): seq<nat>
    decreases n - from
  {
    if from >= n then []
    else (if keep(from) then [from] else []) + Positions(keep, from + 1, n)
  }

  /** The elements of `a` at the positions `from <= j < |a|` that `keep` retains. */
  function FilterFrom<T>(a: seq<T>, keep: nat -> bool, from: nat): seq<T>
    decreases |a| - from
  {
    if from >= |a| then []
    else (if keep(from) then [a[from]] else []) + FilterFrom(a, keep, from + 1)
  }

  /** The elements of `a` whose positions `keep` retains, in their original order. */
  function Filter<T>(a: seq<T>, keep: nat -> bool): seq<T> {
    FilterFrom(a, keep, 0)
  }

  /** `a.splice(i, 1)` on a copy: position `i` is removed when it exists, and
      an array too short to have it is returned as it was. */
  function Splice<T>(a: seq<T>, i: nat): (r: seq<T>)
    ensures |r| == if i < |a| then |a| - 1 else |a|
    ensures forall j :: 0 <= j < |r| ==> r[j] == a[if j < i then j else j + 1]
  {
    if i < |a| then a[..i] + a[i + 1..] else a
  }

  /** `Positions` lists exactly the retained positions of the range, strictly
      increasing. */
  lemma {:induction false} PositionsSpec(keep: nat -> bool, from: nat, n: nat)
    ensures forall j :: j in Positions(keep, from, n) <==> from <= j < n && keep(j)
    ensures forall p, q :: 0 <= p < q < |Positions(keep, from, n)| ==>
              Positions(keep, from, n)[p] < Positions(keep, from, n)[q]
    decreases n - from
  {
    if from < n {
      PositionsSpec(keep, from + 1, n);
      var rest := Positions(keep, from + 1, n);
      var ps := Positions(keep, from, n);
      assert ps == (if keep(from) then [from] else []) + rest;
      forall p, q | 0 <= p < q < |ps|
        ensures ps[p] < ps[q]
      {
        if keep(from) {
          if p == 0 {
            assert ps[q] == rest[q - 1] && rest[q - 1] in rest;
          } else {
            assert ps[p] == rest[p - 1] && ps[q] == rest[q - 1];
          }
        }
      }
    }
  }

  /** Splitting the range `[from, n)` at `m` splits its retained positions. */
  lemma {:induction false} PositionsSplit(keep: nat -> bool, from: nat, m: nat, n: nat)
    requires from <= m <= n
    ensures Positions(keep, from, n) == Positions(keep, from, m) + Positions(keep, m, n)
    decreases m - from
  {
    if from < m {
      PositionsSplit(keep, from + 1, m, n);
    }
  }

  /** The filtered sequence is `a` read at the retained positions: its k-th
      element is the element of `a` at the k-th retained position. */
  lemma {:induction false} FilterFromSelects<T>(a: seq<T>, keep: nat -> bool, from: nat)
    ensures |FilterFrom(a, keep, from)| == |Positions(keep, from, |a|)|
    ensures forall k :: 0 <= k < |Positions(keep, from, |a|)| ==>
              Positions(keep, from, |a|)[k] < |a| &&
              FilterFrom(a, keep, from)[k] == a[Positions(keep, from, |a|)[k]]
    decreases |a| - from
  {
    if from < |a| {
      FilterFromSelects(a, keep, from + 1);
      PositionsSpec(keep, from + 1, |a|);
      var ps := Positions(keep, from + 1, |a|);
      assert forall k :: 0 <= k < |ps| ==> ps[k] in ps;
    }
  }

  /** Alignment across arrays of different lengths: with `ps` the positions of
      `[0, n)` retained by `keep`, the k-th element of ANY filtered array is
      that array's element at the original position `ps[k]` — or both are
      missing. `n` need not be the length of `a`. */
  lemma FilterAt<T>(a: seq<T>, keep: nat -> bool, n: nat)
    ensures forall k :: 0 <= k < |Positions(keep, 0, n)| ==>
              At(Filter(a, keep), k) == At(a, Positions(keep, 0, n)[k])
  {
    var ps := Positions(keep, 0, n);
    var pa := Positions(keep, 0, |a|);
    FilterFromSelects(a, keep, 0);
    if |a| <= n {
      PositionsSplit(keep, 0, |a|, n);
      PositionsSpec(keep, |a|, n);
      var tail := Positions(keep, |a|, n);
      assert ps == pa + tail;
      forall k | 0 <= k < |ps|
        ensures At(Filter(a, keep), k) == At(a, ps[k])
      {
        if k >= |pa| {
          assert ps[k] == tail[k - |pa|] && tail[k - |pa|] in tail;
        }
      }
    } else {
      PositionsSplit(keep, 0, n, |a|);
      assert pa == ps + Positions(keep, n, |a|);
    }
  }

  /** Filtering preserves equal lengths: arrays of one length stay of one length. */
  lemma FilterEqualLengths<T, U>(a: seq<T>, b: seq<U>, keep: nat -> bool)
    requires |a| == |b|
    ensures |Filter(a, keep)| == |Filter(b, keep)|
  {
    FilterFromSelects(a, keep, 0);
    FilterFromSelects(b, keep, 0);
  }

  /** The state of an array after the reverse splice loop has examined the
      positions `>= i`: the prefix before `i` is untouched, the rest filtered. */
  function Partial<T>(a: seq<T>, keep: nat -> bool, i: nat): seq<T> {
    if i < |a| then a[..i] + FilterFrom(a, keep, i) else a
  }

  /** Examining position `i - 1`: splice it out when `keep` drops it, leave the
      array alone otherwise. Either way the result is the state for `i - 1`. */
  lemma PartialStep<T>(a: seq<T>, keep: nat -> bool, i: nat)
    requires 0 < i
    ensures Partial(a, keep, i - 1) ==
              if keep(i - 1) then Partial(a, keep, i) else Splice(Partial(a, keep, i), i - 1)
  {
    var j := i - 1;
    if j < |a| {
      assert a[..j] + [a[j]] == a[..i];
      assert Partial(a, keep, i) == a[..i] + FilterFrom(a, keep, i);
      var p := Partial(a, keep, i);
      if !keep(j) {
        assert p[..j] == a[..j];
        assert p[j + 1..] == FilterFrom(a, keep, i);
      }
    }
  }

  /** Positions from `from` on that `keep` all retains are all kept. */
  lemma {:induction false} FilterFromKeepsAll<T>(a: seq<T>, keep: nat -> bool, from: nat)
    requires from <= |a|
    requires forall j: nat :: from <= j ==> keep(j)
    ensures FilterFrom(a, keep, from) == a[from..]
    decreases |a| - from
  {
    if from < |a| {
      FilterFromKeepsAll(a, keep, from + 1);
      assert a[from..] == [a[from]] + a[from + 1..];
    }
  }

  /** Before the loop has examined anything, an array whose positions from
      `n` on are all retained is its own partial state. */
  lemma PartialStart<T>(a: seq<T>, keep: nat -> bool, n: nat)
    requires forall j: nat :: n <= j ==> keep(j)
    ensures Partial(a, keep, n) == a
  {
    if n < |a| {
      FilterFromKeepsAll(a, keep, n);
      assert a[..n] + a[n..] == a;
    }
  }

  /** Once every position has been examined the array is fully filtered. */
  lemma PartialDone<T>(a: seq<T>, keep: nat -> bool)
    ensures Partial(a, keep, 0) == Filter(a, keep)
  {
    if 0 < |a| {
      assert a[..0] == [];
    }
  }
}
