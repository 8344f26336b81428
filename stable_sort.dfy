// The stable sort of the scratch array (`distances.sort_by(...)`).
//
// `update` in src/main.rs calls the standard library's stable sort. Every stable sort by
// key yields the same order, so the model uses insertion sort: `Insert`
// places an entry after every entry whose key is not greater than its own,
// which is exactly how the in-place loop shifts the larger entries right.

module StableSort {
  import opened Keys

  /** Keys never decrease along `s`. */
  ghost predicate Sorted(s: seq<Entry>)
  {
    forall p, q :: 0 <= p < q < |s| ==> KeyLe(s[p].0, s[q].0)
  }

  /** `a` comes strictly before `b` by key, then by index. */
  predicate Before(a: Entry, b: Entry)
  {
    KeyLt(a.0, b.0) || (a.0 == b.0 && a.1 < b.1)
  }

  /** Strictly ascending by (key, index): sorted, ties by ascending index. */
  ghost predicate LexSorted(s: seq<Entry>)
  {
    forall p, q :: 0 <= p < q < |s| ==> Before(s[p], s[q])
  }

  /** Among entries with equal keys, indices ascend along `s`. */
  ghost predicate IndexOrdered(s: seq<Entry>)
  {
    forall p, q :: 0 <= p < q < |s| && s[p].0 == s[q].0 ==> s[p].1 < s[q].1
  }

  /** Inserts `x` into `s` after every entry whose key is not greater than x's. */
  function Insert(s: seq<Entry>, x: Entry): (r: seq<Entry>)
    ensures |r| == |s| + 1
    ensures multiset(r) == multiset(s) + multiset{x}
  {
    if |s| == 0 || !KeyLt(x.0, s[|s| - 1].0) then s + [x]
    else
      assert s == s[..|s| - 1] + [s[|s| - 1]];
      Insert(s[..|s| - 1], x) + [s[|s| - 1]]
  }

  /** The stable sort by key, as insertion sort from left to right. */
  function InsSort(t: seq<Entry>): (r: seq<Entry>)
    ensures |r| == |t|
    ensures multiset(r) == multiset(t)
  {
    if |t| == 0 then []
    else
      assert t == t[..|t| - 1] + [t[|t| - 1]];
      Insert(InsSort(t[..|t| - 1]), t[|t| - 1])
  }

  lemma {:induction false} InsertSorted(s: seq<Entry>, x: Entry)
    requires Sorted(s)
    ensures Sorted(Insert(s, x))
  {
    if |s| == 0 || !KeyLt(x.0, s[|s| - 1].0) {
      forall p | 0 <= p < |s| ensures KeyLe(s[p].0, x.0) {
        KeyLeTotalOrder(s[p].0, s[|s| - 1].0, x.0);
      }
    } else {
      var init, last := s[..|s| - 1], s[|s| - 1];
      InsertSorted(init, x);
      var r := Insert(init, x);
      forall z: Entry | z in multiset(r) ensures KeyLe(z.0, last.0) {
        if z != x {
          assert z in multiset(init);
          var p :| 0 <= p < |init| && init[p] == z;
          assert s[p] == z;
        } else {
          KeyLeTotalOrder(x.0, last.0, last.0);
        }
      }
      forall p | 0 <= p < |r| ensures KeyLe(r[p].0, last.0) {
        assert r[p] in multiset(r);
      }
    }
  }

  /** The insertion sort orders its output by key. */
  lemma {:induction false} InsSortSorted(t: seq<Entry>)
    ensures Sorted(InsSort(t))
  {
    if |t| > 0 {
      InsSortSorted(t[..|t| - 1]);
      InsertSorted(InsSort(t[..|t| - 1]), t[|t| - 1]);
    }
  }

  lemma {:induction false} InsertLexSorted(s: seq<Entry>, x: Entry)
    requires LexSorted(s)
    requires forall z :: z in s && z.0 == x.0 ==> z.1 < x.1
    ensures LexSorted(Insert(s, x))
  {
    if |s| == 0 || !KeyLt(x.0, s[|s| - 1].0) {
      forall p | 0 <= p < |s| ensures Before(s[p], x) {
        var last := s[|s| - 1];
        if p < |s| - 1 {
          assert Before(s[p], last);
        }
        KeyLeTotalOrder(s[p].0, last.0, x.0);
        KeyLeTotalOrder(s[p].0, x.0, x.0);
        assert s[p] in s;
      }
    } else {
      var init, last := s[..|s| - 1], s[|s| - 1];
      forall z: Entry | z in init && z.0 == x.0 ensures z.1 < x.1 {
        assert z in s;
      }
      InsertLexSorted(init, x);
      var r := Insert(init, x);
      forall z: Entry | z in multiset(r) ensures Before(z, last) {
        if z != x {
          assert z in multiset(init);
          var p :| 0 <= p < |init| && init[p] == z;
          assert s[p] == z;
        }
      }
      forall p | 0 <= p < |r| ensures Before(r[p], last) {
        assert r[p] in multiset(r);
      }
    }
  }

  /**
   * Stability: when entries with equal keys arrive in ascending index order,
   * the sorted output is strictly ascending by (key, index).
   */
  lemma {:induction false} InsSortKeepsIndexOrder(t: seq<Entry>)
    requires IndexOrdered(t)
    ensures LexSorted(InsSort(t))
  {
    if |t| > 0 {
      var init, x := t[..|t| - 1], t[|t| - 1];
      InsSortKeepsIndexOrder(init);
      var s := InsSort(init);
      forall z: Entry | z in s && z.0 == x.0 ensures z.1 < x.1 {
        assert z in multiset(s);
        var p :| 0 <= p < |init| && init[p] == z;
        assert t[p] == z;
      }
      InsertLexSorted(s, x);
    }
  }

  /**
   * Where `Insert` puts an entry: after the prefix `s[..q]` whose last key it
   * does not undercut, before the suffix `s[q..]` of keys strictly greater.
   */
  lemma {:induction false} InsertSplit(s: seq<Entry>, q: nat, x: Entry)
    requires q <= |s| && (q == 0 || !KeyLt(x.0, s[q - 1].0))
    requires forall k :: q <= k < |s| ==> KeyLt(x.0, s[k].0)
    ensures Insert(s, x) == s[..q] + [x] + s[q..]
  {
    if q == |s| {
      assert s[..q] == s && s[q..] == [];
    } else {
      var init := s[..|s| - 1];
      InsertSplit(init, q, x);
      SplitStep(s, q, x, Insert(init, x));
    }
  }

  /** Putting the last entry back after a split of the rest splits the whole. */
  lemma SplitStep(s: seq<Entry>, q: nat, x: Entry, r: seq<Entry>)
    requires q < |s| && KeyLt(x.0, s[|s| - 1].0)
    requires r == s[..|s| - 1][..q] + [x] + s[..|s| - 1][q..]
    ensures r + [s[|s| - 1]] == s[..q] + [x] + s[q..]
  {
    assert s[..|s| - 1][..q] == s[..q];
    assert s[..|s| - 1][q..] + [s[|s| - 1]] == s[q..];
  }

  /** A sequence that agrees with `s` before `q`, holds `x` at `q` and `s` shifted after it. */
  lemma Spliced(b: seq<Entry>, s: seq<Entry>, q: nat, x: Entry)
    requires |b| == |s| + 1 && q <= |s|
    requires forall k :: 0 <= k < q ==> b[k] == s[k]
    requires b[q] == x
    requires forall k :: q < k < |b| ==> b[k] == s[k - 1]
    ensures b == s[..q] + [x] + s[q..]
  {
  }

  /**
   * The shifting loop of one sort step: moves the entries of `a[..p]` whose
   * key `x` undercuts one place right, from the end, and returns the gap.
   */
  method ShiftRight(a: array<Entry>, p: nat, x: Entry) returns (q: nat)
    requires p < a.Length
    modifies a
    ensures q <= p
    ensures q == 0 || !KeyLt(x.0, old(a[q - 1]).0)
    ensures forall k :: q <= k < p ==> KeyLt(x.0, old(a[k]).0)
    ensures forall k :: 0 <= k < q ==> a[k] == old(a[k])
    ensures forall k :: q < k <= p ==> a[k] == old(a[k - 1])
    ensures forall k :: p < k < a.Length ==> a[k] == old(a[k])
  {
    q := p;
    while q > 0 && KeyLt(x.0, a[q - 1].0)
      invariant q <= p
      invariant forall k :: 0 <= k < q ==> a[k] == old(a[k])
      invariant forall k :: q < k <= p ==> a[k] == old(a[k - 1])
      invariant forall k :: q <= k < p ==> KeyLt(x.0, old(a[k]).0)
      invariant forall k :: p < k < a.Length ==> a[k] == old(a[k])
    {
      a[q] := a[q - 1];
      q := q - 1;
    }
  }

  /**
   * One step of the sort: `a[..p]` is already sorted; shifts the entries of
   * `a[..p]` whose key is greater than `a[p]`'s one place right and drops
   * `a[p]` into the gap.
   */
  method InsertAt(a: array<Entry>, p: nat)
    requires p < a.Length
    modifies a
    ensures a[..p + 1] == Insert(old(a[..p]), old(a[p]))
    ensures forall k :: p < k < a.Length ==> a[k] == old(a[k])
  {
    ghost var s := a[..p];
    var x := a[p];
    var q := ShiftRight(a, p, x);
    a[q] := x;
    InsertSplit(s, q, x);
    Spliced(a[..p + 1], s, q, x);
  }

  /** Sorts `a` in place, stably by key. */
  method InsertionSort(a: array<Entry>)
    modifies a
    ensures a[..] == InsSort(old(a[..]))
  {
    ghost var input := a[..];
    for p := 0 to a.Length
      invariant a[..p] == InsSort(input[..p])
      invariant forall k :: p <= k < a.Length ==> a[k] == input[k]
    {
      assert input[..p + 1][..p] == input[..p];
      assert a[p] == input[p];
      InsertAt(a, p);
    }
    assert input[..a.Length] == input;
  }
}
