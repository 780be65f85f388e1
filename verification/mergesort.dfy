/** `q_sort` and its `merge`: a stable bottom-up merge sort. The list is
    modelled as a sequence of runs; every node starts as a run of its own
    and each pass merges neighbouring runs until one run remains. */
module MergeSort {
  import opened Options
  import opened CStrings
  import opened Elements
  import opened Queues

  /** `merge(left, right)`: repeatedly take the front of `left` when
      `strcmp(left, right) <= 0` and the front of `right` otherwise; when
      one run is used up, splice on the rest of the other. */
  function Merge(l: Queue, r: Queue): (m: Queue)
    requires Present(l) && Present(r)
    ensures |m| == |l| + |r|
    ensures multiset(m) == multiset(l) + multiset(r)
    decreases |l| + |r|
  {
    if |l| == 0 then r
    else if |r| == 0 then l
    else if Strcmp(Key(l[0]), Key(r[0])) <= 0 then
      assert l == [l[0]] + l[1..];
      [l[0]] + Merge(l[1..], r)
    else
      assert r == [r[0]] + r[1..];
      [r[0]] + Merge(l, r[1..])
  }

  /** Every element of a rearrangement of present elements is present. */
  lemma PresentPermutation(a: Queue, b: Queue)
    requires Present(a) && multiset(b) <= multiset(a)
    ensures Present(b)
  {
    forall i | 0 <= i < |b|
      ensures b[i].value.Some?
    {
      assert b[i] in multiset(a);
    }
  }

  lemma MergePresent(l: Queue, r: Queue)
    requires Present(l) && Present(r)
    ensures Present(Merge(l, r))
  {
    PresentPermutation(l + r, Merge(l, r));
  }

  /** `m` is an interleaving of `l` and `r`: it takes all their elements
      and keeps the order within each of them. */
  ghost predicate Interleaving(m: Queue, l: Queue, r: Queue)
    decreases |m|
  {
    if |m| == 0 then l == [] && r == []
    else
      || (|l| > 0 && m[0] == l[0] && Interleaving(m[1..], l[1..], r))
      || (|r| > 0 && m[0] == r[0] && Interleaving(m[1..], l, r[1..]))
  }

  /** The merge keeps each input run's internal order. */
  lemma {:induction false} MergeInterleaves(l: Queue, r: Queue)
    requires Present(l) && Present(r)
    ensures Interleaving(Merge(l, r), l, r)
    decreases |l| + |r|
  {
    var m := Merge(l, r);
    if |l| == 0 {
      RunInterleaves(r, true);
    } else if |r| == 0 {
      RunInterleaves(l, false);
    } else if Strcmp(Key(l[0]), Key(r[0])) <= 0 {
      MergeInterleaves(l[1..], r);
      assert m[1..] == Merge(l[1..], r);
    } else {
      MergeInterleaves(l, r[1..]);
      assert m[1..] == Merge(l, r[1..]);
    }
  }

  /** A run interleaved with an empty run is itself. */
  lemma {:induction false} RunInterleaves(s: Queue, onRight: bool)
    ensures onRight ==> Interleaving(s, [], s)
    ensures !onRight ==> Interleaving(s, s, [])
    decreases |s|
  {
    if |s| > 0 {
      RunInterleaves(s[1..], onRight);
    }
  }

  /** `x`'s string is at most every string in `s`. */
  ghost predicate LeqAll(x: Element, s: Queue)
    requires x.value.Some? && Present(s)
  {
    forall j | 0 <= j < |s| :: Leq(Key(x), Key(s[j]))
  }

  lemma ConsSorted(x: Element, s: Queue)
    requires x.value.Some? && Present(s) && Sorted(s) && LeqAll(x, s)
    ensures Present([x] + s) && Sorted([x] + s)
  {
    var t := [x] + s;
    forall i, j | 0 <= i < j < |t|
      ensures Leq(Key(t[i]), Key(t[j]))
    {
      if i > 0 {
        assert t[i] == s[i - 1] && t[j] == s[j - 1];
      }
    }
  }

  /** A bound on both runs is a bound on their merge. */
  lemma LeqAllMerge(x: Element, l: Queue, r: Queue)
    requires x.value.Some? && Present(l) && Present(r)
    requires LeqAll(x, l) && LeqAll(x, r)
    ensures Present(Merge(l, r)) && LeqAll(x, Merge(l, r))
  {
    MergePresent(l, r);
    var m := Merge(l, r);
    forall j | 0 <= j < |m|
      ensures Leq(Key(x), Key(m[j]))
    {
      assert m[j] in multiset(l) + multiset(r);
      if m[j] in l {
        var p :| 0 <= p < |l| && l[p] == m[j];
      } else {
        var p :| 0 <= p < |r| && r[p] == m[j];
      }
    }
  }

  /** The first element of a sorted run bounds the run. */
  lemma SortedHead(s: Queue)
    requires Present(s) && Sorted(s) && |s| > 0
    ensures LeqAll(s[0], s[1..]) && LeqAll(s[0], s)
  {
    LeqReflexive(Key(s[0]));
  }

  /** Anything at most the first element of a sorted run bounds the run. */
  lemma BelowHead(x: Element, s: Queue)
    requires x.value.Some? && Present(s) && Sorted(s) && |s| > 0
    requires Leq(Key(x), Key(s[0]))
    ensures LeqAll(x, s)
  {
    SortedHead(s);
    forall j | 0 <= j < |s|
      ensures Leq(Key(x), Key(s[j]))
    {
      LeqTransitive(Key(x), Key(s[0]), Key(s[j]));
    }
  }

  /** Merging two sorted runs gives a sorted run. */
  lemma {:induction false} MergeSorted(l: Queue, r: Queue)
    requires Present(l) && Present(r) && Sorted(l) && Sorted(r)
    ensures Present(Merge(l, r)) && Sorted(Merge(l, r))
    decreases |l| + |r|
  {
    MergePresent(l, r);
    if |l| > 0 && |r| > 0 {
      if Strcmp(Key(l[0]), Key(r[0])) <= 0 {
        MergeSorted(l[1..], r);
        SortedHead(l);
        BelowHead(l[0], r);
        LeqAllMerge(l[0], l[1..], r);
        ConsSorted(l[0], Merge(l[1..], r));
      } else {
        StrcmpAntisymmetric(Key(l[0]), Key(r[0]));
        MergeSorted(l, r[1..]);
        SortedHead(r);
        BelowHead(r[0], l);
        LeqAllMerge(r[0], l, r[1..]);
        ConsSorted(r[0], Merge(l, r[1..]));
      }
    }
  }

  /** In a sorted run whose first string exceeds `v`, nothing holds `v`. */
  lemma AboveKey(s: Queue, v: Str)
    requires Present(s) && Sorted(s) && |s| > 0
    requires !Leq(Key(s[0]), v)
    ensures FilterKey(s, v) == []
  {
    forall i | 0 <= i < |s|
      ensures s[i].value != Some(v)
    {
      if i > 0 {
        assert Leq(Key(s[0]), Key(s[i]));
      }
    }
    FilterKeyEmpty(s, v);
  }

  /** Ties go to the left run: merging sorted runs puts, for every string,
      the left run's elements holding it before the right run's, each in
      their own order. */
  lemma {:induction false} MergeStable(l: Queue, r: Queue, v: Str)
    requires Present(l) && Present(r) && Sorted(l) && Sorted(r)
    ensures FilterKey(Merge(l, r), v) == FilterKey(l, v) + FilterKey(r, v)
    decreases |l| + |r|
  {
    if |l| == 0 {
      assert FilterKey(l, v) == [];
    } else if |r| == 0 {
      assert FilterKey(r, v) == [];
    } else if Strcmp(Key(l[0]), Key(r[0])) <= 0 {
      MergeStable(l[1..], r, v);
      assert Merge(l, r) == [l[0]] + Merge(l[1..], r);
    } else {
      MergeStable(l, r[1..], v);
      assert Merge(l, r) == [r[0]] + Merge(l, r[1..]);
      if r[0].value == Some(v) {
        AboveKey(l, v);
      }
    }
  }

  /** The runs laid end to end: the list the runs spell out. */
  function Flatten(runs: seq<Queue>): Queue {
    if |runs| == 0 then [] else runs[0] + Flatten(runs[1..])
  }

  predicate AllPresent(runs: seq<Queue>) {
    forall i | 0 <= i < |runs| :: Present(runs[i])
  }

  predicate AllSorted(runs: seq<Queue>)
    requires AllPresent(runs)
  {
    forall i | 0 <= i < |runs| :: Sorted(runs[i])
  }

  /** One pass of the driver's inner loop: merge runs 0 and 1, 2 and 3, and
      so on; an odd last run is carried over unmerged. */
  function MergePass(runs: seq<Queue>): (r: seq<Queue>)
    requires AllPresent(runs)
    ensures |r| == (|runs| + 1) / 2
    ensures AllPresent(r)
    ensures multiset(Flatten(r)) == multiset(Flatten(runs))
    decreases |runs|
  {
    if |runs| < 2 then runs
    else
      MergePresent(runs[0], runs[1]);
      var rest := MergePass(runs[2..]);
      var r := [Merge(runs[0], runs[1])] + rest;
      assert r[1..] == rest;
      assert runs[1..][1..] == runs[2..];
      r
  }

  /** A pass keeps every run sorted. */
  lemma {:induction false} MergePassSorted(runs: seq<Queue>)
    requires AllPresent(runs) && AllSorted(runs)
    ensures AllSorted(MergePass(runs))
    decreases |runs|
  {
    if |runs| >= 2 {
      MergePassSorted(runs[2..]);
      MergeSorted(runs[0], runs[1]);
      assert MergePass(runs)[1..] == MergePass(runs[2..]);
    }
  }

  /** The runs spelled out as the first two runs and the rest. */
  lemma FlattenTwo(runs: seq<Queue>)
    requires |runs| >= 2
    ensures Flatten(runs) == runs[0] + (runs[1] + Flatten(runs[2..]))
  {
    assert runs[1..][1..] == runs[2..];
  }

  /** A pass keeps every string's elements in their order. */
  lemma {:induction false} MergePassStable(runs: seq<Queue>, v: Str)
    requires AllPresent(runs) && AllSorted(runs)
    ensures FilterKey(Flatten(MergePass(runs)), v) == FilterKey(Flatten(runs), v)
    decreases |runs|
  {
    if |runs| >= 2 {
      assert AllPresent(runs[2..]) && AllSorted(runs[2..]);
      MergePassStable(runs[2..], v);
      MergeStable(runs[0], runs[1], v);
      PassFlatten(runs);
      FilterKeyAppend(Merge(runs[0], runs[1]), Flatten(MergePass(runs[2..])), v);
      FlattenTwo(runs);
      FilterKeyThree(runs[0], runs[1], Flatten(runs[2..]), v);
    }
  }

  /** The list a pass spells out: the first merged pair, then the rest. */
  lemma PassFlatten(runs: seq<Queue>)
    requires AllPresent(runs) && |runs| >= 2
    ensures AllPresent(runs[2..])
    ensures Flatten(MergePass(runs)) == Merge(runs[0], runs[1]) + Flatten(MergePass(runs[2..]))
  {
    assert AllPresent(runs[2..]);
    assert MergePass(runs)[1..] == MergePass(runs[2..]);
  }

  lemma FilterKeyThree(a: Queue, b: Queue, c: Queue, v: Str)
    ensures FilterKey(a + (b + c), v) == FilterKey(a, v) + FilterKey(b, v) + FilterKey(c, v)
  {
    FilterKeyAppend(a, b + c, v);
    FilterKeyAppend(b, c, v);
  }

  lemma FlattenOne(runs: seq<Queue>)
    requires |runs| == 1
    ensures Flatten(runs) == runs[0]
  {
    assert runs[0] + [] == runs[0];
  }

  /** Every node a run of its own: the state after the first loop of
      `q_sort` points each node's `prev` at itself. */
  function Singletons(q: Queue): (runs: seq<Queue>)
    ensures |runs| == |q|
    ensures forall i | 0 <= i < |q| :: runs[i] == [q[i]]
    ensures Flatten(runs) == q
  {
    if |q| == 0 then []
    else
      var rest := Singletons(q[1..]);
      assert ([[q[0]]] + rest)[1..] == rest;
      assert q == [q[0]] + q[1..];
      [[q[0]]] + rest
  }

  /** `q_sort`: stable ascending sort by `strcmp`. Lists of fewer than two
      nodes are left alone; otherwise passes merge neighbouring runs until
      one run remains. With two or more nodes every string reaches
      `strcmp`, so all must be present. */
  method Sort(h: Handle) returns (r: Handle)
    requires h.Some? && |h.value| >= 2 ==> Present(h.value)
    ensures h.None? ==> r == h
    ensures h.Some? && |h.value| <= 1 ==> r == h
    ensures h.Some? ==> r.Some? && |r.value| == |h.value|
    ensures h.Some? ==> multiset(r.value) == multiset(h.value)
    ensures h.Some? && |h.value| >= 2 ==> Present(r.value) && Sorted(r.value)
    ensures h.Some? && |h.value| >= 2 ==> Stable(h.value, r.value)
    ensures h.Some? && |h.value| >= 2 && Sorted(h.value) ==> r == h
  {
    if h.None? || |h.value| <= 1 {
      return h;
    }
    var q := h.value;
    var runs := Singletons(q);
    while |runs| > 1
      invariant |runs| >= 1
      invariant AllPresent(runs) && AllSorted(runs)
      invariant multiset(Flatten(runs)) == multiset(q)
      invariant Stable(q, Flatten(runs))
      decreases |runs|
    {
      MergePassSorted(runs);
      forall v
        ensures FilterKey(Flatten(MergePass(runs)), v) == FilterKey(q, v)
      {
        MergePassStable(runs, v);
      }
      runs := MergePass(runs);
    }
    var sorted := runs[0];
    FlattenOne(runs);
    assert |multiset(sorted)| == |multiset(q)|;
    r := Some(sorted);
    if Sorted(q) {
      SortedStableUnique(q, sorted);
    }
  }
}
