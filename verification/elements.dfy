/** Queue elements (`element_t`), their allocation, and the order and
    filters on sequences of elements that the editing and sorting
    operations are specified with. */
module Elements {
  import opened Options
  import opened CStrings

  /** One queue node: `id` is the node's address, which tells apart
      elements holding equal strings; `value` is its owned copy of a
      string, or NULL. */
  datatype Element = Element(id: nat, value: Option<Str>)

  /** `element_new(s)`. `node` is what the first `malloc` returned (None
      when it failed) and `bufferOk` whether the second `malloc`, for the
      string copy, succeeded. A NULL `s` needs no second allocation. The
      copy is `strncpy` of `strlen(s) + 1` bytes into the new buffer. */
  function ElementNew(s: Option<Str>, node: Option<nat>, bufferOk: bool): (e: Option<Element>)
    ensures e.Some? <==> node.Some? && (s.None? || bufferOk)
    ensures e.Some? ==> e.value.id == node.value && e.value.value == s
  {
    if node.None? then None
    else if s.None? then Some(Element(node.value, None))
    else if !bufferOk then None
    else
      StrncpyRoundTrip(s.value);
      Some(Element(node.value, Some(ReadStr(Strncpy(s.value, |s.value| + 1)))))
  }

  /** The addresses of a sequence of elements. */
  function Ids(q: seq<Element>): set<nat> {
    set i | 0 <= i < |q| :: q[i].id
  }

  /** No node appears twice in the list. */
  predicate DistinctIds(q: seq<Element>) {
    forall i, j | 0 <= i < j < |q| :: q[i].id != q[j].id
  }

  /** Every element carries a string, so `strcmp` may be applied to it. */
  predicate Present(q: seq<Element>) {
    forall i | 0 <= i < |q| :: q[i].value.Some?
  }

  function Key(e: Element): Str
    requires e.value.Some?
  {
    e.value.value
  }

  /** Non-decreasing by `strcmp`. */
  predicate Sorted(q: seq<Element>)
    requires Present(q)
  {
    forall i, j | 0 <= i < j < |q| :: Leq(Key(q[i]), Key(q[j]))
  }

  /** The elements whose string equals `v`, in list order. */
  function FilterKey(q: seq<Element>, v: Str): (f: seq<Element>)
    ensures |f| <= |q|
    ensures forall i | 0 <= i < |f| :: f[i].value == Some(v)
    ensures multiset(f) <= multiset(q)
  {
    if |q| == 0 then []
    else
      assert q == [q[0]] + q[1..];
      (if q[0].value == Some(v) then [q[0]] else []) + FilterKey(q[1..], v)
  }

  /** Equal strings keep their relative order: for every string, the
      elements holding it form the same subsequence in `q` and `r`. */
  ghost predicate Stable(q: seq<Element>, r: seq<Element>) {
    forall v :: FilterKey(r, v) == FilterKey(q, v)
  }

  lemma {:induction false} FilterKeyAppend(a: seq<Element>, b: seq<Element>, v: Str)
    ensures FilterKey(a + b, v) == FilterKey(a, v) + FilterKey(b, v)
  {
    if |a| == 0 {
      assert a + b == b;
    } else {
      assert (a + b)[0] == a[0] && (a + b)[1..] == a[1..] + b;
      FilterKeyAppend(a[1..], b, v);
    }
  }

  /** The filter for `v` is empty exactly when no element holds `v`. */
  lemma {:induction false} FilterKeyEmpty(q: seq<Element>, v: Str)
    ensures FilterKey(q, v) == [] <==> forall i | 0 <= i < |q| :: q[i].value != Some(v)
  {
    if |q| > 0 {
      FilterKeyEmpty(q[1..], v);
      assert forall i | 1 <= i < |q| :: q[i] == q[1..][i - 1];
    }
  }

  lemma HeadInOwnFilter(q: seq<Element>)
    ensures |q| > 0 && q[0].value.Some? ==> FilterKey(q, q[0].value.value) != []
  {}

  /** In a sorted list, the first element's string is at most any string
      that occurs in it. */
  lemma SortedFirstLeq(q: seq<Element>, v: Str)
    requires Present(q) && Sorted(q)
    requires FilterKey(q, v) != []
    ensures |q| > 0 && Leq(Key(q[0]), v)
  {
    FilterKeyEmpty(q, v);
    var j :| 0 <= j < |q| && q[j].value == Some(v);
    if j == 0 {
      LeqReflexive(v);
    }
  }

  /** Two lists that are both sorted and agree on every key's subsequence
      are the same list: a sorted, stable rearrangement is unique. */
  lemma {:induction false} SortedStableUnique(a: seq<Element>, b: seq<Element>)
    requires Present(a) && Present(b) && Sorted(a) && Sorted(b)
    requires Stable(a, b)
    ensures a == b
    decreases |a| + |b|
  {
    HeadInOwnFilter(a);
    HeadInOwnFilter(b);
    if |a| > 0 && |b| > 0 {
      SameHead(a, b);
      forall v
        ensures FilterKey(a[1..], v) == FilterKey(b[1..], v)
      {
        var h := if a[0].value == Some(v) then [a[0]] else [];
        assert FilterKey(a, v) == h + FilterKey(a[1..], v);
        assert FilterKey(b, v) == h + FilterKey(b[1..], v);
        assert FilterKey(a[1..], v) == FilterKey(a, v)[|h|..];
        assert FilterKey(b[1..], v) == FilterKey(b, v)[|h|..];
      }
      SortedStableUnique(a[1..], b[1..]);
      assert a == [a[0]] + a[1..] && b == [b[0]] + b[1..];
    }
  }

  lemma SameHead(a: seq<Element>, b: seq<Element>)
    requires Present(a) && Present(b) && Sorted(a) && Sorted(b)
    requires Stable(a, b)
    requires |a| > 0 && |b| > 0
    ensures a[0] == b[0]
  {
    var ka, kb := Key(a[0]), Key(b[0]);
    assert FilterKey(a, ka) != [];
    SortedFirstLeq(b, ka);
    assert FilterKey(b, kb) != [];
    SortedFirstLeq(a, kb);
    LeqAntisymmetric(ka, kb);
    assert FilterKey(a, ka)[0] == a[0];
    assert FilterKey(b, ka) == FilterKey(a, ka);
  }
}
