/** The linear-time editing operations: delete the middle element, delete
    every duplicated string, swap adjacent pairs, and reverse. */
module Edits {
  import opened Options
  import opened CStrings
  import opened Elements
  import opened Queues

  /** The fast/slow pointer walk of `q_delete_mid` over a list of `n`
      nodes. Positions 0 .. n-1 are the nodes and position n is the
      sentinel; `fast` moves two links per step and `slow` one. */
  method MiddleIndex(n: nat) returns (slow: nat)
    requires n >= 1
    ensures slow < n
    ensures slow == n / 2
  {
    var fast := 0;
    slow := 0;
    while fast != n && fast + 1 != n
      invariant fast == 2 * slow <= n
      decreases n - fast
    {
      slow := slow + 1;
      fast := fast + 2;
    }
  }

  /** `q_delete_mid`: unlink and release the node at 0-based index
      floor(n / 2). */
  method DeleteMid(h: Handle) returns (r: Status)
    ensures r.ok <==> h.Some? && |h.value| > 0
    ensures !r.ok ==> r.queue == h
    ensures r.ok ==> r.queue.Some? && |r.queue.value| == |h.value| - 1
    ensures r.ok ==> var q, k := h.value, |h.value| / 2;
                     && r.queue.value == q[..k] + q[k + 1..]
                     && multiset(r.queue.value) + multiset{q[k]} == multiset(q)
  {
    if h.None? || |h.value| == 0 {
      return Status(false, h);
    }
    var q := h.value;
    var k := MiddleIndex(|q|);
    assert q == q[..k] + [q[k]] + q[k + 1..];
    r := Status(true, Some(q[..k] + q[k + 1..]));
  }

  /** The `match` flag of `q_delete_dup` at node `i`: its successor is not
      the sentinel and holds an equal string. */
  predicate DupWithNext(q: Queue, i: nat)
    requires i < |q|
    requires |q| >= 2 ==> Present(q)
  {
    i + 1 < |q| && Strcmp(Key(q[i]), Key(q[i + 1])) == 0
  }

  /** Node `i` survives `q_delete_dup` iff it equals neither of its
      neighbours in the original list. */
  predicate KeepAt(q: Queue, i: nat)
    requires i < |q|
    requires |q| >= 2 ==> Present(q)
  {
    !DupWithNext(q, i) && !(i > 0 && DupWithNext(q, i - 1))
  }

  /** The survivors among the first `n` nodes, in list order. */
  function SurvivorsUpTo(q: Queue, n: nat): (s: Queue)
    requires n <= |q|
    requires |q| >= 2 ==> Present(q)
    ensures |s| <= n
    ensures forall i | 0 <= i < |s| :: s[i] in q[..n]
  {
    if n == 0 then []
    else SurvivorsUpTo(q, n - 1) + (if KeepAt(q, n - 1) then [q[n - 1]] else [])
  }

  function Survivors(q: Queue): Queue
    requires |q| >= 2 ==> Present(q)
  {
    SurvivorsUpTo(q, |q|)
  }

  /** `q_delete_dup`: one forward pass with a `last_dup` flag; a node is
      released when it matches its successor or its predecessor matched it.
      Comparisons see the original neighbours, because a node is only
      released after its successor has been compared with it. */
  method DeleteDup(h: Handle) returns (r: Status)
    requires h.Some? && |h.value| >= 2 ==> Present(h.value)
    ensures r.ok <==> h.Some? && |h.value| > 0
    ensures !r.ok ==> r.queue == h
    ensures r.ok ==> r.queue == Some(Survivors(h.value))
  {
    if h.None? || |h.value| == 0 {
      return Status(false, h);
    }
    var q := h.value;
    var out: Queue := [];
    var lastDup := false;
    var i := 0;
    while i < |q|
      invariant 0 <= i <= |q|
      invariant out == SurvivorsUpTo(q, i)
      invariant lastDup <==> i > 0 && DupWithNext(q, i - 1)
    {
      var matches := i + 1 < |q| && Strcmp(Key(q[i]), Key(q[i + 1])) == 0;
      if !(matches || lastDup) {
        out := out + [q[i]];
      }
      lastDup := matches;
      i := i + 1;
    }
    r := Status(true, Some(out));
  }

  /** No other node holds the string of node `i`. */
  predicate OccursOnce(q: Queue, i: nat)
    requires i < |q|
  {
    forall j | 0 <= j < |q| && j != i :: q[j].value != q[i].value
  }

  /** The nodes among the first `n` whose string occurs once, in order. */
  function SinglesUpTo(q: Queue, n: nat): Queue
    requires n <= |q|
  {
    if n == 0 then []
    else SinglesUpTo(q, n - 1) + (if OccursOnce(q, n - 1) then [q[n - 1]] else [])
  }

  /** On a sorted list, a node survives exactly when its string occurs once. */
  lemma KeepAtSorted(q: Queue, i: nat)
    requires i < |q| && Present(q) && Sorted(q)
    ensures KeepAt(q, i) <==> OccursOnce(q, i)
  {
    if KeepAt(q, i) {
      forall j | 0 <= j < |q| && j != i
        ensures q[j].value != q[i].value
      {
        if q[j].value == q[i].value {
          if j > i {
            assert Leq(Key(q[i + 1]), Key(q[j]));
            LeqAntisymmetric(Key(q[i]), Key(q[i + 1]));
          } else {
            assert Leq(Key(q[j]), Key(q[i - 1]));
            LeqAntisymmetric(Key(q[i - 1]), Key(q[i]));
          }
        }
      }
    }
  }

  /** On sorted input `q_delete_dup` keeps exactly the nodes whose string
      occurs once in the list, in their original order. */
  lemma {:induction false} DeleteDupSortedKeepsSingles(q: Queue, n: nat)
    requires n <= |q| && Present(q) && Sorted(q)
    ensures SurvivorsUpTo(q, n) == SinglesUpTo(q, n)
  {
    if n > 0 {
      DeleteDupSortedKeepsSingles(q, n - 1);
      KeepAtSorted(q, n - 1);
    }
  }

  /** Adjacent pairs exchanged, an unpaired last node left in place. */
  function SwapPairs(q: Queue): (r: Queue)
    ensures |r| == |q|
  {
    if |q| < 2 then q
    else [q[1], q[0]] + SwapPairs(q[2..])
  }

  /** Pairs never straddle the end of an even-length prefix. */
  lemma {:induction false} SwapPairsAppend(a: Queue, b: Queue)
    requires |a| % 2 == 0
    ensures SwapPairs(a + b) == SwapPairs(a) + SwapPairs(b)
  {
    if |a| == 0 {
      assert a + b == b;
    } else {
      assert (a + b)[2..] == a[2..] + b;
      SwapPairsAppend(a[2..], b);
    }
  }

  /** `q_swap`: a cursor walks forward; while it and its successor are both
      nodes, the successor is moved in front of it, which also advances the
      cursor past the pair. */
  method Swap(h: Handle) returns (r: Handle)
    ensures h.None? <==> r.None?
    ensures h.Some? ==> r.value == SwapPairs(h.value)
  {
    if h.None? || |h.value| == 0 {
      return h;
    }
    var q := h.value;
    var s := q;
    var i := 0;
    while i + 1 < |s|
      invariant |s| == |q| && i <= |q| && i % 2 == 0
      invariant s == SwapPairs(q[..i]) + q[i..]
    {
      SwapPairsAppend(q[..i], q[i..i + 2]);
      assert q[..i + 2] == q[..i] + q[i..i + 2];
      s := s[..i] + [s[i + 1], s[i]] + s[i + 2..];
      i := i + 2;
    }
    SwapPairsAppend(q[..i], q[i..]);
    assert q == q[..i] + q[i..];
    r := Some(s);
  }

  /** The pair swap keeps the same elements. */
  lemma {:induction false} SwapPairsPermutes(q: Queue)
    ensures multiset(SwapPairs(q)) == multiset(q)
  {
    if |q| >= 2 {
      SwapPairsPermutes(q[2..]);
      assert q == [q[0], q[1]] + q[2..];
    }
  }

  /** The nodes at positions 2k and 2k+1 trade places. */
  lemma {:induction false} SwapPairsAt(q: Queue, k: nat)
    requires 2 * k + 1 < |q|
    ensures SwapPairs(q)[2 * k] == q[2 * k + 1] && SwapPairs(q)[2 * k + 1] == q[2 * k]
  {
    if k > 0 {
      SwapPairsAt(q[2..], k - 1);
      assert SwapPairs(q)[2..] == SwapPairs(q[2..]);
    }
  }

  /** An unpaired last node stays where it is. */
  lemma {:induction false} SwapPairsOddLast(q: Queue, k: nat)
    requires |q| == 2 * k + 1
    ensures SwapPairs(q)[2 * k] == q[2 * k]
  {
    if k > 0 {
      SwapPairsOddLast(q[2..], k - 1);
      assert SwapPairs(q)[2..] == SwapPairs(q[2..]);
    }
  }

  /** Swapping pairs twice restores the list, whatever its length. */
  lemma {:induction false} SwapInvolutive(q: Queue)
    ensures SwapPairs(SwapPairs(q)) == q
  {
    if |q| >= 2 {
      SwapInvolutive(q[2..]);
      assert SwapPairs(q)[2..] == SwapPairs(q[2..]);
    }
  }

  predicate Reversal(q: Queue, r: Queue) {
    |r| == |q| && forall i | 0 <= i < |q| :: r[i] == q[|q| - 1 - i]
  }

  /** `q_reverse`: visit the original nodes in order, unlinking each and
      re-linking it right after the sentinel. No node is allocated or
      released: the result holds exactly the same elements. */
  method Reverse(h: Handle) returns (r: Handle)
    ensures h.None? <==> r.None?
    ensures h.Some? ==> Reversal(h.value, r.value)
    ensures h.Some? ==> multiset(r.value) == multiset(h.value)
  {
    if h.None? || |h.value| == 0 {
      return h;
    }
    var q := h.value;
    var s := q;
    var k := 0;
    while k < |q|
      invariant 0 <= k <= |q| && |s| == |q|
      invariant forall j | 0 <= j < k :: s[j] == q[k - 1 - j]
      invariant forall j | k <= j < |q| :: s[j] == q[j]
      invariant multiset(s) == multiset(q)
    {
      assert s == s[..k] + [s[k]] + s[k + 1..];
      s := [s[k]] + s[..k] + s[k + 1..];
      k := k + 1;
    }
    r := Some(s);
  }

  /** Reversing twice restores the list. */
  lemma ReverseInvolutive(q: Queue, r: Queue, t: Queue)
    requires Reversal(q, r) && Reversal(r, t)
    ensures t == q
  {
  }
}
