/** `q_shuffle`: Fisher-Yates over the list. The values returned by
    `rand()` are a parameter; the seeding from the clock is not modelled. */
module Shuffle {
  import opened Options
  import opened Elements
  import opened Queues

  datatype Direction = Forward | Backward

  /** A walk of `steps` links from the `first` cursor. */
  datatype Walk = Walk(dir: Direction, steps: nat)

  /** Where a walk stops in a ring of `m` nodes, as a forward offset from
      the node it started on. */
  function Landing(m: nat, w: Walk): (k: nat)
    requires m >= 1
    ensures k < m
  {
    match w.dir
    case Forward => w.steps % m
    case Backward => (m - w.steps % m) % m
  }

  lemma ModBelow(x: nat, m: nat)
    requires x < m
    ensures x % m == x
  {}

  /** Walking `m - rnd` links backwards reaches forward offset `rnd`. */
  lemma BackwardLanding(m: nat, rnd: nat)
    requires rnd < m
    ensures Landing(m, Walk(Backward, m - rnd)) == rnd
  {
    if rnd == 0 {
      assert m % m == 0;
      assert (m - 0) % m == 0;
    } else {
      ModBelow(m - rnd, m);
      ModBelow(rnd, m);
    }
  }

  /** The walk the source takes to reach forward offset `rnd` in a ring of
      `m` nodes: `dir = rnd > m / 2 ? 0 : 1`, then `dir` picks `prev` with
      `m - rnd` steps and otherwise `next` with `rnd` steps. It lands on the
      right node but always takes the longer way round. */
  function WalkAsWritten(m: nat, rnd: nat): (w: Walk)
    requires rnd < m
    ensures Landing(m, w) == rnd
    ensures w.steps >= m / 2
  {
    var dir := if rnd > m / 2 then 0 else 1;
    BackwardLanding(m, rnd);
    ModBelow(rnd, m);
    if dir == 1 then Walk(Backward, m - rnd) else Walk(Forward, rnd)
  }

  /** The walk the heuristic is meant to take: the shorter way round. */
  function ShortWalk(m: nat, rnd: nat): (w: Walk)
    requires rnd < m
    ensures Landing(m, w) == rnd
    ensures w.steps <= m / 2
    ensures w.steps <= WalkAsWritten(m, rnd).steps
  {
    BackwardLanding(m, rnd);
    ModBelow(rnd, m);
    if rnd <= m / 2 then Walk(Forward, rnd) else Walk(Backward, m - rnd)
  }

  /** With ten nodes left and a draw of 1 the source walks nine links
      backwards where one link forwards reaches the same node. */
  lemma LongWayRound()
    ensures WalkAsWritten(10, 1) == Walk(Backward, 9)
    ensures ShortWalk(10, 1) == Walk(Forward, 1)
    ensures Landing(10, WalkAsWritten(10, 1)) == Landing(10, ShortWalk(10, 1)) == 1
  {}

  /** One round on a ring of at least two nodes with `first` at index 0:
      walk to forward offset `rnd`, then unlink the node after the cursor.
      Returns the remaining ring, again with the cursor at index 0, and the
      unlinked node. */
  function Round(ring: Queue, rnd: nat): (r: (Queue, Element))
    requires |ring| >= 2 && rnd < |ring|
    ensures |r.0| == |ring| - 1
    ensures multiset(r.0) + multiset{r.1} == multiset(ring)
  {
    var k := Landing(|ring|, ShortWalk(|ring|, rnd));
    var turned := ring[k..] + ring[..k];
    assert multiset(turned) == multiset(ring) by {
      assert ring == ring[..k] + ring[k..];
    }
    assert turned == [turned[0], turned[1]] + turned[2..];
    ([turned[0]] + turned[2..], turned[1])
  }

  /** `q_shuffle` with the successive `rand()` results in `draws`. The ring
      is detached from the sentinel and tracked with the `first` cursor at
      index 0. Each round moves the node after a randomly placed cursor to
      the front of the queue; the last remaining node goes to the front
      at the end. */
  method Shuffle(h: Handle, draws: seq<nat>) returns (r: Handle)
    requires h.Some? ==> |draws| + 1 >= |h.value|
    ensures h.None? <==> r.None?
    ensures h.Some? ==> |r.value| == |h.value|
    ensures h.Some? ==> multiset(r.value) == multiset(h.value)
  {
    if h.None? || |h.value| == 0 {
      return h;
    }
    var q := h.value;
    var n := |q|;
    var ring := q;
    var out: Queue := [];
    var i := 0;
    while i < n - 1
      invariant 0 <= i <= n - 1
      invariant |ring| == n - i
      invariant multiset(ring) + multiset(out) == multiset(q)
    {
      var m := n - i;
      var rnd := draws[i] % m;
      var next := Round(ring, rnd);
      ring, out := next.0, [next.1] + out;
      i := i + 1;
    }
    r := Some([ring[0]] + out);
  }
}
