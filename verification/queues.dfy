/** The queue handle and its structural primitives: insertion and removal
    at either end, and the size query. The circular list with its sentinel
    is modelled by the sequence of elements it holds, head first. */
module Queues {
  import opened Options
  import opened CStrings
  import opened Elements

  /** The elements reachable from the sentinel, in forward order. */
  type Queue = seq<Element>

  /** The `struct list_head *` argument: None for a NULL handle. */
  type Handle = Option<Queue>

  /** A boolean result and the queue it leaves behind. */
  datatype Status = Status(ok: bool, queue: Handle)

  /** What a remove returns: the unlinked element (NULL if none), the queue
      afterwards, and the `bufsize` bytes written to the caller's buffer
      (None when nothing is written). */
  datatype Removal = Removal(elem: Option<Element>, queue: Handle, buffer: Option<seq<byte>>)

  /** `q_insert_head`: link a new element right after the sentinel. */
  function InsertHead(h: Handle, s: Option<Str>, node: Option<nat>, bufferOk: bool): (r: Status)
    ensures r.ok <==> h.Some? && node.Some? && (s.None? || bufferOk)
    ensures !r.ok ==> r.queue == h
    ensures r.ok ==> r.queue.Some? && |r.queue.value| == |h.value| + 1
    ensures r.ok ==> r.queue.value[0] == Element(node.value, s) && r.queue.value[1..] == h.value
    ensures r.ok && DistinctIds(h.value) && node.value !in Ids(h.value) ==> DistinctIds(r.queue.value)
  {
    if h.None? then Status(false, h)
    else match ElementNew(s, node, bufferOk)
      case None => Status(false, h)
      case Some(e) => Status(true, Some([e] + h.value))
  }

  /** `q_insert_tail`: link a new element right before the sentinel. */
  function InsertTail(h: Handle, s: Option<Str>, node: Option<nat>, bufferOk: bool): (r: Status)
    ensures r.ok <==> h.Some? && node.Some? && (s.None? || bufferOk)
    ensures !r.ok ==> r.queue == h
    ensures r.ok ==> r.queue.Some? && |r.queue.value| == |h.value| + 1
    ensures r.ok ==> r.queue.value[|h.value|] == Element(node.value, s) && r.queue.value[..|h.value|] == h.value
    ensures r.ok && DistinctIds(h.value) && node.value !in Ids(h.value) ==> DistinctIds(r.queue.value)
  {
    if h.None? then Status(false, h)
    else match ElementNew(s, node, bufferOk)
      case None => Status(false, h)
      case Some(e) => Status(true, Some(h.value + [e]))
  }

  /** The bytes a remove writes to a caller buffer of `bufsize` bytes:
      `strncpy(sp, value, bufsize)` followed by `sp[bufsize - 1] = '\0'`. */
  function CopyOut(v: Str, bufsize: nat): (buf: seq<byte>)
    requires bufsize >= 1
    ensures |buf| == bufsize
    ensures ReadStr(buf) == v[..Min(|v|, bufsize - 1)]
    ensures forall i | Min(|v|, bufsize - 1) <= i < bufsize :: buf[i] == 0
  {
    var buf := Strncpy(v, bufsize)[bufsize - 1 := 0];
    ReadStrExact(buf, v[..Min(|v|, bufsize - 1)]);
    buf
  }

  /** Hand an unlinked element back, copying its string out when both the
      caller's buffer and the string are present. */
  function Detach(e: Element, rest: Queue, hasBuffer: bool, bufsize: nat): Removal
    requires hasBuffer && e.value.Some? ==> bufsize >= 1
  {
    if hasBuffer && e.value.Some? then Removal(Some(e), Some(rest), Some(CopyOut(e.value.value, bufsize)))
    else Removal(Some(e), Some(rest), None)
  }

  /** True when a remove from this end would write into a zero-byte buffer,
      which the source does not guard against (`sp[bufsize - 1]` with
      `bufsize == 0`). */
  predicate WritesIntoEmptyBuffer(h: Handle, atHead: bool, hasBuffer: bool, bufsize: nat) {
    && h.Some? && |h.value| > 0 && hasBuffer && bufsize == 0
    && (if atHead then h.value[0] else h.value[|h.value| - 1]).value.Some?
  }

  /** `q_remove_head`: unlink the first element and hand it to the caller. */
  function RemoveHead(h: Handle, hasBuffer: bool, bufsize: nat): (r: Removal)
    requires !WritesIntoEmptyBuffer(h, true, hasBuffer, bufsize)
    ensures r.elem.None? <==> h.None? || |h.value| == 0
    ensures r.elem.None? ==> r.queue == h && r.buffer.None?
    ensures r.elem.Some? ==> r.elem.value == h.value[0] && r.queue == Some(h.value[1..])
    ensures r.buffer.Some? <==> r.elem.Some? && hasBuffer && r.elem.value.value.Some?
    ensures r.buffer.Some? ==>
              var v := r.elem.value.value.value;
              |r.buffer.value| == bufsize && ReadStr(r.buffer.value) == v[..Min(|v|, bufsize - 1)]
  {
    if h.None? || |h.value| == 0 then Removal(None, h, None)
    else Detach(h.value[0], h.value[1..], hasBuffer, bufsize)
  }

  /** `q_remove_tail`: unlink the last element and hand it to the caller. */
  function RemoveTail(h: Handle, hasBuffer: bool, bufsize: nat): (r: Removal)
    requires !WritesIntoEmptyBuffer(h, false, hasBuffer, bufsize)
    ensures r.elem.None? <==> h.None? || |h.value| == 0
    ensures r.elem.None? ==> r.queue == h && r.buffer.None?
    ensures r.elem.Some? ==> r.elem.value == h.value[|h.value| - 1] && r.queue == Some(h.value[..|h.value| - 1])
    ensures r.buffer.Some? <==> r.elem.Some? && hasBuffer && r.elem.value.value.Some?
    ensures r.buffer.Some? ==>
              var v := r.elem.value.value.value;
              |r.buffer.value| == bufsize && ReadStr(r.buffer.value) == v[..Min(|v|, bufsize - 1)]
  {
    if h.None? || |h.value| == 0 then Removal(None, h, None)
    else Detach(h.value[|h.value| - 1], h.value[..|h.value| - 1], hasBuffer, bufsize)
  }

  /** `q_size`: walk forward from the sentinel back to it, counting nodes. */
  method Size(h: Handle) returns (n: nat)
    ensures h.None? ==> n == 0
    ensures h.Some? ==> n == |h.value|
  {
    if h.None? || |h.value| == 0 {
      return 0;
    }
    var q := h.value;
    // positions 0 .. |q| - 1 are the nodes; position |q| is the sentinel
    var node := 0;
    n := 0;
    while node != |q|
      invariant 0 <= node <= |q|
      invariant n == node
      decreases |q| - node
    {
      n := n + 1;
      node := node + 1;
    }
  }

  /** Inserting a string at the head and removing the head into a buffer
      of `|s| + 1` bytes gives back the new element, the original queue
      and the string itself. */
  lemma InsertRemoveHead(q: Queue, s: Str, node: nat)
    ensures var ins := InsertHead(Some(q), Some(s), Some(node), true);
            && ins.ok
            && var rem := RemoveHead(ins.queue, true, |s| + 1);
            && rem.elem == Some(Element(node, Some(s)))
            && rem.queue == Some(q)
            && rem.buffer.Some? && ReadStr(rem.buffer.value) == s
  {
  }

  /** The same round trip at the tail. */
  lemma InsertRemoveTail(q: Queue, s: Str, node: nat)
    ensures var ins := InsertTail(Some(q), Some(s), Some(node), true);
            && ins.ok
            && var rem := RemoveTail(ins.queue, true, |s| + 1);
            && rem.elem == Some(Element(node, Some(s)))
            && rem.queue == Some(q)
            && rem.buffer.Some? && ReadStr(rem.buffer.value) == s
  {
  }
}
