/**
 * The shadow completion queue (struct sk_buff_cq): a fixed array of buffer
 * pointers with head and tail indices that wrap by the power-of-two mask. The
 * live entries, oldest first, are Contents(); push and pop are FIFO on it.
 */
module ShadowQueue {
  import opened SkBuff
  import opened CircBuf

  /** The n slots of ring a from index t onwards, wrapping past the end. */
  function Window(a: seq<Skb>, t: int, n: nat): (w: seq<Skb>)
    requires 0 <= t < |a|
    ensures |w| == n
    decreases n
  {
    if n == 0 then [] else [a[t]] + Window(a, Next(t, |a|), n - 1)
  }

  /** A window one slot longer ends with the slot n steps after its start. */
  lemma {:induction false} WindowSnoc(a: seq<Skb>, t: int, n: nat)
    requires 0 <= t < |a|
    ensures 0 <= Advance(t, n, |a|) < |a|
    ensures Window(a, t, n + 1) == Window(a, t, n) + [a[Advance(t, n, |a|)]]
    decreases n
  {
    if n > 0 {
      WindowSnoc(a, Next(t, |a|), n - 1);
    }
  }

  /** Writing a slot the window does not cover leaves the window as it was. */
  lemma {:induction false} WindowUnchanged(a: seq<Skb>, t: int, n: nat, h: int, x: Skb)
    requires 0 <= t < |a| && 0 <= h < |a|
    requires forall i :: 0 <= i < n ==> Advance(t, i, |a|) != h
    ensures Window(a[h := x], t, n) == Window(a, t, n)
    decreases n
  {
    if n > 0 {
      assert Advance(t, 0, |a|) != h;
      forall i | 0 <= i < n - 1
        ensures Advance(Next(t, |a|), i, |a|) != h
      {
        assert Advance(t, i + 1, |a|) != h;
      }
      WindowUnchanged(a, Next(t, |a|), n - 1, h, x);
    }
  }

  /** Dropping the first k slots of a window leaves the window that starts k slots later. */
  lemma {:induction false} WindowDrop(a: seq<Skb>, t: int, n: nat, k: nat)
    requires 0 <= t < |a| && k <= n
    ensures 0 <= Advance(t, k, |a|) < |a|
    ensures Window(a, t, n)[k..] == Window(a, Advance(t, k, |a|), n - k)
    decreases k
  {
    if k > 0 {
      WindowDrop(a, Next(t, |a|), n - 1, k - 1);
    }
  }

  /** The first k slots of a window are the shorter window. */
  lemma {:induction false} WindowTake(a: seq<Skb>, t: int, n: nat, k: nat)
    requires 0 <= t < |a| && k <= n
    ensures Window(a, t, n)[..k] == Window(a, t, k)
    decreases k
  {
    if k > 0 {
      WindowTake(a, Next(t, |a|), n - 1, k - 1);
    }
  }

  /**
   * Stepping the tail k <= CNT slots forward takes the first k live entries off the
   * front and leaves the rest, in order.
   */
  lemma {:induction false} TailAdvanced(a: seq<Skb>, h: int, t: int, k: nat)
    requires IsPowerOfTwo(|a|) && 0 <= h < |a| && 0 <= t < |a| && k <= CircCnt(h, t, |a|)
    ensures 0 <= Advance(t, k, |a|) < |a|
    ensures CircCnt(h, Advance(t, k, |a|), |a|) == CircCnt(h, t, |a|) - k
    ensures Window(a, t, k) == Window(a, t, CircCnt(h, t, |a|))[..k]
    ensures Window(a, Advance(t, k, |a|), CircCnt(h, Advance(t, k, |a|), |a|)) == Window(a, t, CircCnt(h, t, |a|))[k..]
  {
    var r, c := |a|, CircCnt(h, t, |a|);
    CircBounds(h, t, r);
    AdvanceLinear(t, k, r);
    CircBounds(h, Advance(t, k, r), r);
    WindowTake(a, t, c, k);
    WindowDrop(a, t, c, k);
  }

  class SkBuffCq {
    const entries: array<Skb>
    var head: int
    var tail: int

    ghost predicate Valid()
      reads this
    {
      IsPowerOfTwo(entries.Length) && 0 <= head < entries.Length && 0 <= tail < entries.Length
    }

    /** SK_BUFF_CQ_COUNT: the live entries, from tail forward to head. */
    function Count(): (n: int)
      reads this
      requires Valid()
      ensures 0 <= n < entries.Length
      ensures n == if tail <= head then head - tail else head - tail + entries.Length
    {
      CircBounds(head, tail, entries.Length);
      CircCnt(head, tail, entries.Length)
    }

    /** SK_BUFF_CQ_SPACE: the free slots; one slot always stays empty. */
    function Space(): (n: int)
      reads this
      requires Valid()
      ensures 0 <= n < entries.Length
      ensures n == entries.Length - 1 - Count()
    {
      CircBounds(head, tail, entries.Length);
      CircSpace(head, tail, entries.Length)
    }

    /** The live buffers, oldest (next to pop) first. */
    ghost function Contents(): seq<Skb>
      reads this, entries
      requires Valid()
    {
      Window(entries[..], tail, Count())
    }

    /** An empty queue over a fresh array of ringSize slots, indices as sk_buff_cq_init sets them. */
    constructor (ringSize: nat)
      requires IsPowerOfTwo(ringSize)
      ensures Valid() && fresh(entries) && entries.Length == ringSize
      ensures Count() == 0 && Space() == ringSize - 1 && Contents() == []
    {
      entries := new Skb[ringSize];
      head, tail := 0, 0;
    }

    /** sk_buff_cq_init */
    method Init()
      requires IsPowerOfTwo(entries.Length)
      modifies this
      ensures Valid() && head == 0 && tail == 0
      ensures Count() == 0 && Space() == entries.Length - 1 && Contents() == []
    {
      head := 0;
      tail := 0;
    }

    /**
     * sk_buff_cq_push: store at head and step head. There is no capacity check;
     * when the caller has left room the buffer joins the back of the queue.
     */
    method Push(skb: Skb)
      requires Valid()
      modifies this`head, entries
      ensures Valid()
      ensures entries[old(head)] == skb
      ensures forall k :: 0 <= k < entries.Length && k != old(head) ==> entries[k] == old(entries[k])
      ensures entries[..] == old(entries[..])[old(head) := skb]
      ensures head == Next(old(head), entries.Length)
      ensures old(Space()) > 0 ==> Count() == old(Count()) + 1 && Contents() == old(Contents()) + [skb]
    {
      ghost var before := entries[..];
      ghost var r, c := entries.Length, Count();
      entries[head] := skb;
      assert entries[..] == before[old(head) := skb];
      NextIndex(head, entries.Length);
      head := And(head + 1, entries.Length - 1);
      if c < r - 1 {
        forall i | 0 <= i < c
          ensures Advance(tail, i, r) != old(head)
        {
          AdvanceLinear(tail, i, r);
        }
        AdvanceLinear(tail, c, r);
        WindowSnoc(entries[..], tail, c);
        WindowUnchanged(before, tail, c, old(head), skb);
      }
    }

    /**
     * sk_buff_cq_pop: take the entry at tail and step tail. There is no emptiness
     * check; on a non-empty queue the result is the oldest live buffer.
     */
    method Pop() returns (skb: Skb)
      requires Valid()
      modifies this`tail
      ensures Valid()
      ensures skb == entries[old(tail)]
      ensures tail == Next(old(tail), entries.Length)
      ensures old(Count()) > 0 ==> Count() == old(Count()) - 1
      ensures old(Count()) > 0 ==> skb == old(Contents())[0] && Contents() == old(Contents())[1..]
    {
      skb := entries[tail];
      NextIndex(tail, entries.Length);
      tail := And(tail + 1, entries.Length - 1);
    }

    /** sk_buff_cq_tail_nsegments: segments of the buffer at tail, the oldest one when any is live. */
    function TailNSegments(): (n: int)
      reads this, entries
      requires Valid()
      ensures n >= 1
      ensures Count() > 0 ==> n == NSegments(Contents()[0])
    {
      |entries[tail].frags| + 1
    }
  }
}
