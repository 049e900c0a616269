/**
  * A fixed-capacity ring buffer over a caller-supplied array that overwrites its oldest
  * value once full, and an iterator that walks it from the newest value backwards.
  */
module Ringbuffers {
  import opened Wrappers
  import opened History
  import opened Modular
  import opened Layout

  /** `slice::get`: the element at `i`, or None when `i` lies outside the array. */
  function Get<T>(a: array<T>, i: nat): (r: Option<T>)
    reads a
    ensures r.Some? <==> i < a.Length
    ensures r.Some? ==> r.value == a[i]
  {
    if i < a.Length then Some(a[i]) else None
  }

  class Ringbuffer<T> {
    const buf: array<T>
    var writeIdx: nat
    var inserted: nat
    /** Every value ever pushed, oldest first. */
    ghost var History: seq<T>

    /** The counter matches the history, and slots and cursor keep the layout invariant. */
    ghost predicate Valid()
      reads this, buf
    {
      inserted == |History| && Holds(buf[..], History, writeIdx)
    }

    /** The values an iteration yields, newest first. */
    ghost function Observable(): seq<T>
      reads this
    {
      Newest(History, buf.Length)
    }

    /** `Ringbuffer::new`: adopt the slice as it is; nothing has been pushed yet. */
    constructor (backing: array<T>)
      ensures Valid()
      ensures buf == backing && writeIdx == 0 && inserted == 0 && History == []
      ensures Observable() == []
    {
      buf := backing;
      writeIdx := 0;
      inserted := 0;
      History := [];
      EmptyHolds(backing[..]);
    }

    /** `Ringbuffer::push`: wrap the cursor if it reached the end, overwrite that slot, count. */
    method Push(val: T)
      requires Valid()
      requires buf.Length > 0
      modifies this, buf
      ensures Valid()
      ensures History == old(History) + [val]
      ensures inserted == old(inserted) + 1
      ensures writeIdx == WriteSlot(old(writeIdx), buf.Length) + 1
      ensures 1 <= writeIdx <= buf.Length
      ensures buf[..] == old(buf[..])[writeIdx - 1 := val]
      ensures Observable() == [val] + old(Observable())[..Min(old(inserted), buf.Length - 1)]
    {
      PushPreserves(buf[..], History, writeIdx, val);
      NewestPush(History, val, buf.Length);
      if writeIdx == buf.Length {
        writeIdx := 0;
      }
      buf[writeIdx] := val;
      writeIdx := writeIdx + 1;
      inserted := inserted + 1;
      History := History + [val];
    }
  }

  /** The iterator `into_iter` hands out: a cursor into the ring and a count still to yield. */
  class RingbufferIter<T> {
    var idx: nat
    var itemsToYield: nat
    const ring: Ringbuffer<T>
    /** How many values this iterator has yielded so far. */
    ghost var Yielded: nat

    /** The cursor stands just past the next value to yield, modulo the capacity. */
    ghost predicate Valid()
      reads this, ring, ring.buf
    {
      ring.Valid() &&
      idx <= ring.buf.Length &&
      Yielded + itemsToYield == Min(ring.inserted, ring.buf.Length) &&
      (ring.buf.Length > 0 ==>
        Slot(idx, ring.buf.Length) == Slot(ring.inserted - Yielded, ring.buf.Length))
    }

    /** `into_iter`: start at the write cursor with min(inserted, len) values to yield. */
    constructor (rb: Ringbuffer<T>)
      requires rb.Valid()
      ensures Valid() && ring == rb && Yielded == 0
      ensures idx == rb.writeIdx && itemsToYield == Min(rb.inserted, rb.buf.Length)
    {
      idx := rb.writeIdx;
      ring := rb;
      itemsToYield := if rb.inserted < rb.buf.Length then rb.inserted else rb.buf.Length;
      Yielded := 0;
    }

    /**
      * `next`: None once the count is spent, and the state stays as it is; otherwise step the
      * cursor back (from 0 to the last slot) and yield that slot, which always lies inside
      * the buffer and holds the (Yielded + 1)-th most recent push.
      */
    method Next() returns (r: Option<T>)
      requires Valid()
      modifies this
      ensures Valid()
      ensures old(itemsToYield) == 0 ==>
        r == None && idx == old(idx) && itemsToYield == 0 && Yielded == old(Yielded)
      ensures old(itemsToYield) > 0 ==>
        idx == ReadSlot(old(idx), ring.buf.Length) && idx < ring.buf.Length &&
        itemsToYield == old(itemsToYield) - 1 && Yielded == old(Yielded) + 1
      ensures r.Some? <==> old(itemsToYield) > 0
      ensures r.Some? ==> r.value == ring.History[|ring.History| - 1 - old(Yielded)]
    {
      if itemsToYield == 0 {
        r := None;
      } else {
        StepBack(ring.buf[..], ring.History, ring.writeIdx, idx, Yielded);
        if idx == 0 {
          idx := ring.buf.Length;
        }
        itemsToYield := itemsToYield - 1;
        idx := idx - 1;
        r := Get(ring.buf, idx);
        Yielded := Yielded + 1;
      }
    }
  }

  /** Drain a fresh iterator (`for v in rb`): it yields exactly what the buffer makes observable. */
  method Collect<T>(rb: Ringbuffer<T>) returns (items: seq<T>)
    requires rb.Valid()
    ensures items == Newest(rb.History, rb.buf.Length)
  {
    var it := new RingbufferIter(rb);
    items := [];
    while true
      invariant it.Valid() && it.ring == rb
      invariant |items| == it.Yielded
      invariant forall k :: 0 <= k < |items| ==> items[k] == rb.History[|rb.History| - 1 - k]
      decreases it.itemsToYield
    {
      var r := it.Next();
      if r.None? {
        break;
      }
      ReadingExtends(rb.History, items, r.value);
      items := items + [r.value];
    }
    NewestUnique(rb.History, rb.buf.Length, items);
  }

  /** Take at most m values from a fresh iterator (`rb.into_iter().take(m)`): the m most recent pushes. */
  method Take<T>(rb: Ringbuffer<T>, m: nat) returns (items: seq<T>)
    requires rb.Valid()
    ensures items == Newest(rb.History, Min(m, rb.buf.Length))
  {
    var it := new RingbufferIter(rb);
    items := [];
    while |items| < m
      invariant it.Valid() && it.ring == rb
      invariant |items| == it.Yielded <= m
      invariant forall k :: 0 <= k < |items| ==> items[k] == rb.History[|rb.History| - 1 - k]
      decreases m - |items|
    {
      var r := it.Next();
      if r.None? {
        break;
      }
      ReadingExtends(rb.History, items, r.value);
      items := items + [r.value];
    }
    NewestUnique(rb.History, Min(m, rb.buf.Length), items);
  }
}
