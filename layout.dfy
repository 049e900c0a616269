/**
  * How the ring buffer lays the pushed values out in its slots, stated on plain values:
  * the slot contents, the history of pushes and the write cursor.
  */
module Layout {
  import opened History
  import opened Modular

  /**
    * The layout invariant. The cursor is wrapped lazily, so it ranges over [0, len] rather
    * than [0, len); it is 0 exactly before the first push and otherwise agrees with the
    * number of pushes modulo len. The j-th push (counting from 0) sits in slot j mod len
    * for as long as fewer than len pushes have followed it.
    */
  ghost predicate Holds<T>(slots: seq<T>, h: seq<T>, cursor: nat)
  {
    cursor <= |slots| &&
    (cursor > 0 <==> |h| > 0) &&
    (|slots| == 0 ==> |h| == 0) &&
    (|slots| > 0 ==>
      Slot(cursor, |slots|) == Slot(|h|, |slots|) &&
      forall j {:trigger slots[Slot(j, |slots|)]} :: 0 <= j < |h| && |h| - |slots| <= j ==> slots[Slot(j, |slots|)] == h[j])
  }

  /** The slot `push` writes: the cursor, wrapped to 0 when it stands at the end. */
  function WriteSlot(cursor: nat, len: nat): nat
  {
    if cursor == len then 0 else cursor
  }

  /** The slot `next` reads: one before the cursor, wrapping from 0 to the last slot. */
  function ReadSlot(idx: nat, len: nat): int
  {
    (if idx == 0 then len else idx) - 1
  }

  /** Nothing pushed yet: any slot contents and a cursor at 0 satisfy the invariant. */
  lemma {:induction false} EmptyHolds<T>(slots: seq<T>)
    ensures Holds(slots, [], 0)
  {
  }

  /**
    * The cursor in closed form: 0 before the first push, otherwise one past the slot of the
    * latest push. After any positive multiple of len pushes it therefore stands at len, and
    * the next push takes the wrap branch.
    */
  lemma {:induction false} CursorAfterPushes<T>(slots: seq<T>, h: seq<T>, cursor: nat)
    requires Holds(slots, h, cursor) && |slots| > 0
    ensures cursor == if |h| == 0 then 0 else Slot(|h| - 1, |slots|) + 1
    ensures |h| > 0 && Slot(|h|, |slots|) == 0 ==> cursor == |slots|
  {
    if |h| > 0 {
      SlotPredecessor(|h|, |slots|);
      if cursor < |slots| {
        SlotSmall(cursor, |slots|);
      } else {
        assert Slot(cursor, |slots|) == Slot(0, |slots|) == 0;
      }
    }
  }

  /**
    * A push keeps the invariant: it writes slot |h| mod len, which holds the oldest value of
    * the window once the buffer is full, and leaves the cursor in [1, len].
    */
  lemma {:induction false} PushPreserves<T>(slots: seq<T>, h: seq<T>, cursor: nat, v: T)
    requires Holds(slots, h, cursor) && |slots| > 0
    ensures WriteSlot(cursor, |slots|) < |slots|
    ensures WriteSlot(cursor, |slots|) == Slot(|h|, |slots|)
    ensures Holds(slots[WriteSlot(cursor, |slots|) := v], h + [v], WriteSlot(cursor, |slots|) + 1)
  {
    var len, n, s := |slots|, |h|, WriteSlot(cursor, |slots|);
    SlotSmall(s, len);
    var slots', h' := slots[s := v], h + [v];
    SlotPredecessor(n + 1, len);
    if s + 1 < len {
      SlotSmall(s + 1, len);
    }
    forall j | 0 <= j < n + 1 && n + 1 - len <= j
      ensures slots'[Slot(j, len)] == h'[j]
    {
      if j < n {
        SlotDistinct(j, n, len);
        assert slots[Slot(j, len)] == h[j];
      }
    }
    assert Slot(s + 1, len) == Slot(n + 1, len);
  }

  /**
    * One step of the walk: with a cursor that stands just past position |h| - y (modulo len),
    * and y values of the window already yielded, `next` reads a slot inside the buffer that
    * holds the (y+1)-th newest value, and the cursor then stands just past position |h| - y - 1.
    */
  lemma {:induction false} StepBack<T>(slots: seq<T>, h: seq<T>, cursor: nat, idx: nat, y: nat)
    requires Holds(slots, h, cursor)
    requires idx <= |slots| && y < Min(|h|, |slots|)
    requires Slot(idx, |slots|) == Slot(|h| - y, |slots|)
    ensures 0 <= ReadSlot(idx, |slots|) < |slots|
    ensures Slot(ReadSlot(idx, |slots|), |slots|) == Slot(|h| - y - 1, |slots|)
    ensures slots[ReadSlot(idx, |slots|)] == h[|h| - 1 - y]
  {
    var len, i := |slots|, ReadSlot(idx, |slots|);
    SlotPredecessor(|h| - y, len);
    if idx != 0 && idx < len {
      SlotSmall(idx, len);
    }
    SlotSmall(i, len);
  }
}
