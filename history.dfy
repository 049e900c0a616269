/** What a ring buffer of a given capacity lets a reader observe of everything pushed into it. */
module History {

  /** The smaller of two counts; `into_iter` computes the number of items to yield this way. */
  function Min(a: nat, b: nat): (r: nat)
    ensures r <= a && r <= b && (r == a || r == b)
  {
    if a < b then a else b
  }

  /** The classic reversal of a sequence, peeling from the front. */
  function Reversed<T>(s: seq<T>): (r: seq<T>)
    ensures |r| == |s|
    ensures forall k :: 0 <= k < |s| ==> r[k] == s[|s| - 1 - k]
  {
    if s == [] then [] else Reversed(s[1..]) + [s[0]]
  }

  /**
    * The values a reader sees when it walks a buffer of capacity `cap` after the pushes `h`:
    * the newest one first, then backwards, and no more than `cap` of them.
    */
  function Newest<T>(h: seq<T>, cap: nat): (r: seq<T>)
    ensures |r| == Min(|h|, cap)
    ensures forall k :: 0 <= k < |r| ==> r[k] == h[|h| - 1 - k]
  {
    if cap == 0 || h == [] then [] else [h[|h| - 1]] + Newest(h[..|h| - 1], cap - 1)
  }

  /** The newest-first reading of h, extended by the next older value, is still one. */
  lemma {:induction false} ReadingExtends<T>(h: seq<T>, items: seq<T>, v: T)
    requires |items| < |h| && v == h[|h| - 1 - |items|]
    requires forall k :: 0 <= k < |items| ==> items[k] == h[|h| - 1 - k]
    ensures forall k :: 0 <= k < |items| + 1 ==> (items + [v])[k] == h[|h| - 1 - k]
  {
  }

  /** Newest is characterised by its length and by what sits at each position. */
  lemma {:induction false} NewestUnique<T>(h: seq<T>, cap: nat, s: seq<T>)
    requires |s| == Min(|h|, cap)
    requires forall k :: 0 <= k < |s| ==> s[k] == h[|h| - 1 - k]
    ensures s == Newest(h, cap)
  {
    var r := Newest(h, cap);
    assert forall k :: 0 <= k < |s| ==> s[k] == r[k];
  }

  /** The walk sees exactly the last min(|h|, cap) pushes, in reverse order. */
  lemma {:induction false} NewestIsReversedSuffix<T>(h: seq<T>, cap: nat)
    ensures Newest(h, cap) == Reversed(h[|h| - Min(|h|, cap)..])
  {
    var start := |h| - Min(|h|, cap);
    var suffix := h[start..];
    var s := Reversed(suffix);
    assert |suffix| == |s| == Min(|h|, cap);
    forall k | 0 <= k < |s| ensures s[k] == h[|h| - 1 - k] {
      assert s[k] == suffix[|suffix| - 1 - k] == h[start + |suffix| - 1 - k];
    }
    NewestUnique(h, cap, s);
  }

  /** As long as the buffer never filled up, a reader sees every push, newest first. */
  lemma {:induction false} NewestWithinCapacity<T>(h: seq<T>, cap: nat)
    requires |h| <= cap
    ensures Newest(h, cap) == Reversed(h)
  {
    NewestIsReversedSuffix(h, cap);
    assert h[0..] == h;
  }

  /** Once `cap` values follow them, earlier pushes are no longer observable. */
  lemma {:induction false} NewestForgetsOldest<T>(earlier: seq<T>, later: seq<T>, cap: nat)
    requires |later| >= cap
    ensures Newest(earlier + later, cap) == Newest(later, cap)
  {
    if cap > 0 {
      var h := earlier + later;
      assert h[|h| - 1] == later[|later| - 1];
      assert h[..|h| - 1] == earlier + later[..|later| - 1];
      NewestForgetsOldest(earlier, later[..|later| - 1], cap - 1);
    }
  }

  /** Stopping the walk after m values yields the m most recent ones (`take(m)`). */
  lemma {:induction false} NewestPrefix<T>(h: seq<T>, cap: nat, m: nat)
    requires m <= cap
    ensures Newest(h, cap)[..Min(|h|, m)] == Newest(h, m)
  {
    if m > 0 && h != [] {
      NewestPrefix(h[..|h| - 1], cap - 1, m - 1);
    }
  }

  /** A push puts its value in front of the walk and lets at most cap - 1 older values remain. */
  lemma {:induction false} NewestPush<T>(h: seq<T>, v: T, cap: nat)
    requires cap > 0
    ensures Newest(h + [v], cap) == [v] + Newest(h, cap)[..Min(|h|, cap - 1)]
  {
    assert (h + [v])[..|h|] == h;
    NewestPrefix(h, cap, cap - 1);
  }
}
