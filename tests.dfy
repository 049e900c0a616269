/** The unit tests of the ring buffer, as clients whose observations are proved. */
module RingbufferTests {
  import opened Wrappers
  import opened History
  import opened Ringbuffers

  /** A buffer of `len` zero slots, as `[0; len]` gives it. */
  method Zeroed(len: nat) returns (rb: Ringbuffer<int>)
    ensures fresh(rb) && fresh(rb.buf)
    ensures rb.Valid() && rb.buf.Length == len && rb.History == []
    ensures rb.buf[..] == seq(len, _ => 0)
  {
    var backing := new int[len](_ => 0);
    rb := new Ringbuffer(backing);
  }

  /** Push 1, 2, ..., count in order. */
  method PushCounting(rb: Ringbuffer<int>, count: nat)
    requires rb.Valid() && rb.buf.Length > 0 && rb.History == []
    modifies rb, rb.buf
    ensures rb.Valid()
    ensures |rb.History| == count
    ensures forall k :: 0 <= k < count ==> rb.History[k] == k + 1
  {
    var i := 1;
    while i <= count
      invariant 1 <= i <= count + 1
      invariant rb.Valid()
      invariant |rb.History| == i - 1
      invariant forall k :: 0 <= k < i - 1 ==> rb.History[k] == k + 1
    {
      rb.Push(i);
      i := i + 1;
    }
  }

  /** `empty`: a buffer of 17 slots that nothing was pushed into yields nothing. */
  method Empty() returns (first: Option<int>)
    ensures first == None
  {
    var rb := Zeroed(17);
    var it := new RingbufferIter(rb);
    first := it.Next();
  }

  /** `one_item`: after pushing 18 the walk yields 18 and then stops. */
  method OneItem() returns (first: Option<int>, second: Option<int>)
    ensures first == Some(18) && second == None
  {
    var rb := Zeroed(17);
    rb.Push(18);
    var it := new RingbufferIter(rb);
    first := it.Next();
    second := it.Next();
  }

  /** `two_items`: a buffer of 2 filled exactly yields 19, 18 and then stops. */
  method TwoItems() returns (first: Option<int>, second: Option<int>, third: Option<int>)
    ensures first == Some(19) && second == Some(18) && third == None
  {
    var rb := Zeroed(2);
    rb.Push(18);
    rb.Push(19);
    var it := new RingbufferIter(rb);
    first := it.Next();
    second := it.Next();
    third := it.Next();
  }

  /** `two_items_overflow`: a third push into 2 slots drops 18; the walk yields 20, 19. */
  method TwoItemsOverflow() returns (first: Option<int>, second: Option<int>, third: Option<int>)
    ensures first == Some(20) && second == Some(19) && third == None
  {
    var rb := Zeroed(2);
    rb.Push(18);
    rb.Push(19);
    rb.Push(20);
    var it := new RingbufferIter(rb);
    first := it.Next();
    second := it.Next();
    third := it.Next();
  }

  /** `push_20_items_with_buffersize_10`: only 20 down to 11 remain observable. */
  method Push20Capacity10() returns (items: seq<int>)
    ensures |items| == 10
    ensures forall k :: 0 <= k < |items| ==> items[k] == 20 - k
  {
    var rb := Zeroed(10);
    PushCounting(rb, 20);
    items := Collect(rb);
  }

  /** `push_20_items_with_buffersize_50`: all 20 pushes are observable, 20 down to 1. */
  method Push20Capacity50() returns (items: seq<int>)
    ensures |items| == 20
    ensures forall k :: 0 <= k < |items| ==> items[k] == 20 - k
  {
    var rb := Zeroed(50);
    PushCounting(rb, 20);
    items := Collect(rb);
  }

  /** `push_20_items_get_last_10_with_buffersize_50`: `take(10)` yields 20 down to 11. */
  method Push20Take10Capacity50() returns (items: seq<int>)
    ensures |items| == 10
    ensures forall k :: 0 <= k < |items| ==> items[k] == 20 - k
  {
    var rb := Zeroed(50);
    PushCounting(rb, 20);
    items := Take(rb, 10);
  }

  /** The element type of `test_struct`, with its default value. */
  datatype Pair = Pair(l: int, r: int)

  /** `test_struct`: 21 pushes of pairs into 10 default slots always meet push's precondition. */
  method StructElements() returns (items: seq<Pair>)
    ensures |items| == 10 && items[0] == Pair(20, 20) && items[9] == Pair(11, 11)
  {
    var backing := new Pair[10](_ => Pair(0, 0));
    var rb := new Ringbuffer(backing);
    var i := 0;
    while i < 21
      invariant 0 <= i <= 21
      invariant rb.Valid()
      invariant |rb.History| == i
      invariant forall k :: 0 <= k < i ==> rb.History[k] == Pair(k, k)
    {
      rb.Push(Pair(i, i));
      i := i + 1;
    }
    items := Collect(rb);
  }
}
