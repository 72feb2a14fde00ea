/**
 The frontier queue of the recolouring pass: coordinates stored as
 consecutive ints in a growable buffer, read at `offset`, written at `length`,
 with the capacity doubled when a push would not fit. Entries are never
 compacted, so `length / 2` is the number of pushes since creation.
 */
module FrontierQueue {

  /** Capacity, in ints, of a freshly created queue (`2 * 1024`). */
  const InitialCapacity: nat := 2 * 1024

  /**
   `arr` is the whole allocated buffer; the unread entries are
   `arr[offset..length]`, two ints per coordinate.
   */
  datatype Queue = Queue(arr: seq<int>, offset: nat, length: nat, capacity: nat)

  /** Representation invariant of the buffer. */
  predicate Valid(q: Queue)
  {
    && |q.arr| == q.capacity
    && q.offset <= q.length <= q.capacity
    && q.offset % 2 == 0
    && q.length % 2 == 0
    && q.capacity >= 2
  }

  /** Reads a flat sequence of ints as coordinate pairs. */
  function Pairs(s: seq<int>): (ps: seq<(int, int)>)
    requires |s| % 2 == 0
    ensures 2 * |ps| == |s|
    ensures forall k :: 0 <= k < |ps| ==> ps[k] == (s[2 * k], s[2 * k + 1])
    decreases |s|
  {
    if |s| == 0 then [] else [(s[0], s[1])] + Pairs(s[2..])
  }

  /** Appending two ints appends one pair. */
  lemma {:induction false} PairsAppend(s: seq<int>, x: int, y: int)
    requires |s| % 2 == 0
    ensures Pairs(s + [x, y]) == Pairs(s) + [(x, y)]
    decreases |s|
  {
    if |s| > 0 {
      assert (s + [x, y])[2..] == s[2..] + [x, y];
      PairsAppend(s[2..], x, y);
    }
  }

  /** The coordinates still waiting in the queue, oldest first. */
  function Contents(q: Queue): seq<(int, int)>
    requires Valid(q)
  {
    Pairs(q.arr[q.offset..q.length])
  }

  /** `queue_init`: an empty queue. The fresh buffer's contents are unspecified; zeros stand in for them. */
  function Init(): (q: Queue)
    ensures Valid(q)
    ensures Contents(q) == []
    ensures q.capacity == InitialCapacity && q.length == 0
  {
    Queue(seq(InitialCapacity, _ => 0), 0, 0, InitialCapacity)
  }

  /** `queue_nonempty`. */
  function Nonempty(q: Queue): (b: bool)
    requires Valid(q)
    ensures b <==> Contents(q) != []
  {
    q.offset < q.length
  }

  /** `queue_pop`: only meaningful when `queue_nonempty` holds, which every caller checks. */
  method Pop(q: Queue) returns (r: Queue, x: int, y: int)
    requires Valid(q) && Nonempty(q)
    ensures Valid(r)
    ensures Contents(q) == [(x, y)] + Contents(r)
    ensures r.length == q.length && r.capacity == q.capacity
  {
    x := q.arr[q.offset];
    y := q.arr[q.offset + 1];
    r := q.(offset := q.offset + 2);
    assert q.arr[q.offset..q.length][2..] == r.arr[r.offset..r.length];
  }

  /**
   The growth step of `queue_push`: `realloc` to twice the capacity. The new
   tail of the buffer is unspecified; zeros stand in for it.
   */
  function Grow(q: Queue): (r: Queue)
    requires Valid(q)
    ensures Valid(r)
    ensures r.capacity == 2 * q.capacity
    ensures r.arr[..q.capacity] == q.arr
    ensures r.offset == q.offset && r.length == q.length
    ensures Contents(r) == Contents(q)
  {
    var r := Queue(q.arr + seq(q.capacity, _ => 0), q.offset, q.length, 2 * q.capacity);
    assert r.arr[r.offset..r.length] == q.arr[q.offset..q.length];
    r
  }

  /** After the growth check of `queue_push` there is room for two more ints. */
  lemma RoomAfterGrowth(q: Queue)
    requires Valid(q)
    ensures var r := if q.length + 2 > q.capacity then Grow(q) else q;
      Valid(r) && r.length + 2 <= r.capacity
  {
  }

  /** `queue_push`: grows when two more ints would not fit, then appends (x, y). */
  method Push(q: Queue, x: int, y: int) returns (r: Queue)
    requires Valid(q)
    ensures Valid(r)
    ensures Contents(r) == Contents(q) + [(x, y)]
    ensures r.offset == q.offset && r.length == q.length + 2
  {
    r := q;
    if r.length + 2 > r.capacity {
      r := Grow(r);
    }
    assert r.length + 2 <= r.capacity;
    ghost var unread := r.arr[r.offset..r.length];
    r := r.(arr := r.arr[r.length := x][r.length + 1 := y]);
    r := r.(length := r.length + 2);
    assert r.arr[r.offset..r.length] == unread + [x, y];
    PairsAppend(unread, x, y);
  }

  /** Pushes the coordinates of `ps` in order. */
  method PushAll(q: Queue, ps: seq<(int, int)>) returns (r: Queue)
    requires Valid(q)
    ensures Valid(r)
    ensures Contents(r) == Contents(q) + ps
  {
    r := q;
    var i := 0;
    while i < |ps|
      invariant 0 <= i <= |ps|
      invariant Valid(r)
      invariant Contents(r) == Contents(q) + ps[..i]
    {
      r := Push(r, ps[i].0, ps[i].1);
      assert ps[..i + 1] == ps[..i] + [ps[i]];
      i := i + 1;
    }
    assert ps[..i] == ps;
  }

  /** Pops until `queue_nonempty` fails, collecting the popped coordinates in order. */
  method PopAll(q: Queue) returns (r: Queue, popped: seq<(int, int)>)
    requires Valid(q)
    ensures Valid(r) && !Nonempty(r)
    ensures popped == Contents(q)
  {
    r := q;
    popped := [];
    while Nonempty(r)
      invariant Valid(r)
      invariant popped + Contents(r) == Contents(q)
      decreases r.length - r.offset
    {
      var x, y;
      r, x, y := Pop(r);
      popped := popped + [(x, y)];
    }
  }

  /** FIFO: whatever is pushed into a fresh queue comes out in the same order. */
  method FifoRoundTrip(ps: seq<(int, int)>) returns (popped: seq<(int, int)>)
    ensures popped == ps
  {
    var q := Init();
    q := PushAll(q, ps);
    var drained;
    drained, popped := PopAll(q);
  }
}
