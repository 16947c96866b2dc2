/**
 * The per-room message history: a fixed-capacity ring buffer (the `CBuffer`
 * package) that keeps insertion order and overwrites its oldest entry once it
 * is full. `Window` is its meaning on values; `HistoryBuffer` is the buffer
 * itself, over an array, proved against `Window`.
 */
module History {

  /** What a buffer of capacity `cap` holds after everything in `s` was pushed into it. */
  function Window<T>(s: seq<T>, cap: nat): (w: seq<T>) {
    if |s| <= cap then s else s[|s| - cap..]
  }

  /** Pushing the elements of `xs` one at a time into a buffer holding `h`. */
  function PushEach<T>(h: seq<T>, xs: seq<T>, cap: nat): (w: seq<T>)
    decreases |xs|
  {
    if xs == [] then h else PushEach(Window(h + [xs[0]], cap), xs[1..], cap)
  }

  /** The buffer never holds more than its capacity and always holds the newest entries. */
  lemma WindowIsNewestSuffix<T>(s: seq<T>, cap: nat)
    ensures |Window(s, cap)| == if |s| <= cap then |s| else cap
    ensures Window(s, cap) == s[|s| - |Window(s, cap)|..]
  {
  }

  /** One push into the window of `s` is the window of `s` with the new entry. */
  lemma WindowPush<T>(s: seq<T>, x: T, cap: nat)
    ensures Window(Window(s, cap) + [x], cap) == Window(s + [x], cap)
  {
    if |s| > cap {
      var w := Window(s, cap);
      if cap > 0 {
        assert (w + [x])[1..] == (s + [x])[|s| + 1 - cap..];
      } else {
        assert Window(w + [x], cap) == [] == Window(s + [x], cap);
      }
    }
  }

  /** A full buffer evicts exactly its oldest entry. */
  lemma PushEvictsOldest<T>(h: seq<T>, x: T, cap: nat)
    requires |h| == cap > 0
    ensures Window(h + [x], cap) == h[1..] + [x]
  {
    assert (h + [x])[1..] == h[1..] + [x];
  }

  /** A buffer that is not full keeps everything and appends. */
  lemma PushKeepsAllWhenNotFull<T>(h: seq<T>, x: T, cap: nat)
    requires |h| < cap
    ensures Window(h + [x], cap) == h + [x]
  {
  }

  /**
   * Pushing N entries one by one leaves exactly the newest `cap` of all that
   * was ever pushed, in insertion order.
   */
  lemma {:induction false} PushEachIsWindow<T>(h: seq<T>, xs: seq<T>, cap: nat)
    ensures PushEach(Window(h, cap), xs, cap) == Window(h + xs, cap)
    decreases |xs|
  {
    if xs == [] {
      assert h + xs == h;
      WindowIdempotent(h, cap);
    } else {
      WindowPush(h, xs[0], cap);
      PushEachIsWindow(h + [xs[0]], xs[1..], cap);
      assert h + [xs[0]] + xs[1..] == h + xs;
    }
  }

  lemma WindowIdempotent<T>(s: seq<T>, cap: nat)
    ensures Window(Window(s, cap), cap) == Window(s, cap)
  {
  }

  /** A ring buffer of fixed capacity, as the `CBuffer` package implements it. */
  class HistoryBuffer<T(0)> {
    // public view
    ghost var Contents: seq<T>
    ghost var Repr: set<object>

    // implementation
    const capacity: nat
    var data: array<T>
    var start: nat
    var len: nat

    ghost predicate Valid()
      reads this, Repr
      ensures Valid() ==> this in Repr
    {
      && this in Repr
      && data in Repr
      && data.Length == capacity
      && 0 < capacity
      && start < capacity
      && len <= capacity
      && |Contents| == len
      && forall i :: 0 <= i < len ==>
           Contents[i] == data[if start + i < capacity then start + i else start + i - capacity]
    }

    /** `new CBuffer(cap)`: an empty buffer. */
    constructor (cap: nat)
      requires cap > 0
      ensures Valid() && fresh(Repr)
      ensures Contents == [] && capacity == cap
    {
      capacity := cap;
      data := new T[cap];
      start, len := 0, 0;
      Contents := [];
      Repr := {this, data};
    }

    /** `push(x)`: append, overwriting the oldest entry when full. */
    method Push(x: T)
      requires Valid()
      modifies Repr
      ensures Valid() && Repr == old(Repr)
      ensures Contents == Window(old(Contents) + [x], capacity)
    {
      if len < capacity {
        var slot := if start + len < capacity then start + len else start + len - capacity;
        data[slot] := x;
        len := len + 1;
        Contents := Contents + [x];
      } else {
        PushEvictsOldest(Contents, x, capacity);
        data[start] := x;
        start := if start + 1 < capacity then start + 1 else 0;
        Contents := Contents[1..] + [x];
      }
    }

    /** `push.apply(buffer, xs)`: push every element of `xs`, first to last. */
    method PushAll(xs: seq<T>)
      requires Valid()
      modifies Repr
      ensures Valid() && Repr == old(Repr)
      ensures Contents == Window(old(Contents) + xs, capacity)
    {
      var i := 0;
      while i < |xs|
        invariant 0 <= i <= |xs|
        invariant Valid() && Repr == old(Repr)
        invariant Contents == Window(old(Contents) + xs[..i], capacity)
      {
        WindowPush(old(Contents) + xs[..i], xs[i], capacity);
        assert xs[..i + 1] == xs[..i] + [xs[i]];
        assert old(Contents) + xs[..i] + [xs[i]] == old(Contents) + xs[..i + 1];
        Push(xs[i]);
        i := i + 1;
      }
      assert xs[..i] == xs;
    }

    /** The entries, oldest first: what a room holds as its history once the buffer is filled. */
    method ToSeq() returns (s: seq<T>)
      requires Valid()
      ensures s == Contents
    {
      s := [];
      var i := 0;
      while i < len
        invariant 0 <= i <= len
        invariant s == Contents[..i]
      {
        s := s + [data[if start + i < capacity then start + i else start + i - capacity]];
        i := i + 1;
      }
    }
  }
}
