/** Contents that go around the end of an array, for the ring buffer of
    src/co_buffer.c and the queue of src/co_queue.c. */
module Circular {

  /** What lies between `head` and `tail`, going around the end. */
  ghost function Span<T>(b: seq<T>, head: nat, tail: nat): seq<T>
    requires head < |b| && tail < |b|
  {
    if head <= tail then b[head..tail] else b[head..] + b[..tail]
  }

  lemma GrownSpan<T>(b: seq<T>, b': seq<T>, head: nat, tail: nat, head': nat)
    requires head < |b| && tail < |b| && |b'| >= 2 * |b|
    requires head' == if tail < head then |b'| - (|b| - head) else head
    requires forall i :: 0 <= i < |b'| && (tail >= head || i < head') && i < |b| ==> b'[i] == b[i]
    requires tail < head ==> forall i :: head' <= i < |b'| ==> b'[i] == b[head + (i - head')]
    ensures Span(b', head', tail) == Span(b, head, tail)
  {
    if tail < head {
      assert b'[head'..] == b[head..] && b'[..tail] == b[..tail];
    } else {
      assert b'[head..tail] == b[head..tail];
    }
  }

  /** The place `i` behind `from`. */
  function Place(from: nat, i: nat, size: nat): nat { if from + i < size then from + i else from + i - size }

  /** Going around once, the remainder is a subtraction. */
  lemma PlaceIsRemainder(from: nat, i: nat, size: nat)
    requires from + i < 2 * size
    ensures (from + i) % size == Place(from, i, size) < size
  {
    if from + i >= size { assert from + i == size + (from + i - size); }
  }

  lemma SpanAt<T>(b: seq<T>, head: nat, tail: nat)
    requires head < |b| && tail < |b|
    ensures var s := Span(b, head, tail);
            && |s| == (if head <= tail then tail - head else |b| - head + tail)
            && |s| < |b| && Place(head, |s|, |b|) == tail
            && forall i :: 0 <= i < |s| ==> s[i] == b[Place(head, i, |b|)]
  {
  }

  lemma PlaceOnwards(from: nat, n: nat, i: nat, size: nat)
    requires from < size && n < size && i < size && n + i < size
    ensures Place(from, n, size) < size && Place(Place(from, n, size), i, size) == Place(from, n + i, size)
  {
  }

  lemma Taking<T>(b: seq<T>, head: nat, tail: nat, n: nat)
    requires head < |b| && tail < |b| && n <= |Span(b, head, tail)|
    ensures Place(head, n, |b|) < |b| && Span(b, Place(head, n, |b|), tail) == Span(b, head, tail)[n..]
  {
    SpanAt(b, head, tail);
    var h := Place(head, n, |b|);
    SpanAt(b, h, tail);
    var s, s' := Span(b, head, tail), Span(b, h, tail);
    hide Span;
    forall i | 0 <= i < |s'| ensures s'[i] == s[n + i] { PlaceOnwards(head, n, i, |b|); }
  }

  /** The first `n` bytes lie in one piece or in two. */
  lemma TakenAt<T>(b: seq<T>, head: nat, tail: nat, n: nat, len: nat)
    requires head < |b| && tail < |b| && n <= |Span(b, head, tail)|
    requires len == var once := if tail >= head then tail - head else |b| - head; if n <= once then n else once
    ensures head + len <= |b| && n - len <= |b| && Span(b, head, tail)[..n] == b[head..head + len] + b[..n - len]
  {
  }

  /** `b'` holds the contents as before, and `data` in the places behind them. */
  ghost predicate PutBehind<T>(b': seq<T>, head: nat, tail: nat, s: seq<T>, data: seq<T>) {
    && (forall i :: 0 <= i < |s| ==> Place(head, i, |b'|) < |b'| && b'[Place(head, i, |b'|)] == s[i])
    && (forall i :: 0 <= i < |data| ==> Place(tail, i, |b'|) < |b'| && b'[Place(tail, i, |b'|)] == data[i])
  }

  lemma Putting<T>(b: seq<T>, b': seq<T>, head: nat, tail: nat, data: seq<T>)
    requires head < |b| == |b'| && tail < |b| && |b| - |Span(b, head, tail)| > |data|
    requires PutBehind(b', head, tail, Span(b, head, tail), data)
    ensures Place(tail, |data|, |b|) < |b| && Span(b', head, Place(tail, |data|, |b|)) == Span(b, head, tail) + data
  {
    SpanAt(b, head, tail);
    var t, s := Place(tail, |data|, |b|), Span(b, head, tail);
    SpanAt(b', head, t);
    var s' := Span(b', head, t);
    hide Span;
    PlaceOnwards(head, |s|, |data|, |b|);
    forall i | 0 <= i < |s'| ensures s'[i] == (s + data)[i] {
      if i >= |s| { PlaceOnwards(head, |s|, i - |s|, |b|); }
    }
  }

  /** The two copies of a write fill the places behind `tail` and touch no byte in use. */
  lemma Filled<T>(b: seq<T>, b': seq<T>, head: nat, tail: nat, data: seq<T>, len: nat)
    requires head < |b| == |b'| && tail < |b| && |b| - |Span(b, head, tail)| > |data|
    requires len == if |data| <= |b| - tail then |data| else |b| - tail
    requires forall i :: 0 <= i < |b| ==>
               b'[i] == if tail <= i < tail + len then data[i - tail]
                        else if i < |data| - len then data[len + i] else b[i]
    ensures PutBehind(b', head, tail, Span(b, head, tail), data)
  {
    SpanAt(b, head, tail);
    var s := Span(b, head, tail);
    hide Span;
    forall i | 0 <= i < |s| ensures Place(head, i, |b'|) < |b'| && b'[Place(head, i, |b'|)] == s[i] {
      assert b[Place(head, i, |b|)] == s[i];
    }
  }
}
