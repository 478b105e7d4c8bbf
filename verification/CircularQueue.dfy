/** The queue of src/co_queue.c over a circular array. */
module CircularQueue {
  import opened Basics
  import opened Circular

  const INIT_SIZE: nat := 8

  class Queue<T(0)> {
    var vec: array<T>
    var head: nat
    var tail: nat

    ghost predicate Valid()
      reads this, vec
    {
      vec.Length >= INIT_SIZE && head < vec.Length && tail < vec.Length
    }

    /** The items from the first to the last. */
    ghost function Items(): (s: seq<T>)
      requires Valid()
      reads this, vec
      ensures |s| < vec.Length
    {
      Span(vec[..], head, tail)
    }

    /** `coqueue_new` */
    constructor ()
      ensures Valid() && Items() == [] && fresh(vec)
    {
      head, tail := 0, 0;
      vec := new T[INIT_SIZE];
    }

    /** `coqueue_size` */
    function Size(): (n: nat)
      requires Valid()
      reads this, vec
      ensures n == |Items()|
    {
      if tail >= head then tail - head else vec.Length - (head - tail)
    }

    /** `_check_and_grow` */
    method CheckAndGrow()
      requires Valid()
      modifies this`vec, this`head
      ensures Valid() && Items() == old(Items()) && |Items()| + 1 < vec.Length
      ensures vec == old(vec) || fresh(vec)
    {
      var size := Size();
      var vecsize := vec.Length;
      if size + 1 >= vecsize {
        hide Span;
        var more, newhead := Enlarge();
        GrownSpan(vec[..], more[..], head, tail, newhead);
        head := newhead;
        vec := more;
      }
    }

    /** The array twice as large; items before its old end move to the new one if they go around. */
    method Enlarge() returns (more: array<T>, h: nat)
      requires Valid()
      ensures fresh(more) && more.Length == 2 * vec.Length
      ensures h == (if tail < head then more.Length - (vec.Length - head) else head)
      ensures forall i :: 0 <= i < vec.Length && (tail >= head || i < h) ==> more[i] == vec[i]
      ensures tail < head ==> forall i :: h <= i < more.Length ==> more[i] == vec[head + (i - h)]
    {
      more := new T[vec.Length * 2];
      forall i | 0 <= i < vec.Length {
        more[i] := vec[i];
      }
      h := head;
      if tail < head {
        var count := vec.Length - head;
        h := more.Length - count;
        forall i | 0 <= i < count {
          more[h + i] := vec[head + i];
        }
      }
    }

    /** `coqueue_push` */
    method Push(item: T)
      requires Valid()
      modifies this, vec
      ensures Valid() && Items() == old(Items()) + [item] && (vec == old(vec) || fresh(vec))
    {
      CheckAndGrow();
      Put(item);
    }

    method Put(item: T)
      requires Valid() && |Items()| + 1 < vec.Length
      modifies this`tail, vec
      ensures Valid() && Items() == old(Items()) + [item]
    {
      hide Span, PutBehind;
      ghost var before := vec[..];
      vec[tail] := item;
      Filled(before, vec[..], head, tail, [item], 1);
      Putting(before, vec[..], head, tail, [item]);
      PlaceIsRemainder(tail, 1, vec.Length);
      tail := (tail + 1) % vec.Length;
    }

    /** `coqueue_pop` */
    method Pop() returns (item: Option<T>)
      requires Valid()
      modifies this`head
      ensures Valid()
      ensures if old(Items()) == [] then item == None && Items() == []
              else item == Some(old(Items())[0]) && Items() == old(Items())[1..]
    {
      hide Span;
      var size := Size();
      if size == 0 {
        return None;
      }
      SpanAt(vec[..], head, tail);
      Taking(vec[..], head, tail, 1);
      PlaceIsRemainder(head, 1, vec.Length);
      item := Some(vec[head]);
      head := (head + 1) % vec.Length;
    }

    /** `coqueue_peek`; a negative index counts from the last item. */
    method Peek(index: int) returns (item: Option<T>)
      requires Valid()
      ensures item == if 0 <= index < |Items()| then Some(Items()[index])
                      else if -|Items()| <= index < 0 then Some(Items()[|Items()| + index])
                      else None
    {
      hide Span;
      var size := Size();
      var i := if index < 0 then size + index else index;
      if i < 0 || i >= size {
        return None;
      }
      SpanAt(vec[..], head, tail);
      PlaceIsRemainder(head, i, vec.Length);
      return Some(vec[(head + i) % vec.Length]);
    }
  }
}
