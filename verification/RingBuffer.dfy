/** The growable ring buffer of src/co_buffer.c. */
module RingBuffer {
  import opened Basics
  import opened Circular

  /** Where the contents of a ring lie: from `head` to `tail`, around the end if need be. */
  datatype Layout = Layout(size: nat, head: nat, tail: nat) {

    ghost predicate InRange() { head <= size }

    ghost function Used(): nat
      requires InRange()
    {
      if head <= tail then tail - head else size - head + tail
    }

    /** How much lies in one piece behind the head. */
    ghost function FirstPiece(): nat
      requires InRange()
    {
      if head <= tail then tail - head else size - head
    }

    /** More than `n` places are free: a ring that is too small is at least
        doubled, and a piece at its old end moves to the new end. */
    ghost function WithRoom(n: nat): Layout
      requires InRange()
    {
      if size - Used() > n then this
      else
        var more := if size * 2 >= Used() + n + 1 then size * 2 else Used() + n + 1;
        Layout(more, if tail < head then more - (size - head) else head, tail)
    }

    /** `n` more bytes are written behind the tail. */
    ghost function Extended(n: nat): Layout
      requires InRange()
    {
      var l := WithRoom(n);
      l.(tail := Place(tail, n, l.size))
    }
  }

  class RingBuf {
    var buffer: array<byte>
    var size: nat
    var head: nat
    var tail: nat
    ghost var written: seq<byte>        // all that was ever written
    ghost var taken: seq<byte>          // all that was ever read or consumed

    /** One place stays free, so that `head == tail` means empty; a buffer made
        with no place at all gets some with the first write. */
    ghost predicate InBounds()
      reads this`buffer, this`size, this`head, this`tail
    {
      size == buffer.Length && if size == 0 then head == tail == 0 else head < size && tail < size
    }

    ghost function Contents(): (s: seq<byte>)
      requires InBounds()
      reads this`buffer, this`size, this`head, this`tail, buffer
      ensures if size == 0 then s == [] else |s| < size
    {
      if size == 0 then [] else Span(buffer[..], head, tail)
    }

    ghost function Shape(): (l: Layout)
      reads this`size, this`head, this`tail
    {
      Layout(size, head, tail)
    }

    /** First in, first out: what was taken and what is left is what was written. */
    ghost predicate Valid()
      reads this, buffer
    {
      InBounds() && written == taken + Contents()
    }

    /** `coringbuf_new` */
    constructor (initsize: nat)
      ensures Valid() && Contents() == [] && Shape() == Layout(initsize, 0, 0)
      ensures written == taken == [] && fresh(buffer)
    {
      size, head, tail := initsize, 0, 0;
      buffer := new byte[initsize];
      written, taken := [], [];
    }

    /** `coringbuf_readable_size` */
    function ReadableSize(): (n: nat)
      requires InBounds()
      reads this`buffer, this`size, this`head, this`tail, buffer
      ensures n == |Contents()|
    {
      if tail >= head then tail - head else size - (head - tail)
    }

    /** `coringbuf_readonce_size`: how much lies in one piece behind `head`. */
    function ReadOnceSize(): (n: nat)
      requires InBounds()
      reads this`buffer, this`size, this`head, this`tail, buffer
      ensures head + n <= size && n <= |Contents()| && buffer[head..head + n] == Contents()[..n]
      ensures n == 0 <==> Contents() == []
    {
      if tail >= head then tail - head else size - head
    }

    /** `coringbuf_read`, which divides by the size */
    method Read(out: array<byte>, want: nat) returns (n: nat)
      requires Valid() && size > 0 && want <= out.Length && out != buffer
      modifies this`head, this`taken, out
      ensures Valid() && n == (if want <= |old(Contents())| then want else |old(Contents())|)
      ensures out[..n] == old(Contents())[..n] && out[n..] == old(out[n..])
      ensures Contents() == old(Contents())[n..] && taken == old(taken) + old(Contents())[..n]
    {
      hide Span;
      var readable := ReadableSize();
      n := if readable >= want then want else readable;
      var readonce := ReadOnceSize();
      var len := if n <= readonce then n else readonce;
      TakenAt(buffer[..], head, tail, n, len);
      CopyOut(out, n, len);
      Advance(n);
    }

    /** The head moves on, around the end if need be. */
    method Advance(n: nat)
      requires Valid() && size > 0 && n <= |Contents()|
      modifies this`head, this`taken
      ensures Valid() && Contents() == old(Contents())[n..] && taken == old(taken) + old(Contents())[..n]
      ensures head == Place(old(head), n, size)
    {
      hide Span;
      ghost var c := Contents();
      Taking(buffer[..], head, tail, n);
      PlaceIsRemainder(head, n, size);
      head := (head + n) % size;
      taken := taken + c[..n];
      assert c == c[..n] + c[n..];
    }

    /** The one or two copies of `coringbuf_read` */
    method CopyOut(out: array<byte>, n: nat, len: nat)
      requires InBounds() && out != buffer && len <= n <= out.Length && head + len <= size && n - len <= size
      modifies out
      ensures out[..n] == buffer[head..head + len] + buffer[..n - len] && out[n..] == old(out[n..])
    {
      Copy(out, 0, buffer[head..head + len]);
      if n > len {
        Copy(out, len, buffer[..n - len]);
      }
    }

    /** `coringbuf_consume_size`, which divides by the size unless it takes nothing off */
    method Consume(n: nat) returns (ok: bool)
      requires Valid() && (size > 0 || n > 0)
      modifies this`head, this`taken
      ensures Valid() && ok == (n <= |old(Contents())|)
      ensures if ok then Contents() == old(Contents())[n..] && taken == old(taken) + old(Contents())[..n]
              else Contents() == old(Contents()) && taken == old(taken)
      ensures head == if ok then Place(old(head), n, size) else old(head)
    {
      var readable := ReadableSize();
      if readable >= n {
        Advance(n);
        return true;
      }
      return false;
    }

    /** `_cb_check_and_grow`: afterwards more than `n` places are free. */
    method CheckAndGrow(n: nat)
      requires Valid()
      modifies this`buffer, this`size, this`head
      ensures Valid() && Contents() == old(Contents()) && size - |Contents()| > n
      ensures if old(size - |Contents()| <= n) then fresh(buffer) else buffer == old(buffer)
      ensures Shape() == old(Shape()).WithRoom(n)
    {
      var readable := ReadableSize();
      var writable := size - readable;
      if writable <= n {
        var newsize := if size * 2 >= readable + n + 1 then size * 2 else readable + n + 1;
        Grow(newsize);
      }
    }

    /** The bytes from `head` to the old end move to the new end, if the contents go around. */
    method Grow(newsize: nat)
      requires Valid() && newsize >= 2 * size && newsize > 0
      modifies this`buffer, this`size, this`head
      ensures Valid() && Contents() == old(Contents()) && size == newsize && fresh(buffer)
      ensures head == if old(tail < head) then newsize - old(size - head) else old(head)
    {
      hide Span;
      var more, h := Enlarge(newsize);
      if size > 0 { GrownSpan(buffer[..], more[..], head, tail, h); } else { NothingBetween(more[..]); }
      head := h;
      buffer := more;
      size := newsize;
    }

    static lemma NothingBetween(b: seq<byte>)
      requires b != []
      ensures Span(b, 0, 0) == []
    {
    }

    method Enlarge(newsize: nat) returns (more: array<byte>, h: nat)
      requires InBounds() && newsize >= 2 * size
      ensures fresh(more) && more.Length == newsize
      ensures h == (if tail < head then newsize - (size - head) else head)
      ensures forall i :: 0 <= i < size && (tail >= head || i < h) ==> more[i] == buffer[i]
      ensures tail < head ==> forall i :: h <= i < newsize ==> more[i] == buffer[head + (i - h)]
    {
      hide Span, Contents;
      more := new byte[newsize];
      forall i | 0 <= i < size {
        more[i] := buffer[i];
      }
      h := head;
      if tail < head {
        var readonce := ReadOnceSize();
        h := newsize - readonce;
        forall i | 0 <= i < readonce {
          more[h + i] := buffer[head + i];
        }
      }
    }

    /** `coringbuf_write` */
    method Write(data: seq<byte>)
      requires Valid()
      modifies this, buffer
      ensures Valid() && size > 0 && Contents() == old(Contents()) + data
      ensures written == old(written) + data && taken == old(taken)
      ensures (buffer == old(buffer) || fresh(buffer)) && Shape() == old(Shape()).Extended(|data|)
    {
      CheckAndGrow(|data|);
      Put(data);
    }

    /** The copying of `coringbuf_write`, once there is room. */
    method Put(data: seq<byte>)
      requires Valid() && size - |Contents()| > |data|
      modifies this`tail, this`written, buffer
      ensures Valid() && Contents() == old(Contents()) + data && written == old(written) + data
      ensures tail == Place(old(tail), |data|, size)
    {
      hide Span, PutBehind;
      ghost var before, c := buffer[..], Contents();
      var room := size - tail;
      var len := if |data| <= room then |data| else room;
      Copy(buffer, tail, data[..len]);
      if |data| > len {
        Copy(buffer, 0, data[len..]);
      }
      Filled(before, buffer[..], head, tail, data, len);
      Putting(before, buffer[..], head, tail, data);
      PlaceIsRemainder(tail, |data|, size);
      tail := (tail + |data|) % size;
      assert (taken + c) + data == taken + (c + data);
      written := written + data;
    }
  }

  /** `memcpy` and `memmove` */
  method Copy(dst: array<byte>, at: nat, src: seq<byte>)
    requires at + |src| <= dst.Length
    modifies dst
    ensures forall i :: 0 <= i < dst.Length ==> dst[i] == if at <= i < at + |src| then src[i - at] else old(dst[i])
  {
    forall i | 0 <= i < |src| {
      dst[at + i] := src[i];
    }
  }
}
