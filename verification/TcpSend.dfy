/** The sending side of a TCP connection in src/co_ioservice.c, against a kernel
    that may accept any part of what it is offered, be interrupted or fail. */
module TcpSend {
  import opened Basics
  import opened Circular
  import opened RingBuffer

  datatype State = Invalid | New | Listen | Connecting | Connected | Closing

  function Rank(s: State): nat {
    match s
    case Invalid => 0 case New => 1 case Listen => 2 case Connecting => 3 case Connected => 4 case Closing => 5
  }

  /** What one call of `write` comes to; it accepts at most what it is offered. */
  datatype Reply = Accept(n: nat) | Interrupted | Again | Failed

  const MAX_WRITE: nat := 2048

  class Connection {
    var state: State
    var sendbuf: RingBuf?
    var wantsWrite: bool                // the poll asks for write events
    var polled: bool
    ghost var accepted: seq<byte>       // all that was taken from the client to send
    ghost var sent: seq<byte>           // all that the kernel took
    ghost var failed: bool              // an error was reported
    ghost var forced: bool              // closed with `force`

    ghost predicate Live() reads this`state { state == Connected || state == Closing }

    ghost function Pending(): seq<byte>
      requires sendbuf != null ==> sendbuf.InBounds()
      reads this`sendbuf, sendbuf, if sendbuf == null then {} else {sendbuf.buffer}
    {
      if sendbuf == null then [] else sendbuf.Contents()
    }

    /** The waiting bytes lie in one piece or in two. */
    ghost function First(): (n: nat)
      requires sendbuf != null ==> sendbuf.InBounds()
      reads this`sendbuf, sendbuf, if sendbuf == null then {} else {sendbuf.buffer}
      ensures n <= |Pending()| && (n == 0 <==> Pending() == [])
    {
      if sendbuf == null then 0 else sendbuf.Shape().FirstPiece()
    }

    ghost function Second(): nat
      requires sendbuf != null ==> sendbuf.InBounds()
      reads this`sendbuf, sendbuf, if sendbuf == null then {} else {sendbuf.buffer}
    {
      |Pending()| - First()
    }

    ghost function Repr(): set<object>
      reads this`sendbuf, sendbuf
    {
      if sendbuf == null then {} else var s: RingBuf := sendbuf; {s, s.buffer}
    }

    /** Nothing is lost or reordered, and write events come while bytes wait. */
    ghost predicate Flowing()
      reads this, Repr()
    {
      && Live() && (sendbuf != null ==> sendbuf.Valid())
      && accepted == sent + Pending() && polled && (Pending() != [] ==> wantsWrite) && !failed && !forced
    }

    /** While it lives, what was accepted has been sent or waits in the ring, and
        waiting bytes keep write events on.  Once it is gone nothing is missing,
        unless an error was reported or the close was forced. */
    ghost predicate Valid()
      reads this, Repr()
    {
      && (sendbuf != null ==> sendbuf.Valid())
      && (Live() ==> Flowing())
      && (state == Closing ==> Pending() != [])
      && (!Live() ==> sendbuf == null)
      && (if state == Invalid then !polled else !failed && !forced)
      && (Rank(New) <= Rank(state) < Rank(Connected) ==> accepted == sent == [])
      && (Rank(Listen) <= Rank(state) < Rank(Connected) ==> polled)
      && (!Live() ==> sent <= accepted && (failed || forced || sent == accepted))
    }

    /** A connection that is being made. */
    constructor ()
      ensures Valid() && state == Connecting && accepted == sent == [] && !failed && !forced
    {
      state, sendbuf, wantsWrite, polled := Connecting, null, true, true;
      accepted, sent, failed, forced := [], [], false, false;
    }

    /** A connection that was accepted (`_cotcp_handle_accept`): it may send at
        once, and write events are off. */
    constructor Accepted()
      ensures Valid() && state == Connected && !wantsWrite && polled && sendbuf == null
      ensures accepted == sent == [] && !failed && !forced
    {
      state, sendbuf, wantsWrite, polled := Connected, null, false, true;
      accepted, sent, failed, forced := [], [], false, false;
    }

    /** `_cotcp_handle_connect`, when the connection has been made */
    method Established()
      requires Valid() && state == Connecting
      modifies this`state
      ensures Valid() && state == Connected
    {
      state := Connected;
    }

    /** `_cotcp_has_senddata` */
    predicate HasSendData()
      requires sendbuf != null ==> sendbuf.InBounds()
      reads this`sendbuf, sendbuf, if sendbuf == null then {} else {sendbuf.buffer}
      ensures HasSendData() <==> Pending() != []
    {
      sendbuf != null && sendbuf.ReadableSize() != 0
    }

    /** `_cotcp_close`; the caller answers for bytes that still wait. */
    method Drop()
      requires state == Invalid ==> sendbuf == null && !polled
      requires sent <= accepted && (failed || forced || sent == accepted)
      modifies this`state, this`sendbuf, this`wantsWrite, this`polled
      ensures Valid() && state == Invalid
    {
      if state == Invalid {
        return;
      }
      polled := false;
      wantsWrite := false;
      sendbuf := null;
      state := Invalid;
    }

    /** `_cotcp_handle_error`; the client's error callback does not send again. */
    method HandleError()
      requires Valid() || Flowing()
      modifies this`state, this`sendbuf, this`wantsWrite, this`polled, this`failed
      ensures Valid() && state == Invalid && (old(state) != Invalid ==> failed)
    {
      if state == Invalid {
        return;
      }
      assert Live() ==> sent <= accepted;
      failed := true;
      Drop();
    }

    /** `_cotcp_check_closing`, when nothing waits any more */
    method CheckClosing()
      requires Flowing() && Pending() == []
      modifies this`state, this`sendbuf, this`wantsWrite, this`polled
      ensures Valid() && state == if old(state) == Closing then Invalid else old(state)
      ensures old(state) != Closing ==> sendbuf == old(sendbuf) && !wantsWrite
    {
      if state == Closing {
        Drop();
      } else {
        wantsWrite := false;
      }
    }

    /** One call of `write` for the first bytes in the ring: what it returns, and
        what the kernel has taken then. */
    method KernelWrite(data: seq<byte>, reply: Reply) returns (n: int)
      modifies this`sent
      ensures if reply.Accept?
              then n == (if reply.n <= |data| then reply.n else |data|) && sent == old(sent) + data[..n]
              else n < 0 && sent == old(sent)
    {
      match reply
      case Accept(k) =>
        n := if k <= |data| then k else |data|;
        sent := sent + data[..n];
      case _ => n := -1;
    }

    /** What a call of `write` is offered. */
    method Offer() returns (data: seq<byte>)
      requires sendbuf != null && sendbuf.Valid() && Pending() != []
      ensures |data| == (if MAX_WRITE <= First() then MAX_WRITE else First()) && data == Pending()[..|data|]
    {
      hide Span;
      var once := sendbuf.ReadOnceSize();
      var size := if MAX_WRITE <= once then MAX_WRITE else once;
      data := sendbuf.buffer[sendbuf.head..sendbuf.head + size];
      assert data == sendbuf.buffer[sendbuf.head..sendbuf.head + once][..size];
    }

    /** The bytes that the kernel took leave the ring. */
    method TakeOff(n: nat)
      requires sendbuf != null && sendbuf.Valid() && Pending() != [] && n <= First()
      modifies sendbuf`head, sendbuf`taken
      ensures sendbuf.Valid() && Pending() == old(Pending())[n..]
      ensures First() == if n < old(First()) then old(First()) - n else old(Second())
    {
      hide Span, Place;
      PieceLeft(sendbuf.size, sendbuf.head, sendbuf.tail, n, sendbuf.ReadableSize());
      var _ := sendbuf.Consume(n);
    }

    /** The whole piece at the head is offered, up to 2048 bytes of it. */
    method SendSome(reply: Reply) returns (nwrite: int, size: nat)
      requires Flowing() && Pending() != []
      modifies this`sent, sendbuf`head, sendbuf`taken
      ensures Flowing() && size == (if MAX_WRITE <= old(First()) then MAX_WRITE else old(First()))
      ensures reply.Accept? ==> nwrite == if reply.n <= size then reply.n else size
      ensures nwrite <= size && (nwrite < 0 <==> !reply.Accept?)
      ensures nwrite <= |old(Pending())| && (nwrite < size ==> Pending() != [])
      ensures if nwrite < 0 then Pending() == old(Pending()) && sent == old(sent)
              else Pending() == old(Pending())[nwrite..] && sent == old(sent) + old(Pending())[..nwrite]
      ensures First() == if nwrite < 0 then old(First())
                         else if nwrite < old(First()) then old(First()) - nwrite else old(Second())
    {
      hide Span, RingBuf.Contents, Layout.FirstPiece;
      ghost var p, s := Pending(), sent;
      var data := Offer();
      size := |data|;
      nwrite := KernelWrite(data, reply);
      if nwrite >= 0 {
        assert data[..nwrite] == p[..nwrite];
        SplitPending(s, p, nwrite);
        TakeOff(nwrite);
      }
    }

    static lemma PieceLeft(size: nat, head: nat, tail: nat, n: nat, readable: nat)
      requires head < size && tail < size && readable == if tail >= head then tail - head else size - (head - tail)
      requires n <= if tail >= head then tail - head else size - head
      ensures var first, h := if tail >= head then tail - head else size - head, Place(head, n, size);
              (if tail >= h then tail - h else size - h) == if n < first then first - n else readable - first
    {
    }

    static lemma SplitPending(s: seq<byte>, p: seq<byte>, n: nat)
      requires n <= |p|
      ensures s + p == s + p[..n] + p[n..] && |p[n..]| == |p| - n
    {
    }

    /** One round of the loop of `_cotcp_handle_write`, up to its decisions. */
    method WriteOnce(replies: seq<Reply>, i: nat, ghost s0: seq<byte>, ghost p0: seq<byte>, ghost total: nat)
      returns (reply: Reply, nwrite: int, size: nat)
      requires Flowing() && Pending() != [] && i <= |replies|
      requires SoFar(s0, p0, total, sent, Pending(), First(), replies[i..])
      modifies this`sent, sendbuf`head, sendbuf`taken
      ensures Flowing() && reply == if i < |replies| then replies[i] else Again
      ensures nwrite <= size && (nwrite < 0 <==> !reply.Accept?) && (nwrite < size ==> Pending() != [])
      ensures reply.Accept? && nwrite < size ==> reply.n < MAX_WRITE
      ensures if nwrite == size || reply == Interrupted
              then i < |replies| && SoFar(s0, p0, total, sent, Pending(), First(), replies[i + 1..])
              else sent == s0 + p0[..total]
    {
      hide RingBuf.Contents, Layout.FirstPiece, SoFar;
      reply := if i < |replies| then replies[i] else Again;
      ghost var first, s, p := First(), sent, Pending();
      nwrite, size := SendSome(reply);
      GoneFurther(s0, p0, total, s, p, first, replies, i, nwrite, sent, Pending(), First());
    }

    /** The loop of `_cotcp_handle_write`; `stopped` if it returns from within. */
    method WriteAll(replies: seq<Reply>) returns (ghost used: nat, stopped: bool)
      requires Flowing()
      modifies this`state, this`sendbuf, this`wantsWrite, this`polled, this`failed, this`sent
      modifies if sendbuf == null then {} else {sendbuf}
      ensures sent == old(sent) + old(Pending())[..Written(old(First()), old(Second()), replies)]
      ensures GoneOn(replies, used)
      ensures !stopped ==> Flowing() && Pending() == []
      ensures stopped ==> Valid()
      ensures if stopped && failed then state == Invalid && used < |replies| && replies[used] == Failed
              else state == old(state) && sendbuf == old(sendbuf)
      ensures stopped && !failed ==> Pending() != [] && wantsWrite && StoppedEarly(replies, used)
    {
      hide Span, RingBuf.Contents, Written, SoFar, GoneOn, Layout.FirstPiece;
      used := 0;
      GoesOn(replies);
      var calls := 0;
      ghost var total := Written(First(), Second(), replies);
      NothingSent(sent, Pending(), First(), replies);
      while HasSendData()
        invariant Flowing() && state == old(state) && sendbuf == old(sendbuf)
        invariant calls <= |replies| && GoneOn(replies, calls)
        invariant SoFar(old(sent), old(Pending()), total, sent, Pending(), First(), replies[calls..])
        decreases |replies| - calls
      {
        used := calls;
        var reply, nwrite, size := WriteOnce(replies, calls, old(sent), old(Pending()), total);
        if nwrite < 0 {
          if reply == Interrupted {
            calls := calls + 1;
            continue;
          } else if reply == Again {
            return used, true;
          } else {
            HandleError();
            return used, true;
          }
        }
        calls := calls + 1;
        used := calls;
        if nwrite != size {
          return used, true;
        }
      }
      used := calls;
      AllSent(old(sent), old(Pending()), total, sent, First(), replies[calls..]);
      return used, false;
    }

    /** `_cotcp_handle_write`, with what the calls of `write` come to; after the
        last of them the kernel takes nothing more for now.  It stops only when
        nothing waits, the kernel is full or took less than offered, or on an error. */
    method HandleWrite(replies: seq<Reply>) returns (ghost used: nat)
      requires Valid() && (Live() || state == Invalid)
      modifies this`state, this`sendbuf, this`wantsWrite, this`polled, this`failed, this`sent
      modifies if sendbuf == null then {} else {sendbuf}
      ensures Valid() && accepted == old(accepted) && forced == old(forced)
      ensures sent == old(sent) + old(Pending())[..Written(old(First()), old(Second()), replies)]
      ensures GoneOn(replies, used) && (state == old(state) || state == Invalid)
      ensures Live() ==> sendbuf == old(sendbuf) && (wantsWrite <==> Pending() != [])
      ensures Live() ==> wantsWrite ==> StoppedEarly(replies, used)
      ensures failed ==> old(failed) || (used < |replies| && replies[used] == Failed)
      ensures failed != old(failed) ==> state == Invalid
      ensures state != old(state) && failed == old(failed) ==> old(state) == Closing && sent == accepted
    {
      hide Span, RingBuf.Contents, Written, GoneOn, StoppedEarly, Layout.FirstPiece;
      used := 0;
      NothingWritten(replies);
      GoesOn(replies);
      if state == Invalid {
        return;
      }
      var stopped;
      used, stopped := WriteAll(replies);
      if !stopped {
        CheckClosing();
      }
    }

    /** `cotcp_send` */
    method Send(data: seq<byte>, replies: seq<Reply>) returns (ok: bool, ghost used: nat)
      requires Valid()
      modifies this, Repr()
      ensures Valid() && ok == (old(state) == Connected && data != [])
      ensures accepted == if ok then old(accepted) + data else old(accepted)
      ensures !ok ==> state == old(state) && sent == old(sent)
      ensures ok ==> var p, first := old(Pending()) + data, old(RingFor(|data|)).Extended(|data|).FirstPiece();
                     first <= |p| && sent == old(sent) + p[..Written(first, |p| - first, replies)]
      ensures ok ==> GoneOn(replies, used) && forced == old(forced)
      ensures ok ==> state == Connected || (state == Invalid && failed)
      ensures ok && state == Connected ==>
                (wantsWrite <==> Pending() != []) && (wantsWrite ==> StoppedEarly(replies, used))
    {
      hide Span, RingBuf.Contents, StoppedEarly, Written;
      if state != Connected || |data| == 0 {
        return false, 0;
      }
      Enqueue(data);
      used := HandleWrite(replies);
      ok := true;
    }

    /** The ring in which the next bytes go: one that is made for them has twice the room. */
    ghost function RingFor(n: nat): (l: Layout)
      requires sendbuf != null ==> sendbuf.InBounds()
      reads this`sendbuf, sendbuf, if sendbuf == null then {} else {sendbuf.buffer}
      ensures l.InRange()
    {
      if sendbuf == null then Layout(2 * n, 0, 0) else sendbuf.Shape()
    }

    method MakeRing(n: nat)
      requires Valid() && state == Connected
      modifies this`sendbuf
      ensures Valid() && sendbuf != null && Pending() == old(Pending()) && sendbuf.Shape() == old(RingFor(n))
      ensures Repr() == old(Repr()) || (old(sendbuf) == null && fresh(Repr()))
    {
      if sendbuf == null {
        sendbuf := new RingBuf(n * 2);
      }
    }

    /** The first half of `cotcp_send`: the bytes go into the ring, and write events on. */
    method Enqueue(data: seq<byte>)
      requires Valid() && state == Connected && data != []
      modifies this`sendbuf, this`wantsWrite, this`accepted, Repr()
      ensures Valid() && sendbuf != null && Pending() == old(Pending()) + data && accepted == old(accepted) + data
      ensures First() == old(RingFor(|data|)).Extended(|data|).FirstPiece()
      ensures fresh(Repr() - old(Repr()))
    {
      hide Span, RingBuf.Contents, Layout.Extended, Layout.FirstPiece;
      MakeRing(|data|);
      ghost var p := Pending();
      sendbuf.Write(data);
      accepted := accepted + data;
      assert sent + p + data == sent + (p + data);
      wantsWrite := true;
    }

    /** `cotcp_close` */
    method Close(force: bool, replies: seq<Reply>) returns (ok: bool, ghost used: nat)
      requires Valid()
      modifies this, Repr()
      ensures Valid() && ok == (Rank(New) < Rank(old(state)) < Rank(Closing)) && accepted == old(accepted)
      ensures !ok ==> state == old(state) && sent == old(sent)
      ensures forced == (old(forced) || (ok && force))
      ensures ok ==> sent == old(sent) + old(Pending())[..Written(old(First()), old(Second()), replies)]
      ensures ok ==> GoneOn(replies, used) && (sent == accepted || failed || StoppedEarly(replies, used))
      ensures ok ==> state == if force || failed || sent == accepted then Invalid else Closing
    {
      hide Span, RingBuf.Contents, StoppedEarly, Written;
      used := 0;
      NothingWritten(replies);
      if Rank(New) < Rank(state) < Rank(Closing) {
        if HasSendData() {
          used := HandleWrite(replies);
        }
        if force || !HasSendData() {
          forced := forced || force;
          Drop();
        } else {
          state := Closing;
        }
        return true, used;
      }
      return false, used;
    }
  }

  /** How many bytes a kernel with these replies takes from contents that lie in
      one piece of `first` bytes and another of `second` behind it: each call of
      `write` offers the whole piece in front, up to 2048 bytes, and the run goes
      on as long as all that was offered is taken. */
  ghost function Written(first: nat, second: nat, replies: seq<Reply>): (n: nat)
    ensures n <= first + second
    decreases |replies|, second
  {
    if first == 0 then (if second == 0 then 0 else Written(second, 0, replies))
    else if replies == [] then 0
    else
      match replies[0]
      case Accept(n) =>
        var size := if MAX_WRITE <= first then MAX_WRITE else first;
        if n < size then n else size + Written(first - size, second, replies[1..])
      case Interrupted => Written(first, second, replies[1..])
      case _ => 0
  }

  lemma NothingWritten(replies: seq<Reply>)
    ensures Written(0, 0, replies) == 0 && replies[0..] == replies
  {
  }

  lemma WrittenStep(first: nat, second: nat, replies: seq<Reply>, i: nat)
    requires i <= |replies|
    ensures first == 0 && second == 0 ==> Written(first, second, replies[i..]) == 0
    ensures first > 0 && (i == |replies| || replies[i] == Again || replies[i] == Failed) ==>
              Written(first, second, replies[i..]) == 0
    ensures first > 0 && i < |replies| && replies[i] == Interrupted ==>
              Written(first, second, replies[i..]) == Written(first, second, replies[i + 1..])
    ensures first > 0 && i < |replies| && replies[i].Accept? ==>
              var size, n := if MAX_WRITE <= first then MAX_WRITE else first, replies[i].n;
              Written(first, second, replies[i..]) ==
                if n < size then n
                else if size < first then size + Written(first - size, second, replies[i + 1..])
                else size + Written(second, 0, replies[i + 1..])
  {
  }

  /** Of `p0` a first part is sent after `s0` and the rest waits; the replies left
      make it `total` bytes that are sent in the end. */
  ghost predicate SoFar(s0: seq<byte>, p0: seq<byte>, total: nat, sent: seq<byte>, pending: seq<byte>, first: nat,
                        replies: seq<Reply>) {
    var n := |sent| - |s0|;
    && 0 <= n <= total <= |p0| && sent == s0 + p0[..n] && pending == p0[n..] && first <= |pending|
    && total == n + Written(first, |pending| - first, replies)
  }

  lemma NothingSent(s: seq<byte>, p: seq<byte>, first: nat, replies: seq<Reply>)
    requires first <= |p|
    ensures SoFar(s, p, Written(first, |p| - first, replies), s, p, first, replies[0..])
  {
    assert replies[0..] == replies;
  }

  lemma AllSent(s0: seq<byte>, p0: seq<byte>, total: nat, sent: seq<byte>, first: nat, replies: seq<Reply>)
    requires SoFar(s0, p0, total, sent, [], first, replies)
    ensures sent == s0 + p0[..total]
  {
  }

  /** A call that takes `nwrite` bytes, or none if that is negative. */
  lemma GoneFurther(s0: seq<byte>, p0: seq<byte>, total: nat, s: seq<byte>, p: seq<byte>, first: nat,
                    replies: seq<Reply>, i: nat, nwrite: int, s': seq<byte>, p': seq<byte>, first': nat)
    requires first > 0 && i <= |replies| && SoFar(s0, p0, total, s, p, first, replies[i..])
    requires var size := if MAX_WRITE <= first then MAX_WRITE else first;
             if i < |replies| && replies[i].Accept? then nwrite == if replies[i].n <= size then replies[i].n else size
             else nwrite < 0
    requires if nwrite < 0 then s' == s && p' == p && first' == first
             else s' == s + p[..nwrite] && p' == p[nwrite..]
                  && first' == if nwrite < first then first - nwrite else |p| - first
    ensures if i < |replies| && (replies[i] == Interrupted || (replies[i].Accept? && nwrite >= MAX_WRITE)
                                 || (replies[i].Accept? && nwrite == first))
            then SoFar(s0, p0, total, s', p', first', replies[i + 1..])
            else s' == s0 + p0[..total]
  {
    hide Written;
    WrittenStep(first, |p| - first, replies, i);
    if nwrite >= 0 { SentOn(s0, p0, |s| - |s0|, nwrite); }
  }

  lemma SentOn(s0: seq<byte>, p0: seq<byte>, n: nat, k: nat)
    requires n + k <= |p0|
    ensures s0 + p0[..n] + p0[n..][..k] == s0 + p0[..n + k] && p0[n..][k..] == p0[n + k..]
  {
  }

  /** The calls made went on: none failed or was refused. */
  ghost predicate GoneOn(replies: seq<Reply>, used: nat) {
    used <= |replies| && forall i :: 0 <= i < used ==> replies[i].Accept? || replies[i] == Interrupted
  }

  lemma GoesOn(replies: seq<Reply>)
    ensures GoneOn(replies, 0)
    ensures forall i :: 0 <= i < |replies| && GoneOn(replies, i) && replies[i] != Again && replies[i] != Failed ==>
                          GoneOn(replies, i + 1)
  {
  }

  /** The kernel gave a reason not to go on writing. */
  ghost predicate StoppedEarly(replies: seq<Reply>, used: nat) {
    || used >= |replies|
    || replies[used] == Again
    || (used > 0 && replies[used - 1].Accept? && replies[used - 1].n < MAX_WRITE)
  }

  /** The number of calls of `write` that `n` bytes in one piece take. */
  ghost function Calls(n: nat): nat { (n + MAX_WRITE - 1) / MAX_WRITE }

  /** A kernel that takes all it is offered. */
  ghost predicate Willing(replies: seq<Reply>) {
    forall i :: 0 <= i < |replies| ==> replies[i].Accept? && replies[i].n >= MAX_WRITE
  }

  lemma {:induction false} WillingTakes(first: nat, second: nat, replies: seq<Reply>)
    requires Willing(replies)
    ensures Written(first, second, replies) == first + second <==> |replies| >= Calls(first) + Calls(second)
    decreases |replies|, second
  {
    if first == 0 {
      if second > 0 { WillingTakes(second, 0, replies); }
    } else if replies != [] {
      var size := if MAX_WRITE <= first then MAX_WRITE else first;
      assert Calls(first) == 1 + Calls(first - size);
      WillingTakes(first - size, second, replies[1..]);
    }
  }

  /** A kernel that takes all it is offered is done after one call for every 2048
      bytes of each piece, begun or full, and not before. */
  lemma WillingKernel(sent0: seq<byte>, pending: seq<byte>, first: nat, sent: seq<byte>, replies: seq<Reply>)
    requires first <= |pending| && Willing(replies)
    requires sent == sent0 + pending[..Written(first, |pending| - first, replies)]
    ensures sent == sent0 + pending <==> |replies| >= Calls(first) + Calls(|pending| - first)
  {
    WillingTakes(first, |pending| - first, replies);
    var n := Written(first, |pending| - first, replies);
    assert n == |pending| ==> pending[..n] == pending;
    assert n < |pending| ==> |sent| < |sent0 + pending|;
  }

  /** One piece of up to 2048 bytes is gone with the first call that takes it;
      the first bytes that are sent on a connection are such a piece. */
  lemma OneCall(n: nat, replies: seq<Reply>)
    requires n <= MAX_WRITE && replies != [] && replies[0].Accept? && replies[0].n >= n
    ensures Written(n, 0, replies) == n
    ensures n > 0 ==> Layout(2 * n, 0, 0).Extended(n).FirstPiece() == n
  {
  }
}
