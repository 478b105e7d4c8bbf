/** Where the timing wheel keeps a timer, as arithmetic on clock values.

    `now` and `due` are unbounded absolute ticks; the program only ever sees
    them modulo 2^32.  The wheel has 512 lists: list k < 256 is slot k of the
    root wheel and list 256 + 64*i + k is slot k of the i-th outer wheel. */
module WheelSlots {

  const U32: nat := 0x1_0000_0000
  const TVR_SIZE: nat := 256
  const TVN_SIZE: nat := 64
  const SLOTS: nat := 512

  /** 2^(8 + 6*i): how many ticks one slot of outer wheel `i` spans. */
  function Span(i: nat): (r: nat)
    requires i <= 4
    ensures r > 0
  {
    if i == 0 then 0x100 else if i == 1 then 0x4000 else if i == 2 then 0x10_0000
    else if i == 3 then 0x400_0000 else 0x1_0000_0000
  }

  function FirstIndex(v: nat): (r: nat)
    ensures r < TVR_SIZE
  {
    v % TVR_SIZE
  }

  /** Slot `k` of outer wheel `i` as a list number. */
  function OuterSlot(i: nat, k: nat): nat { 256 + 64 * i + k }

  function NthIndex(v: nat, i: nat): (r: nat)
    requires i < 4
    ensures r < TVN_SIZE
  {
    (v / Span(i)) % TVN_SIZE
  }

  /** The value a `uint32_t` holds after `x` was stored in it. */
  function Wrap(x: int): (r: nat)
    ensures r < U32
  {
    x % 0x1_0000_0000
  }

  lemma WrapAdd(x: nat, d: nat)
    ensures Wrap(Wrap(x) + d) == Wrap(x + d)
  {
    assert x == (x / 0x1_0000_0000) * 0x1_0000_0000 + Wrap(x);
  }

  /** `a - b` in 32-bit unsigned arithmetic. */
  function Minus32(a: nat, b: nat): (r: nat)
    ensures r < U32
  {
    Wrap(a - b)
  }

  /** The list `_cotw_add` picks for a timer, from the 32-bit values alone. */
  function SlotFor(currtick: nat, expire: nat): (k: nat)
    ensures k < SLOTS
  {
    var idx := Minus32(expire, currtick);
    if idx < TVR_SIZE then FirstIndex(expire)
    else if idx < Span(1) then 256 + NthIndex(expire, 0)
    else if idx < Span(2) then 256 + 64 + NthIndex(expire, 1)
    else if idx < Span(3) then 256 + 128 + NthIndex(expire, 2)
    else 256 + 192 + NthIndex(expire, 3)
  }

  /** `due` rounded down to the tick at which its slot of wheel `i` is emptied. */
  function Aligned(due: nat, i: nat): nat
    requires i < 4
  {
    due - due % Span(i)
  }

  predicate InOuter(now: nat, due: nat, i: nat, k: nat)
    requires i < 4
  {
    now < Aligned(due, i) < now + Span(i + 1) && k == NthIndex(due, i)
  }

  /** The residence invariant: a timer due at `due` may be in list `k`. */
  predicate Resides(now: nat, due: nat, k: nat) {
    if k < 256 then now < due < now + 256 && k == due % 256
    else if k < SLOTS then InOuter(now, due, (k - 256) / 64, (k - 256) % 64)
    else false
  }

  lemma DropsMultiple(a: nat, b: nat)
    ensures (64 * a + b) % 64 == b % 64
  {
  }

  lemma NthIndexIgnoresWrap(e: nat, i: nat)
    requires i < 4
    ensures NthIndex(Wrap(e), i) == NthIndex(e, i)
  {
    var q, r, s := e / U32, Wrap(e), Span(i);
    assert e == q * U32 + r;
    var a := q * if i == 0 then 0x4_0000 else if i == 1 then 0x1000 else if i == 2 then 0x40 else 1;
    assert e == 64 * a * s + r;
    assert e / s == 64 * a + r / s by {
      if i == 0 { } else if i == 1 { } else if i == 2 { } else { }
    }
    DropsMultiple(a, r / s);
  }

  lemma DifferenceIgnoresWrap(now: nat, due: nat)
    requires now <= due < now + U32
    ensures Minus32(Wrap(due), Wrap(now)) == due - now
  {
    var q, p := due / U32, now / U32;
    assert due == q * U32 + Wrap(due) && now == p * U32 + Wrap(now);
    assert q == p || q == p + 1;
  }

  lemma OuterHome(now: nat, due: nat, i: nat)
    requires i < 4 && Span(i) <= due - now < Span(i + 1)
    ensures InOuter(now, due, i, NthIndex(due, i))
  {
    AlignedIsMultiple(due, i);
  }

  lemma OuterList(i: nat, k: nat)
    requires i < 4 && k < 64
    ensures (256 + 64 * i + k - 256) / 64 == i && (256 + 64 * i + k - 256) % 64 == k
  {
  }

  lemma SlotForOuter(currtick: nat, expire: nat, i: nat)
    requires i < 4 && Span(i) <= Minus32(expire, currtick) < Span(i + 1)
    ensures SlotFor(currtick, expire) == 256 + 64 * i + NthIndex(expire, i)
  {
    if i == 0 { } else if i == 1 { } else if i == 2 { } else { }
  }

  lemma RootIndexIgnoresWrap(e: nat)
    ensures FirstIndex(Wrap(e)) == e % 256 == e % Span(0)
  {
    assert e == (e / U32) * 0x100_0000 * 256 + Wrap(e);
  }

  /** The list picked by `_cotw_add` satisfies the residence invariant for
      every future deadline within 2^32 ticks, at every clock value and
      across any wrap-around; a timer due now goes to the list about to fire. */
  lemma AddFindsHome(now: nat, due: nat)
    requires now <= due < now + U32
    ensures var k := SlotFor(Wrap(now), Wrap(due));
            if due == now then k == now % 256 else Resides(now, due, k)
  {
    DifferenceIgnoresWrap(now, due);
    var d := due - now;
    if d < 256 {
      RootIndexIgnoresWrap(due);
    } else {
      var i := if d < Span(1) then 0 else if d < Span(2) then 1 else if d < Span(3) then 2 else 3;
      SlotForOuter(Wrap(now), Wrap(due), i);
      NthIndexIgnoresWrap(due, i);
      OuterHome(now, due, i);
      OuterList(i, NthIndex(due, i));
    }
  }

  /** The lists that a tick to clock value `now` empties into lower wheels. */
  predicate Cascades(now: nat, i: nat, k: nat)
    requires i < 4
  {
    now % Span(i) == 0 && k == NthIndex(now, i)
  }

  /** A slot is emptied exactly at the aligned tick of everything in it. */
  lemma CascadedExactlyWhenAligned(now: nat, due: nat, i: nat, k: nat)
    requires i < 4 && InOuter(now, due, i, k)
    ensures Cascades(now + 1, i, k) <==> Aligned(due, i) == now + 1
  {
    var s, t := Span(i), Aligned(due, i);
    assert Span(i + 1) == 64 * s;
    AlignedIsMultiple(due, i);
    if t == now + 1 {
      SameQuotient(due, t, i);
    }
    if Cascades(now + 1, i, k) {
      SameSlotSameTick(now + 1, due, i);
    }
  }

  lemma AlignedIsMultiple(due: nat, i: nat)
    requires i < 4
    ensures Aligned(due, i) % Span(i) == 0 && Aligned(due, i) / Span(i) == due / Span(i)
    ensures Aligned(due, i) <= due < Aligned(due, i) + Span(i)
  {
    var s, q := Span(i), due / Span(i);
    assert due == s * q + due % s;
    assert Aligned(due, i) == s * q;
    MultipleDivides(s, q);
  }

  lemma MultipleDivides(s: nat, q: nat)
    requires s in {0x100, 0x4000, 0x10_0000, 0x400_0000}
    ensures (s * q) % s == 0 && (s * q) / s == q
  {
    if s == 0x100 { } else if s == 0x4000 { } else if s == 0x10_0000 { } else { }
  }

  lemma SameQuotient(due: nat, t: nat, i: nat)
    requires i < 4 && t == Aligned(due, i)
    ensures NthIndex(t, i) == NthIndex(due, i) && t % Span(i) == 0
  {
    AlignedIsMultiple(due, i);
  }

  lemma CloseQuotients(s: nat, x: nat, y: nat)
    requires s in {0x100, 0x4000, 0x10_0000, 0x400_0000}
    requires s * x <= s * y < s * x + s * 64 && x % 64 == y % 64
    ensures x == y
  {
    if s == 0x100 { } else if s == 0x4000 { } else if s == 0x10_0000 { } else { }
  }

  lemma SameSlotSameTick(c: nat, due: nat, i: nat)
    requires i < 4 && c % Span(i) == 0 && NthIndex(c, i) == NthIndex(due, i)
    requires c <= Aligned(due, i) < c + Span(i + 1)
    ensures Aligned(due, i) == c
  {
    AlignedIsMultiple(due, i);
    var s, x, y := Span(i), c / Span(i), due / Span(i);
    assert c == s * x && Aligned(due, i) == s * y && Span(i + 1) == s * 64;
    CloseQuotients(s, x, y);
  }

  /** Advancing the clock keeps every timer whose slot is not emptied at home. */
  lemma AdvanceKeepsOuter(now: nat, due: nat, k: nat)
    requires 256 <= k < SLOTS && Resides(now, due, k)
    requires !Cascades(now + 1, (k - 256) / 64, (k - 256) % 64)
    ensures Resides(now + 1, due, k)
  {
    CascadedExactlyWhenAligned(now, due, (k - 256) / 64, (k - 256) % 64);
  }

  /** What leaves an emptied slot lands in the list about to fire if it is due
      now, and strictly further in otherwise: never in the wheel it came from,
      nor in any list emptied by the same tick. */
  lemma CascadeMovesInward(now: nat, due: nat, i: nat, k: nat)
    requires i < 4 && InOuter(now, due, i, k) && Cascades(now + 1, i, k)
    ensures var c := now + 1;
            var k' := SlotFor(Wrap(c), Wrap(due));
            && c <= due < c + Span(i)
            && (if due == c then k' == c % 256 else Resides(c, due, k'))
            && k' < 256 + 64 * i
            && (k' >= 256 ==> !Cascades(c, (k' - 256) / 64, (k' - 256) % 64))
  {
    var c := now + 1;
    CascadedExactlyWhenAligned(now, due, i, k);
    AlignedIsMultiple(due, i);
    AddFindsHome(c, due);
    DifferenceIgnoresWrap(c, due);
    var k' := SlotFor(Wrap(c), Wrap(due));
    if k' >= 256 {
      var j := (k' - 256) / 64;
      assert InOuter(c, due, j, (k' - 256) % 64);
      if Cascades(c, j, (k' - 256) % 64) {
        SameSlotSameTick(c, due, j);
        assert false;
      }
    }
  }

  lemma ResidesLater(now: nat, due: nat, k: nat)
    requires Resides(now, due, k)
    ensures now < due && k < SLOTS
  {
    if k >= 256 { AlignedIsMultiple(due, (k - 256) / 64); }
  }

  /** Whatever sits in the root list of the current tick is due right now. */
  lemma RootSlotIsDue(c: nat, due: nat)
    requires c <= due < c + 256 && due % 256 == c % 256
    ensures due == c
  {
  }

  // ---- one tick, level by level ---------------------------------------------

  /** Where a timer may be in the tick to `c` once the outer wheels below `i`
      have been dealt with. */
  predicate Mid(c: nat, due: nat, k: nat, i: nat) {
    if k < 256 then c <= due < c + 256 && k == due % 256
    else if k < SLOTS then
      if (k - 256) / 64 < i then Resides(c, due, k) else c > 0 && Resides(c - 1, due, k)
    else false
  }

  /** After the cascades of a tick, the list about to fire holds exactly the
      timers due now, and everything else is at home. */
  predicate Sorted(c: nat, due: nat, k: nat) {
    && k < SLOTS
    && (due == c <==> k == c % 256)
    && (due != c ==> Resides(c, due, k))
  }

  lemma MidStart(now: nat, due: nat, k: nat)
    requires Resides(now, due, k)
    ensures Mid(now + 1, due, k, 0)
  {
  }

  /** The list `_cotw_tick` empties at level `i`. */
  function SlotToEmpty(c: nat, i: nat): nat
    requires i < 4
  {
    OuterSlot(i, NthIndex(c, i))
  }

  lemma MidStep(c: nat, due: nat, k: nat, i: nat)
    requires i < 4 && c % Span(i) == 0 && Mid(c, due, k, i)
    ensures Mid(c, due, if k == SlotToEmpty(c, i) then SlotFor(Wrap(c), Wrap(due)) else k, i + 1)
  {
    OuterList(i, NthIndex(c, i));
    if k == SlotToEmpty(c, i) {
      CascadeMovesInward(c - 1, due, i, NthIndex(c, i));
    } else if k >= 256 && (k - 256) / 64 == i {
      AdvanceKeepsOuter(c - 1, due, k);
    }
  }

  lemma DivisorsChain(c: nat, i: nat)
    requires i < 4
    ensures c % Span(i) == 0 ==> (NthIndex(c, i) == 0 <==> c % Span(i + 1) == 0)
    ensures c % Span(i) != 0 ==> c % Span(i + 1) != 0
  {
    var s, q := Span(i), c / Span(i);
    assert c == s * q + c % s && Span(i + 1) == 64 * s;
    assert q == 64 * (q / 64) + q % 64;
    assert c == (64 * s) * (q / 64) + s * (q % 64) + c % s by {
      if i == 0 { } else if i == 1 { } else if i == 2 { } else { }
    }
    LowPart(s, q / 64, q % 64, c % s);
  }

  lemma LowPart(s: nat, a: nat, b: nat, r: nat)
    requires s in {0x100, 0x4000, 0x10_0000, 0x400_0000} && b < 64 && r < s
    ensures ((64 * s) * a + s * b + r) % (64 * s) == s * b + r
    ensures s * b + r == 0 <==> b == 0 && r == 0
  {
    if s == 0x100 { } else if s == 0x4000 { } else if s == 0x10_0000 { } else { }
  }

  lemma NotDivisibleUpward(c: nat, i: nat, j: nat)
    requires i <= j < 4 && c % Span(i) != 0
    ensures c % Span(j) != 0
    decreases j
  {
    if i < j {
      NotDivisibleUpward(c, i, j - 1);
      DivisorsChain(c, j - 1);
    }
  }

  lemma MidEnd(c: nat, due: nat, k: nat, i: nat)
    requires c > 0 && i <= 4 && Mid(c, due, k, i) && (i < 4 ==> c % Span(i) != 0)
    ensures Sorted(c, due, k)
  {
    if k >= 256 {
      var j := (k - 256) / 64;
      if j >= i {
        NotDivisibleUpward(c, i, j);
        AdvanceKeepsOuter(c - 1, due, k);
      }
      AlignedIsMultiple(due, j);
    } else if k == c % 256 {
      RootSlotIsDue(c, due);
    }
  }
}
