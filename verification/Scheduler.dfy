/** The coroutine scheduler of src/co_routine.c as a machine over its steps.  A
    context switch is the step itself; what a coroutine computes is not modelled. */
module Scheduler {

  datatype Status = Dead | Suspend | Running | Normal

  const MAIN_CO_ID: nat := 0
  const DEFAULT_COROUTINE: nat := 128

  class Coroutine {
    var func: nat               // which callback, 0 for none
    var pco: nat                // the coroutine that resumed this one
    var status: Status

    constructor ()
      ensures pco == 0 && func == 0 && status == Dead
    {
      func, pco, status := 0, 0, Dead;
    }
  }

  // ---- counting ------------------------------------------------------------------

  ghost function DeadSlots(n: nat): (s: seq<Status>)
    ensures |s| == n && forall i :: 0 <= i < n ==> s[i] == Dead
  {
    seq(n, _ => Dead)
  }

  ghost function Living(s: seq<Status>): nat {
    if s == [] then 0 else Living(s[..|s| - 1]) + if s[|s| - 1] == Dead then 0 else 1
  }

  lemma {:induction false} LivingChanges(s: seq<Status>, i: nat, st: Status)
    requires i < |s|
    ensures Living(s[i := st]) + (if s[i] == Dead then 0 else 1) == Living(s) + if st == Dead then 0 else 1
    decreases |s|
  {
    var t := s[i := st];
    if i == |s| - 1 {
      assert t[..|s| - 1] == s[..|s| - 1];
    } else {
      assert t[..|s| - 1] == s[..|s| - 1][i := st];
      LivingChanges(s[..|s| - 1], i, st);
    }
  }

  lemma {:induction false} LivingGrows(s: seq<Status>, n: nat)
    ensures Living(s + DeadSlots(n)) == Living(s)
    decreases n
  {
    var t := s + DeadSlots(n);
    if n == 0 {
      assert t == s;
    } else {
      assert t[..|t| - 1] == s + DeadSlots(n - 1);
      LivingGrows(s, n - 1);
    }
  }

  /** If all slots live, as many live as there are slots. */
  lemma {:induction false} AllLive(s: seq<Status>)
    requires forall i :: 0 <= i < |s| ==> s[i] != Dead
    ensures Living(s) == |s|
  {
    if s != [] { AllLive(s[..|s| - 1]); }
  }

  /** The search starts at slot `n` and comes by every slot. */
  function Probe(n: nat, i: nat, cap: nat): nat
    requires cap > 0
  {
    (i + n) % cap
  }

  lemma SearchComesBy(n: nat, cap: nat, j: nat) returns (i: nat)
    requires n < cap && j < cap
    ensures i == (if j >= n then j - n else j + cap - n) && i < cap && Probe(n, i, cap) == j
  {
    i := if j >= n then j - n else j + cap - n;
    if j < n { Wraps(j, cap); }
  }

  lemma Wraps(j: nat, cap: nat)
    requires j < cap
    ensures (j + cap) % cap == j
  {
  }

  // ---- the chain of resumes ------------------------------------------------------------

  /** From the main coroutine up to the running one each has resumed the next. */
  ghost predicate Chained(status: seq<Status>, pco: seq<nat>, stack: seq<nat>, running: nat) {
    && |pco| == |status| && stack != [] && stack[0] == MAIN_CO_ID && stack[|stack| - 1] == running
    && (forall i, j :: 0 <= i < j < |stack| ==> stack[i] != stack[j])
    && (forall i :: 0 <= i < |stack| ==> stack[i] < |status|)
    && (forall i :: 0 <= i < |stack| ==> status[stack[i]] == if i == |stack| - 1 then Running else Normal)
    && (forall i {:trigger pco[stack[i]]} :: 0 < i < |stack| ==> pco[stack[i]] == stack[i - 1])
    && (forall id :: 0 <= id < |status| && id !in stack ==> status[id] == Dead || status[id] == Suspend)
  }

  lemma ChainStarts(status: seq<Status>, pco: seq<nat>, n: nat)
    requires |status| == |pco| == n > 0 && status == DeadSlots(n)[0 := Suspend][0 := Running]
    ensures Chained(status, pco, [MAIN_CO_ID], MAIN_CO_ID)
  {
  }

  lemma ChainPush(status: seq<Status>, pco: seq<nat>, stack: seq<nat>, running: nat, id: nat)
    requires Chained(status, pco, stack, running) && id < |status| && status[id] == Suspend
    ensures running < |status| && running != id
    ensures Chained(status[running := Normal][id := Running], pco[id := running], stack + [id], id)
  {
    var t := stack + [id];
    assert running == stack[|stack| - 1];
    assert id !in stack;
  }

  /** The running coroutine leaves the chain, suspended or dead. */
  lemma ChainPop(status: seq<Status>, pco: seq<nat>, stack: seq<nat>, running: nat, st: Status)
    requires Chained(status, pco, stack, running) && running != MAIN_CO_ID && (st == Suspend || st == Dead)
    ensures |stack| > 1 && running < |status| && pco[running] == stack[|stack| - 2] < |status|
            && pco[running] != running
    ensures Chained(status[running := st][pco[running] := Running], pco, stack[..|stack| - 1], pco[running])
  {
    var n := |stack| - 1;
    assert running == stack[n] && stack[0] == MAIN_CO_ID && pco[stack[n]] == stack[n - 1];
    assert status[stack[n - 1]] == Normal;
    ChainWithout(status, pco, stack, status[running := st][pco[running] := Running]);
  }

  /** The last one of the chain stops, and the one before it runs. */
  ghost predicate TopStops(status: seq<Status>, stack: seq<nat>, status': seq<Status>)
    requires |stack| > 1
  {
    var n := |stack| - 1;
    && |status'| == |status|
    && forall id :: 0 <= id < |status| ==>
                      if id == stack[n] then status'[id] == Suspend || status'[id] == Dead
                      else status'[id] == if id == stack[n - 1] then Running else status[id]
  }

  lemma ChainWithout(status: seq<Status>, pco: seq<nat>, stack: seq<nat>, status': seq<Status>)
    requires |stack| > 1 && Chained(status, pco, stack, stack[|stack| - 1]) && TopStops(status, stack, status')
    ensures Chained(status', pco, stack[..|stack| - 1], stack[|stack| - 2])
  {
    RestIsOff(status, pco, stack, status');
    var n := |stack| - 1;
    assert forall i :: 0 <= i < n ==> stack[..n][i] == stack[i];
    forall i | 0 <= i < n ensures status'[stack[i]] == if i == n - 1 then Running else Normal {
      assert stack[i] != stack[n] && (i < n - 1 ==> stack[i] != stack[n - 1]);
    }
  }

  lemma RestIsOff(status: seq<Status>, pco: seq<nat>, stack: seq<nat>, status': seq<Status>)
    requires |stack| > 1 && Chained(status, pco, stack, stack[|stack| - 1]) && TopStops(status, stack, status')
    ensures forall id :: 0 <= id < |status| && id !in stack[..|stack| - 1] ==>
                           status'[id] == Dead || status'[id] == Suspend
  {
    var n := |stack| - 1;
    assert stack[..n][n - 1] == stack[n - 1];
    NotBelow(stack);
  }

  lemma NotBelow(stack: seq<nat>)
    requires stack != []
    ensures forall id :: id in stack <==> id in stack[..|stack| - 1] || id == stack[|stack| - 1]
  {
    assert stack == stack[..|stack| - 1] + [stack[|stack| - 1]];
  }

  /** A slot that is not on the chain may be given to a new coroutine. */
  lemma ChainNew(status: seq<Status>, pco: seq<nat>, stack: seq<nat>, running: nat, id: nat)
    requires Chained(status, pco, stack, running) && id < |status| && status[id] == Dead
    ensures Chained(status[id := Suspend], pco, stack, running)
  {
  }

  lemma ChainGrows(status: seq<Status>, pco: seq<nat>, stack: seq<nat>, running: nat, n: nat)
    requires Chained(status, pco, stack, running)
    ensures Chained(status + DeadSlots(n), pco + seq(n, _ => 0), stack, running)
  {
  }

  /** Slot `cid` is the first dead one from `from` on, going around the end. */
  ghost predicate FirstDead(status: seq<Status>, from: nat, cid: nat) {
    && cid < |status| && status[cid] == Dead
    && if from <= cid then forall j :: from <= j < cid ==> status[j] != Dead
       else (forall j :: from <= j < |status| ==> status[j] != Dead) && forall j :: 0 <= j < cid ==> status[j] != Dead
  }

  lemma ProbesBefore(status: seq<Status>, from: nat, i: nat)
    requires from < |status| && i < |status| && status[Probe(from, i, |status|)] == Dead
    requires forall k :: 0 <= k < i ==> status[Probe(from, k, |status|)] != Dead
    ensures FirstDead(status, from, Probe(from, i, |status|))
  {
    var cid := Probe(from, i, |status|);
    ProbeIs(from, i, |status|);
    forall j | 0 <= j < |status| && (if from <= cid then from <= j < cid else from <= j || j < cid)
      ensures status[j] != Dead
    {
      var k := SearchComesBy(from, |status|, j);
      hide Probe;
    }
  }

  lemma ProbeIs(n: nat, i: nat, cap: nat)
    requires n < cap && i < cap
    ensures Probe(n, i, cap) == if n + i < cap then n + i else n + i - cap
  {
    if n + i >= cap { Wraps(n + i - cap, cap); }
  }

  // ---- whole runs ----------------------------------------------------------------------

  datatype Move = Push(id: nat) | Pop | Stay

  ghost function Moved(stack: seq<nat>, m: Move): seq<nat> {
    match m
    case Push(id) => stack + [id]
    case Pop => if |stack| > 1 then stack[..|stack| - 1] else stack
    case Stay => stack
  }

  ghost function Ran(stack: seq<nat>, moves: seq<Move>): seq<nat> {
    if moves == [] then stack else Moved(Ran(stack, moves[..|moves| - 1]), moves[|moves| - 1])
  }

  lemma MovedAbove(below: seq<nat>, stack: seq<nat>, m: Move)
    requires below <= stack && |Moved(stack, m)| >= |below|
    ensures below <= Moved(stack, m)
  {
  }

  lemma RanMore(stack: seq<nat>, moves: seq<Move>, m: Move)
    ensures Ran(stack, moves + [m]) == Moved(Ran(stack, moves), m)
  {
    assert (moves + [m])[..|moves|] == moves;
  }

  class Scheduler {
    var nco: nat
    var cap: nat
    var running: nat
    var co: array<Coroutine?>
    ghost var status: seq<Status>       // of each slot, dead where there is no coroutine
    ghost var pco: seq<nat>
    ghost var funcs: seq<nat>
    ghost var stack: seq<nat>           // from the main coroutine to the running one
    ghost var moves: seq<Move>          // all steps so far

    ghost var pool: set<Coroutine>

    /** The slots hold what the ghost state says, in different coroutines. */
    ghost predicate Mirrored()
      reads this`cap, this`co, this`status, this`pco, this`funcs, this`pool, co, pool
    {
      && cap > 0 && co.Length == cap == |status| == |pco| == |funcs|
      && (forall i :: 0 <= i < cap && co[i] != null ==> co[i] in pool)
      && (forall i, j :: 0 <= i < j < cap && co[i] != null ==> co[i] != co[j])
      && (forall i :: 0 <= i < cap && co[i] == null ==> status[i] == Dead)
      && (forall i :: 0 <= i < cap && co[i] != null ==>
            co[i].status == status[i] && co[i].pco == pco[i] && co[i].func == funcs[i])
    }

    ghost predicate Valid()
      reads this, co, pool
    {
      && Mirrored() && nco == Living(status) && Chained(status, pco, stack, running)
      && stack == Ran([MAIN_CO_ID], moves)
    }

    // ---- whole runs --------------------------------------------------------------------

    /** The chain when the first `k` steps were done; the last one on it was running. */
    ghost function StackAt(k: nat): seq<nat>
      requires k <= |moves|
      reads this`moves
    {
      Ran([MAIN_CO_ID], moves[..k])
    }

    lemma StepAt(k: nat)
      requires k < |moves|
      ensures StackAt(k + 1) == Moved(StackAt(k), moves[k])
    {
      assert moves[..k + 1] == moves[..k] + [moves[k]];
      RanMore([MAIN_CO_ID], moves[..k], moves[k]);
    }

    lemma StackNow()
      requires Valid()
      ensures StackAt(|moves|) == stack && running == stack[|stack| - 1]
    {
      assert moves[..|moves|] == moves;
    }

    /** Whatever runs above a coroutine leaves the chain below it alone ... */
    lemma {:induction false} ChainBelowIsKept(i: nat, j: nat)
      requires Valid() && i <= j <= |moves| && forall k :: i <= k <= j ==> |StackAt(k)| >= |StackAt(i)|
      ensures StackAt(i) <= StackAt(j)
      decreases j
    {
      hide Valid, StackAt, Moved;
      if i < j {
        ChainBelowIsKept(i, j - 1);
        StepAt(j - 1);
        MovedAbove(StackAt(i), StackAt(j - 1), moves[j - 1]);
      }
    }

    /** ... so in every run a resume comes back to the one who made it: when for the first
        time the chain is no longer than at step `i`, it is the chain of that step. */
    lemma ResumeReturnsToCaller(i: nat, j: nat)
      requires Valid() && i < j <= |moves| && moves[i].Push?
      requires |StackAt(j)| <= |StackAt(i)| && forall k :: i < k < j ==> |StackAt(k)| > |StackAt(i)|
      ensures StackAt(j) == StackAt(i) && moves[j - 1] == Pop
      ensures j == |moves| ==> stack == StackAt(i) && running == stack[|stack| - 1]
    {
      hide Mirrored;
      StackNow();
      StepAt(i);
      StepAt(j - 1);
      ChainBelowIsKept(i, j - 1);
    }

    // ---- single assignments, mirrored in the ghost state -----------------------------

    twostate predicate ChainSame()
      reads this`running, this`nco, this`cap, this`stack, this`moves, this`co
    {
      && running == old(running) && nco == old(nco) && cap == old(cap) && stack == old(stack) && moves == old(moves)
      && co == old(co)
    }

    method SetStatus(id: nat, st: Status)
      requires Mirrored() && id < cap && co[id] != null
      modifies this`status, pool`status
      ensures Mirrored() && status == old(status)[id := st] && pco == old(pco) && ChainSame()
    {
      co[id].status := st;
      status := status[id := st];
    }

    method SetPco(id: nat, p: nat)
      requires Mirrored() && id < cap && co[id] != null
      modifies this`pco, pool`pco
      ensures Mirrored() && pco == old(pco)[id := p] && status == old(status) && ChainSame()
    {
      co[id].pco := p;
      pco := pco[id := p];
    }

    lemma Occupied(id: nat)
      requires Mirrored() && id < |status| && status[id] != Dead
      ensures id < cap == co.Length && co[id] != null && co[id].pco == pco[id] && co[id].status == status[id]
    {
    }

    // ---- new coroutines ----------------------------------------------------------------

    /** All slots are taken: as many empty ones are added. */
    method Double()
      requires Mirrored()
      modifies this`co, this`cap, this`status, this`pco, this`funcs
      ensures Mirrored() && cap == 2 * old(cap) && fresh(co) && co[..old(cap)] == old(co[..])
      ensures status == old(status) + DeadSlots(old(cap)) && pco == old(pco) + seq(old(cap), _ => 0)
      ensures funcs == old(funcs) + seq(old(cap), _ => 0)
    {
      hide Mirrored;
      SlotsMatch();
      var more := new Coroutine?[cap * 2];
      for i := 0 to cap * 2
        invariant forall j :: 0 <= j < i ==> more[j] == if j < cap then co[j] else null
        modifies more
      {
        more[i] := if i < cap then co[i] else null;
      }
      status, pco, funcs := status + DeadSlots(cap), pco + seq(cap, _ => 0), funcs + seq(cap, _ => 0);
      co := more;
      cap := cap * 2;
      MirroredStill();
    }

    twostate lemma MirroredStill()
      requires old(Mirrored()) && pool == old(pool)
      requires cap == co.Length == 2 * old(cap)
      requires forall j :: 0 <= j < cap ==> co[j] == if j < old(cap) then old(co[j]) else null
      requires status == old(status) + DeadSlots(old(cap)) && pco == old(pco) + seq(old(cap), _ => 0)
      requires funcs == old(funcs) + seq(old(cap), _ => 0)
      requires forall c :: c in pool ==> c.status == old(c.status) && c.pco == old(c.pco) && c.func == old(c.func)
      ensures Mirrored()
    {
    }

    /** A slot without a coroutine, or with a dead one. */
    method Search() returns (cid: nat)
      requires Mirrored() && nco == Living(status) && nco < cap
      ensures FirstDead(status, nco, cid)
    {
      for i := 0 to cap
        invariant forall k :: 0 <= k < i ==> status[Probe(nco, k, cap)] != Dead
      {
        var id := Probe(nco, i, cap);
        if status[id] == Dead { ProbesBefore(status, nco, i); }
        if co[id] == null {
          return id;
        } else if co[id].status == Dead {
          return id;
        }
      }
      SomeSlotIsFree();
      assert false;
    }

    lemma SomeSlotIsFree()
      requires Mirrored() && nco == Living(status) && nco < cap
      ensures exists k :: 0 <= k < cap && status[Probe(nco, k, cap)] == Dead
    {
      if forall j :: 0 <= j < |status| ==> status[j] != Dead {
        AllLive(status);
      } else {
        var j :| 0 <= j < |status| && status[j] == Dead;
        var i := SearchComesBy(nco, cap, j);
      }
    }

    /** The first half of `cort_new`: where the coroutine goes. */
    method FindSlot() returns (cid: nat)
      requires Mirrored() && nco == Living(status)
      modifies this`co, this`cap, this`status, this`pco, this`funcs
      ensures Mirrored() && cid < cap && status[cid] == Dead && nco == Living(status)
      ensures funcs == if old(nco >= cap) then old(funcs) + seq(old(cap), _ => 0) else old(funcs)
      ensures if old(nco >= cap) then
                && cap == 2 * old(cap) && cid == old(cap) && fresh(co)
                && status == old(status) + DeadSlots(old(cap)) && pco == old(pco) + seq(old(cap), _ => 0)
              else
                && cap == old(cap) && co == old(co) && status == old(status) && pco == old(pco)
                && FirstDead(status, nco, cid)
    {
      hide Mirrored;
      if nco >= cap {
        cid := cap;
        LivingGrows(status, cap);
        SlotsMatch();
        Double();
        SlotsMatch();
      } else {
        cid := Search();
        SlotsMatch();
      }
    }

    lemma SlotsMatch()
      requires Mirrored()
      ensures cap == co.Length == |status| == |pco| == |funcs| > 0
    {
    }

    /** An empty slot gets a coroutine object. */
    method AddCoroutine(cid: nat)
      requires Mirrored() && cid < cap && co[cid] == null
      modifies this`pco, this`funcs, this`pool, co
      ensures Mirrored() && co[cid] != null && fresh(co[cid]) && pool == old(pool) + {co[cid]}
              && pco == old(pco)[cid := 0]
      ensures funcs == old(funcs)[cid := 0]
    {
      var c := new Coroutine();
      co[cid] := c;
      pool := pool + {c};
      pco := pco[cid := 0];
      funcs := funcs[cid := 0];
    }

    /** `cort_new`: what becomes of the slots. */
    method Make(func: nat) returns (cid: nat)
      requires Mirrored() && nco == Living(status)
      modifies this`co, this`cap, this`nco, this`status, this`pco, this`funcs, this`pool, co, pool
      ensures Mirrored() && nco == Living(status) == old(nco) + 1 && cid < cap && fresh(pool - old(pool))
      ensures |old(funcs)| <= |funcs| == |status| && funcs[cid] == func
      ensures forall id :: 0 <= id < |old(funcs)| && id != cid ==> funcs[id] == old(funcs)[id]
      ensures if old(nco >= cap) then
                && cap == 2 * old(cap) && cid == old(cap) && fresh(co)
                && status == (old(status) + DeadSlots(old(cap)))[cid := Suspend]
                && pco == old(pco) + seq(old(cap), _ => 0)
              else
                && cap == old(cap) && co == old(co) && FirstDead(old(status), old(nco), cid)
                && status == old(status)[cid := Suspend] && (pco == old(pco) || pco == old(pco)[cid := 0])
    {
      hide Mirrored, Living;
      cid := FindSlot();
      SlotsMatch();
      Fill(cid, func);
    }

    /** The second half of `cort_new`. */
    method Fill(cid: nat, func: nat)
      requires Mirrored() && nco == Living(status) && cid < cap && status[cid] == Dead
      modifies this`nco, this`status, this`pco, this`funcs, this`pool, co, pool
      ensures Mirrored() && nco == Living(status) == old(nco) + 1 && fresh(pool - old(pool))
      ensures status == old(status)[cid := Suspend] && funcs == old(funcs)[cid := func]
      ensures pco == old(pco) || pco == old(pco)[cid := 0]
    {
      hide Mirrored, Living;
      SlotsMatch();
      if co[cid] == null {
        AddCoroutine(cid);
      }
      LivingChanges(status, cid, Suspend);
      nco := nco + 1;
      SetFunc(cid, func);
      SetStatus(cid, Suspend);
    }

    method SetFunc(id: nat, f: nat)
      requires Mirrored() && id < cap && co[id] != null
      modifies this`funcs, pool`func
      ensures Mirrored() && funcs == old(funcs)[id := f]
    {
      co[id].func := f;
      funcs := funcs[id := f];
    }

    /** `cort_open` */
    constructor ()
      ensures Valid() && stack == [MAIN_CO_ID] && cap == DEFAULT_COROUTINE && nco == 1 && fresh(co) && fresh(pool)
      ensures moves == []
    {
      hide Mirrored, Chained, Living;
      nco, cap, running := 0, DEFAULT_COROUTINE, MAIN_CO_ID;
      co := new Coroutine?[DEFAULT_COROUTINE](_ => null);
      status, pco, stack, pool := DeadSlots(DEFAULT_COROUTINE), seq(DEFAULT_COROUTINE, _ => 0), [MAIN_CO_ID], {};
      moves := [];
      funcs := seq(DEFAULT_COROUTINE, _ => 0);
      new;
      NoSlots();
      assert status[0] == Dead;
      var id := Make(0);
      RunMain(id);
    }

    /** The main coroutine runs from the start. */
    method RunMain(id: nat)
      requires Mirrored() && nco == Living(status) && id == MAIN_CO_ID && status == DeadSlots(cap)[id := Suspend]
               && stack == [id]
      modifies this`status, this`running, pool`status
      ensures Mirrored() && nco == Living(status) && Chained(status, pco, stack, running)
    {
      hide Mirrored, Chained, Living;
      SlotsMatch();
      Occupied(id);
      LivingChanges(status, id, Running);
      SetStatus(id, Running);
      running := id;
      ChainStarts(status, pco, cap);
    }

    lemma NoSlots()
      requires cap > 0 && co.Length == cap == |status| == |pco| == |funcs| && pool == {}
      requires status == DeadSlots(cap) && forall i :: 0 <= i < cap ==> co[i] == null
      ensures Mirrored() && Living(status) == 0
    {
      LivingGrows([], cap);
      assert [] + DeadSlots(cap) == status;
    }

    // ---- the steps ---------------------------------------------------------------------

    lemma ChainKept(status0: seq<Status>, pco0: seq<nat>, cap0: nat, cid: nat)
      requires Chained(status0, pco0, stack, running) && |status0| == cap0 && cid < |status|
      requires if cid < cap0
               then status0[cid] == Dead && status == status0[cid := Suspend] && (pco == pco0 || pco == pco0[cid := 0])
               else
                 && cid == cap0 > 0 && status == (status0 + DeadSlots(cap0))[cid := Suspend]
                 && pco == pco0 + seq(cap0, _ => 0)
      ensures Chained(status, pco, stack, running)
    {
      if cid == cap0 {
        ChainGrows(status0, pco0, stack, running, cap0);
        ChainNew(status0 + DeadSlots(cap0), pco, stack, running, cid);
      } else {
        ChainNew(status0, pco0, stack, running, cid);
      }
    }

    /** `cort_new` */
    method New(func: nat) returns (cid: nat)
      requires Valid()
      modifies this`co, this`cap, this`nco, this`status, this`pco, this`funcs, this`pool, this`moves, co, pool
      ensures Valid() && fresh(pool - old(pool)) && (co == old(co) || fresh(co)) && moves == old(moves) + [Stay]
      ensures cid < |status| && status[cid] == Suspend && nco == old(nco) + 1
      ensures if old(nco) < |old(status)| then FirstDead(old(status), old(nco), cid) && |status| == |old(status)|
              else cid == |old(status)| && |status| == 2 * |old(status)|
      ensures |old(funcs)| <= |funcs| == |status| && funcs[cid] == func
      ensures forall id :: 0 <= id < |old(funcs)| && id != cid ==> funcs[id] == old(funcs)[id]
      ensures forall id :: 0 <= id < |old(status)| && id != cid ==> status[id] == old(status)[id]
    {
      hide Mirrored, Chained, Living, Ran;
      SlotsMatch();
      cid := Make(func);
      SlotsMatch();
      ChainKept(old(status), old(pco), old(cap), cid);
      Note(Stay);
    }

    /** One more step in the history. */
    ghost method Note(m: Move)
      modifies this`moves
      ensures moves == old(moves) + [m]
      ensures Ran([MAIN_CO_ID], moves) == Moved(old(Ran([MAIN_CO_ID], moves)), m)
    {
      RanMore([MAIN_CO_ID], moves, m);
      moves := moves + [m];
    }

    /** `cort_resume`; with 0 control passes to `id`, with -1 nothing happens. */
    method Resume(id: nat) returns (r: int)
      requires Valid() && id < cap
      modifies this`running, this`status, this`pco, this`stack, this`moves, pool`status, pool`pco
      ensures moves == old(moves) + [if r == 0 then Push(id) else Stay]
      ensures Valid() && nco == old(nco) && (r == 0 || r == -1)
      ensures r == 0 <==> old(status)[id] == Suspend
      ensures if r == 0 then
                && stack == old(stack) + [id] && running == id
                && status == old(status)[old(running) := Normal][id := Running]
              else stack == old(stack) && status == old(status) && pco == old(pco)
    {
      hide Mirrored, Chained, Living, Ran;
      SlotsMatch();
      EmptyIsDead(id);
      if co[id] == null {
        Note(Stay);
        return -1;
      }
      Looks(id);
      if co[id].status != Suspend {
        Note(Stay);
        return -1;
      }
      Switch(id);
      Note(Push(id));
      return 0;
    }

    /** A suspended coroutine goes on top of the running one. */
    method Switch(id: nat)
      requires Mirrored() && Chained(status, pco, stack, running) && id < cap && co[id] != null && status[id] == Suspend
      modifies this`running, this`status, this`pco, this`stack, pool`status, pool`pco
      ensures Mirrored() && Chained(status, pco, stack, running) && Living(status) == Living(old(status))
      ensures stack == old(stack) + [id] && running == id
      ensures old(running) < |old(status)| && status == old(status)[old(running) := Normal][id := Running]
    {
      hide Mirrored, Chained, Living;
      SlotsMatch();
      RunningIsThere();
      ChainPush(status, pco, stack, running, id);
      LivingChanges(status, running, Normal);
      SetStatus(running, Normal);
      SetPco(id, running);
      LivingChanges(status, id, Running);
      SetStatus(id, Running);
      running := id;
      stack := stack + [id];
    }

    lemma RunningIsThere()
      requires Mirrored() && Chained(status, pco, stack, running)
      ensures running < cap == co.Length && co[running] != null && status[running] == Running
              && co[running].pco == pco[running]
    {
      assert stack[|stack| - 1] == running;
    }

    lemma Looks(id: nat)
      requires Mirrored() && id < cap && co[id] != null
      ensures co[id].status == status[id] && co[id].pco == pco[id]
    {
    }

    lemma EmptyIsDead(id: nat)
      requires Mirrored() && id < cap
      ensures co[id] == null ==> status[id] == Dead
    {
    }

    lemma ParentIsThere()
      requires Mirrored() && Chained(status, pco, stack, running) && running != MAIN_CO_ID
      ensures pco[running] < cap == co.Length && co[pco[running]] != null && status[pco[running]] == Normal
    {
      ChainPop(status, pco, stack, running, Suspend);
      assert stack[|stack| - 2] == pco[running];
    }

    /** `cort_yield`; control goes back to the coroutine that made the resume. */
    method Yield() returns (r: int)
      requires Valid()
      modifies this`running, this`status, this`stack, this`moves, pool`status
      ensures moves == old(moves) + [if r == 0 then Pop else Stay]
      ensures Valid() && nco == old(nco) && pco == old(pco)
      ensures r == if old(running) == MAIN_CO_ID then -1 else 0
      ensures if r == 0 then
                && |old(stack)| > 1 && stack == old(stack)[..|old(stack)| - 1] && running == old(pco)[old(running)]
                && status == old(status)[old(running) := Suspend][running := Running]
              else stack == old(stack) && status == old(status)
    {
      hide Mirrored, Chained, Living, Ran;
      var id := running;
      if id == MAIN_CO_ID {
        Note(Stay);
        return -1;
      }
      HandBack(Suspend);
      Note(Pop);
      return 0;
    }

    /** The running coroutine leaves the chain; the one that resumed it runs on. */
    method HandBack(st: Status)
      requires Mirrored() && Chained(status, pco, stack, running)
      requires running != MAIN_CO_ID && (st == Suspend || st == Dead)
      modifies this`running, this`status, this`stack, pool`status
      ensures Mirrored() && Chained(status, pco, stack, running)
      ensures Living(status) == Living(old(status)) - if st == Dead then 1 else 0
      ensures |old(stack)| > 1 && stack == old(stack)[..|old(stack)| - 1]
      ensures old(running) < |old(status)| == |pco| && running == pco[old(running)] < |old(status)|
      ensures status == old(status)[old(running) := st][running := Running]
    {
      hide Mirrored, Chained, Living;
      var id := running;
      SlotsMatch();
      RunningIsThere();
      ParentIsThere();
      ChainPop(status, pco, stack, running, st);
      var p := co[id].pco;
      LivingChanges(status, id, st);
      SetStatus(id, st);
      LivingChanges(status, p, Running);
      SetStatus(p, Running);
      running := p;
      stack := stack[..|stack| - 1];
    }

    /** The end of `cofunc`: the callback has returned. */
    method Finish()
      requires Valid() && running != MAIN_CO_ID
      modifies this`running, this`status, this`stack, this`nco, this`moves, pool`status
      ensures moves == old(moves) + [Pop]
      ensures Valid() && nco == old(nco) - 1 && pco == old(pco)
      ensures |old(stack)| > 1 && stack == old(stack)[..|old(stack)| - 1]
      ensures old(running) < |old(status)| == |pco| && running == old(pco)[old(running)] < |old(status)|
      ensures status == old(status)[old(running) := Dead][running := Running]
    {
      hide Mirrored, Chained, Living, Ran;
      HandBack(Dead);
      nco := nco - 1;
      Note(Pop);
    }

    /** `cort_status` */
    method GetStatus(id: nat) returns (st: Status)
      requires Valid() && id < cap
      ensures st == status[id]
      ensures st == Running <==> id == running
      ensures st == Normal <==> id in stack && id != running
    {
      OnlyOneRuns(id);
      if co[id] == null {
        return Dead;
      }
      return co[id].status;
    }

    lemma OnlyOneRuns(id: nat)
      requires Valid() && id < cap
      ensures status[id] == Running <==> id == running
      ensures status[id] == Normal <==> id in stack && id != running
    {
      assert stack[|stack| - 1] == running;
      if id in stack {
        var i :| 0 <= i < |stack| && stack[i] == id;
      }
    }
  }
}
