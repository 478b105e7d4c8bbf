/** The timer service (src/co_timerservice.c): one-shot and periodic timers on
    a wheel.  A timer handle is the node inside its item; the item allocator is
    a source of fresh items. */
module TimerService {
  import opened Links
  import opened TimerSpec
  import opened TimingWheel

  class Service {
    const wheel: Wheel
    var freed: set<Node>      // the items whose free flag is set

    ghost predicate Valid()
      reads this, wheel, wheel.Nodes()
    {
      && wheel.Valid()
      && Out(freed, wheel.added, wheel.due)     // a freed item is not armed, now or later
      && (forall n :: n in wheel.timers ==> n.callback.OnTimer?)
    }

    /** `cots_new` */
    constructor (interval: nat, currtime: nat)
      requires 0 < interval < 0x1_0000
      ensures Valid() && fresh(wheel) && fresh(wheel.Nodes()) && freed == {}
      ensures wheel.timers == {} && wheel.log == [] && wheel.due == map[]
    {
      wheel := new Wheel(interval, currtime, 0);
      freed := {};
    }

    /** `cots_add_timer` */
    method AddTimer(delay: uint32, loop: uint32) returns (item: Node)
      requires Valid()
      modifies wheel, wheel.Nodes()
      ensures Valid() && fresh(item) && item.callback == OnTimer(loop) && item in wheel.timers
      ensures wheel.timers == old(wheel.timers) + {item} && freed == old(freed)
      ensures wheel.log == old(wheel.log) + [Added(item, delay)] && !EverAdded(old(wheel.log), item)
      ensures wheel.due == old(wheel.due)[item := wheel.now + if delay == 0 then 1 else delay]
    {
      hide Wheel.Linked, Wheel.Timed, Wheel.Placed, Wheel.Logged, Wheel.Running, Disciplined, EverAdded;
      item := new Node(OnTimer(loop));
      wheel.Enroll(item);
      wheel.Add(item, delay);
    }

    /** An item that a callback is going to add with `cots_add_timer`: it is made
        known here, and added by an operation of a script. */
    method Prepare(loop: uint32) returns (item: Node)
      requires Valid()
      modifies wheel, wheel.Nodes()
      ensures Valid() && fresh(item) && item.callback == OnTimer(loop)
      ensures wheel.timers == old(wheel.timers) + {item} && freed == old(freed) && !EverAdded(wheel.log, item)
      ensures wheel.log == old(wheel.log) && wheel.due == old(wheel.due)
    {
      hide Wheel.Linked, Wheel.Timed, Wheel.Placed, Wheel.Logged, Wheel.Running, Disciplined, EverAdded;
      item := new Node(OnTimer(loop));
      wheel.Enroll(item);
    }

    /** `cots_del_timer`: the new value of the caller's handle. */
    method DelTimer(handle: Node?) returns (left: Node?)
      requires Valid() && (handle != null ==> handle in wheel.timers && EverAdded(wheel.log, handle))
      modifies this`freed, wheel, wheel.Nodes()
      ensures Valid() && wheel.timers == old(wheel.timers)
      ensures left == if handle == null || handle in old(freed) then handle else null
      ensures freed == if handle == null then old(freed) else old(freed) + {handle}
      ensures wheel.due == if left == handle then old(wheel.due) else old(wheel.due) - {handle}
      ensures wheel.log == if left != handle && handle in old(wheel.due)
                           then old(wheel.log) + [Deleted(handle)] else old(wheel.log)
    {
      hide Wheel.Linked, Wheel.Timed, Wheel.Placed, Wheel.Logged, Wheel.Running, Disciplined, EverAdded;
      if handle == null || handle in freed {
        return handle;
      }
      var _ := wheel.Del(handle);
      freed := freed + {handle};
      return null;
    }

    /** `cots_update`; the free flag is set also for the items that callbacks delete. */
    method Update(currtime: nat, scripts: seq<Script>) returns (ghost fired: seq<seq<Node>>, ghost gone: set<Node>)
      requires Valid() && forall script :: script in scripts ==> wheel.Known(script)
      requires currtime > wheel.lasttime ==> currtime - wheel.lasttime + wheel.remainder < 0x8000_0000
      modifies this`freed, wheel, wheel.Nodes()
      ensures Valid() && wheel.timers == old(wheel.timers) && wheel.now == old(wheel.now) + |fired|
      ensures wheel.log == TicksLog(wheel.origin, old(wheel.log), fired, scripts)
      ensures exists x :: TicksRan(wheel.origin, old(wheel.log), fired, scripts, x, wheel.log, gone)
      ensures freed == old(freed) + gone && freed !! wheel.due.Keys
      ensures forall k, j, i, t :: IsCall(fired, scripts, k, j, i, ToDelete(t)) && EverAdded(old(wheel.log), t) ==>
                                     t in gone
    {
      hide Wheel.Linked, Wheel.Timed, Wheel.Placed, Wheel.Logged, Wheel.Running, Disciplined, TicksRan, IsCall;
      hide EverAdded, TicksLog, TicksGone;
      ghost var log, added, due := wheel.log, wheel.added, wheel.due;
      var deleted;
      fired, deleted := wheel.Update(currtime, scripts);
      gone := deleted;
      StillOut(freed, added, due, added, due, deleted, wheel.added, wheel.due);
      freed := freed + deleted;
      DeletionsAreGone(wheel.origin, log, fired, scripts, wheel.log, gone);
      FreedAreIdle();
    }

    lemma FreedAreIdle()
      requires Valid()
      ensures freed !! wheel.due.Keys
    {
      wheel.AddedAreTimers();
    }

    /** In every history of the service, the firing number k (from 0) of a timer
        with period L > 0, armed first with delay d and not deleted, comes
        exactly max(d,1) + k*L ticks later; and whenever a tick has ended no
        firing that was due by then is missing. */
    lemma FiresOnSchedule(t: Node, i: nat, j: nat)
      requires Valid() && t.callback.OnTimer? && t.callback.loop > 0
      requires i < j < |wheel.log| && IsAdded(wheel.log[i], t) && NotDeleted(wheel.log, t, i, j)
      ensures var log, loop := wheel.log, t.callback.loop;
              var first, k := if log[i].delay == 0 then 1 else log[i].delay, Firings(log, t, i, j);
              && (log[j] == Fired(t) ==> Ticks(log, i, j) == first + k * loop)
              && (log[j] == TickEnded ==> Ticks(log, i, j) < first + k * loop
                                          && (k > 0 ==> Ticks(log, i, j) >= first + (k - 1) * loop))
    {
      DisciplinedIsPeriodic(wheel.log, t, i);
      if wheel.log[j] == Fired(t) {
        PeriodicSchedule(wheel.origin, wheel.log, t, t.callback.loop, i, j);
      }
      if wheel.log[j] == TickEnded {
        PeriodicNeverMissesOne(wheel.origin, wheel.log, t, t.callback.loop, i, j);
      }
    }

    /** A timer that a callback of an update from `a` to `b` deletes does not fire
        from that call on. */
    lemma SilentAfterCallback(a: Log, fired: seq<seq<Node>>, scripts: seq<Script>, x: Trace, b: Log, gone: set<Node>,
                              k: nat, j: nat, i: nat, t: Node)
      requires Valid() && TicksRan(wheel.origin, a, fired, scripts, x, b, gone) && b <= wheel.log
      requires IsCall(fired, scripts, k, j, i, ToDelete(t)) && EverAdded(a, t) && t.callback.OnTimer?
      ensures |x.ticks| > k && |x.ticks[k].steps| > j && |x.ticks[k].steps[j]| > i + 1
      ensures forall m :: |x.ticks[k].steps[j][i + 1]| <= m < |wheel.log| ==> wheel.log[m] != Fired(t)
    {
      hide Called, EverAdded, Disciplined, TicksRan, CallbackRan;
      CallIsMade(wheel.origin, a, fired, scripts, x, b, gone, k, j, i, ToDelete(t));
      var steps, log := x.ticks[k].steps[j], wheel.log;
      var c := steps[i + 1];
      CalledIdles(wheel.origin, steps[i], t, c);
      EverAddedGrows(a, c, t);
      TraceAt(wheel.origin, a, fired, scripts, x, b, gone, k, j);
      if t.callback.loop > 0 {
        NotBeforeRearming(wheel.origin, x.ticks[k].logs[j], fired[k][j], OpsAt(ScriptAt(scripts, k), j), steps,
                          x.ticks[k].logs[j + 1], x.ticks[k].gones[j], i + 1, t);
      }
      ItemStaysIdle(wheel.origin, log, t, c, |log|);
    }

    /** Once deleted, from wherever, a timer of the service never fires again. */
    lemma SilentAfterDeletion(t: Node, i: nat, j: nat, k: nat)
      requires Valid() && t.callback.OnTimer?
      requires i < j < k < |wheel.log| && IsAdded(wheel.log[i], t) && wheel.log[j] == Deleted(t)
      ensures wheel.log[k] != Fired(t) && t !in wheel.due
    {
      DisciplinedIsPeriodic(wheel.log, t, i);
      DeletionIsFinal(wheel.origin, wheel.log, t, t.callback.loop, i, j, |wheel.log|);
      assert wheel.log[..|wheel.log|] == wheel.log;
    }
  }
}
