/** The five-level timing wheel (src/co_timingwheel.c) over intrusive lists. */
module TimingWheel {
  import opened Links
  import opened WheelSlots
  import opened TimerSpec

  /** What a callback may do to the wheel it is called from. */
  datatype Op = ToAdd(timer: Node, delay: uint32) | ToDelete(timer: Node)

  /** The operations of the callbacks of one tick, in the order they are run.
      Nothing is known about them, so a statement for every script covers
      callbacks that decide at run time. */
  type Script = seq<seq<Op>>

  type Log = seq<Event<Node>>

  ghost predicate EverAdded(log: Log, n: Node) {
    exists j :: 0 <= j < |log| && IsAdded(log[j], n)
  }

  /** `cotw_add` demands an unlinked node; the node inside an item of the timer
      service is armed by a client only once, when the item is created. */
  ghost predicate MayArm(s: State<Node>, log: Log, n: Node) {
    n !in After(s, log).pending && (n.callback.OnTimer? ==> !EverAdded(log, n))
  }

  ghost function OpLog(s: State<Node>, log: Log, op: Op): Log {
    match op
    case ToAdd(n, d) => if MayArm(s, log, n) then log + [Added(n, d)] else log
    case ToDelete(n) => if n in After(s, log).pending then log + [Deleted(n)] else log
  }

  ghost function OpsLog(s: State<Node>, log: Log, ops: seq<Op>): Log {
    if ops == [] then log else OpLog(s, OpsLog(s, log, ops[..|ops| - 1]), ops[|ops| - 1])
  }

  /** The history after the callback of `n` has run. */
  ghost function CallbackLog(s: State<Node>, log: Log, n: Node, ops: seq<Op>): Log {
    match n.callback
    case NoCallback => log
    case Client => OpsLog(s, log, ops)
    case OnTimer(loop) => OpsLog(s, if loop > 0 then log + [Added(n, loop)] else log, ops)
  }

  ghost function OpsAt(script: Script, k: nat): seq<Op> { if k < |script| then script[k] else [] }

  /** The history after the timers in `fired` have fired in that order. */
  ghost function DrainLog(s: State<Node>, log: Log, fired: seq<Node>, script: Script): Log {
    if fired == [] then log
    else
      var k := |fired| - 1;
      CallbackLog(s, DrainLog(s, log, fired[..k], script) + [Fired(fired[k])], fired[k], OpsAt(script, k))
  }

  ghost function TickLog(s: State<Node>, log: Log, fired: seq<Node>, script: Script): Log {
    DrainLog(s, log + [TickBegan], fired, script) + [TickEnded]
  }

  // ---- which timers the callbacks delete --------------------------------------------

  /** A timer that was never added cannot be deleted. */
  ghost function OpGone(log: Log, op: Op): set<Node> {
    if op.ToDelete? && EverAdded(log, op.timer) then {op.timer} else {}
  }

  ghost function OpsGone(s: State<Node>, log: Log, ops: seq<Op>): set<Node> {
    if ops == [] then {}
    else
      var before := ops[..|ops| - 1];
      OpsGone(s, log, before) + OpGone(OpsLog(s, log, before), ops[|ops| - 1])
  }

  ghost function CallbackGone(s: State<Node>, log: Log, n: Node, ops: seq<Op>): set<Node> {
    match n.callback
    case NoCallback => {}
    case Client => OpsGone(s, log, ops)
    case OnTimer(loop) => OpsGone(s, if loop > 0 then log + [Added(n, loop)] else log, ops)
  }

  ghost function DrainGone(s: State<Node>, log: Log, fired: seq<Node>, script: Script): set<Node> {
    if fired == [] then {}
    else
      var k := |fired| - 1;
      var before := DrainLog(s, log, fired[..k], script) + [Fired(fired[k])];
      DrainGone(s, log, fired[..k], script) + CallbackGone(s, before, fired[k], OpsAt(script, k))
  }

  /** The timers that callbacks delete in a run of ticks. */
  ghost function TicksGone(s: State<Node>, log: Log, fired: seq<seq<Node>>, scripts: seq<Script>): set<Node> {
    if fired == [] then {}
    else
      var k := |fired| - 1;
      TicksGone(s, log, fired[..k], scripts)
        + DrainGone(s, TicksLog(s, log, fired[..k], scripts) + [TickBegan], fired[k], ScriptAt(scripts, k))
  }

  // ---- what callbacks come to, said of the history alone --------------------------------

  /** One call made by a callback, taking the history from `a` to `b`.  A timer
      named by a deletion is idle afterwards, an idle one that may be added gets
      its deadline, and every other timer is as it was. */
  ghost predicate Called(s: State<Node>, a: Log, op: Op, b: Log) {
    var p, q := After(s, a), After(s, b);
    && q.now == p.now && q.inTick == p.inTick
    && match op
       case ToDelete(t) =>
         && b == (if t in p.pending then a + [Deleted(t)] else a)
         && q.pending == p.pending - {t}
       case ToAdd(t, d) =>
         if t in p.pending || (t.callback.OnTimer? && EverAdded(a, t)) then b == a
         else
           && b == a + [Added(t, d)]
           && q.pending == p.pending[t := p.now + if d == 0 then 1 else d]
  }

  ghost predicate Deletes(op: Op, a: Log) { op.ToDelete? && EverAdded(a, op.timer) }

  /** Timer `n` fires and its callback makes the calls `ops` in their order;
      `steps` are the histories before, between and after these calls.  A
      periodic item is armed again before them.  The timers in `gone` are those
      of the deletions that name a timer which was ever added. */
  ghost predicate CallbackRan(s: State<Node>, a: Log, n: Node, ops: seq<Op>, steps: seq<Log>, b: Log,
                              gone: set<Node>) {
    var calls := if n.callback.NoCallback? then 0 else |ops|;
    var periodic := n.callback.OnTimer? && n.callback.loop > 0;
    && |steps| == calls + 1 && steps[calls] == b
    && steps[0] == a + [Fired(n)] + (if periodic then [Added(n, n.callback.loop)] else [])
    && (forall i :: 0 <= i < calls ==> Called(s, steps[i], ops[i], steps[i + 1]))
    && (forall i :: 0 <= i < calls && Deletes(ops[i], steps[i]) ==> ops[i].timer in gone)
    && (forall t :: t in gone ==> exists i :: 0 <= i < calls && Deletes(ops[i], steps[i]) && ops[i].timer == t)
  }

  ghost predicate AllOf(parts: seq<set<Node>>, whole: set<Node>) {
    && (forall k :: 0 <= k < |parts| ==> parts[k] <= whole)
    && (forall t :: t in whole ==> exists k :: 0 <= k < |parts| && t in parts[k])
  }

  /** Of each firing of a tick: the history before it, the histories its callback
      goes through, and the timers its callback deletes. */
  datatype TickTrace = TickTrace(logs: seq<Log>, steps: seq<seq<Log>>, gones: seq<set<Node>>)

  /** The timers of `fired` fire one after the other, each followed at once by
      its callback. */
  ghost predicate Drained(s: State<Node>, a: Log, fired: seq<Node>, script: Script, x: TickTrace, b: Log,
                          gone: set<Node>) {
    && |x.logs| == |fired| + 1 && |x.steps| == |x.gones| == |fired|
    && x.logs[0] == a && x.logs[|fired|] == b && AllOf(x.gones, gone)
    && forall k :: 0 <= k < |fired| ==>
                     CallbackRan(s, x.logs[k], fired[k], OpsAt(script, k), x.steps[k], x.logs[k + 1], x.gones[k])
  }

  ghost predicate TickRan(s: State<Node>, a: Log, fired: seq<Node>, script: Script, x: TickTrace, b: Log,
                          gone: set<Node>) {
    b != [] && b[|b| - 1] == TickEnded && Drained(s, a + [TickBegan], fired, script, x, b[..|b| - 1], gone)
  }

  ghost function ScriptAt(scripts: seq<Script>, k: nat): Script { if k < |scripts| then scripts[k] else [] }

  /** Of each tick: the history before it, what happens in it, and the timers its callbacks delete. */
  datatype Trace = Trace(logs: seq<Log>, ticks: seq<TickTrace>, gones: seq<set<Node>>)

  /** A run of ticks, one after the other. */
  ghost predicate TicksRan(s: State<Node>, a: Log, fired: seq<seq<Node>>, scripts: seq<Script>, x: Trace, b: Log,
                           gone: set<Node>) {
    && |x.logs| == |fired| + 1 && |x.ticks| == |x.gones| == |fired|
    && x.logs[0] == a && x.logs[|fired|] == b && AllOf(x.gones, gone)
    && forall k :: 0 <= k < |fired| ==>
                     TickRan(s, x.logs[k], fired[k], ScriptAt(scripts, k), x.ticks[k], x.logs[k + 1], x.gones[k])
  }

  lemma OpIsCalled(s: State<Node>, a: Log, op: Op)
    ensures Called(s, a, op, OpLog(s, a, op))
    ensures OpGone(a, op) == if Deletes(op, a) then {op.timer} else {}
  {
    match op
    case ToAdd(t, d) => AppendEvent(s, a, Added(t, d));
    case ToDelete(t) => AppendEvent(s, a, Deleted(t));
  }

  lemma {:induction false} OpsAreCalled(s: State<Node>, a: Log, ops: seq<Op>) returns (steps: seq<Log>)
    ensures |steps| == |ops| + 1 && steps[0] == a && steps[|ops|] == OpsLog(s, a, ops)
    ensures forall i :: 0 <= i < |ops| ==> Called(s, steps[i], ops[i], steps[i + 1])
    ensures forall i :: 0 <= i < |ops| && Deletes(ops[i], steps[i]) ==> ops[i].timer in OpsGone(s, a, ops)
    ensures forall t :: t in OpsGone(s, a, ops) ==>
                          exists i :: 0 <= i < |ops| && Deletes(ops[i], steps[i]) && ops[i].timer == t
    decreases |ops|
  {
    hide Called, EverAdded, OpLog, OpGone, Deletes;
    if ops == [] {
      steps := [a];
    } else {
      var n := |ops| - 1;
      var before := ops[..n];
      var front := OpsAreCalled(s, a, before);
      OpIsCalled(s, front[n], ops[n]);
      steps := front + [OpLog(s, front[n], ops[n])];
      forall i | 0 <= i < n ensures before[i] == ops[i] && steps[i] == front[i] {}
      forall t | t in OpsGone(s, a, ops)
        ensures exists i :: 0 <= i < |ops| && Deletes(ops[i], steps[i]) && ops[i].timer == t
      {
        if t in OpsGone(s, a, before) {
          var i :| 0 <= i < n && Deletes(before[i], front[i]) && before[i].timer == t;
          assert Deletes(ops[i], steps[i]);
        } else {
          assert Deletes(ops[n], steps[n]);
        }
      }
    }
  }

  /** The callback of a timer that has just fired. */
  lemma CallbackRuns(s: State<Node>, a: Log, n: Node, ops: seq<Op>) returns (steps: seq<Log>)
    ensures CallbackRan(s, a, n, ops, steps, CallbackLog(s, a + [Fired(n)], n, ops),
                        CallbackGone(s, a + [Fired(n)], n, ops))
  {
    hide Called, OpsLog, OpsGone, Deletes;
    var rearm: Log := if n.callback.OnTimer? && n.callback.loop > 0 then [Added(n, n.callback.loop)] else [];
    var start := a + [Fired(n)] + rearm;
    if n.callback.NoCallback? {
      steps := [start];
    } else {
      steps := OpsAreCalled(s, start, ops);
      assert rearm == [] ==> start == a + [Fired(n)];
    }
  }

  lemma AllOfNext(parts: seq<set<Node>>, whole: set<Node>, part: set<Node>)
    requires AllOf(parts, whole)
    ensures AllOf(parts + [part], whole + part)
  {
    var all := parts + [part];
    forall t | t in whole + part ensures exists k :: 0 <= k < |all| && t in all[k] {
      if t in whole {
        var k :| 0 <= k < |parts| && t in parts[k];
        assert t in all[k];
      } else {
        assert t in all[|parts|];
      }
    }
  }

  lemma {:induction false} DrainRuns(s: State<Node>, a: Log, fired: seq<Node>, script: Script) returns (x: TickTrace)
    ensures Drained(s, a, fired, script, x, DrainLog(s, a, fired, script), DrainGone(s, a, fired, script))
    decreases |fired|
  {
    hide CallbackRan, CallbackLog, CallbackGone, AllOf;
    if fired == [] {
      x := TickTrace([a], [], []);
      NoneOf();
    } else {
      var k := |fired| - 1;
      var y := DrainRuns(s, a, fired[..k], script);
      var steps := CallbackRuns(s, y.logs[k], fired[k], OpsAt(script, k));
      var start := y.logs[k] + [Fired(fired[k])];
      var end := CallbackLog(s, start, fired[k], OpsAt(script, k));
      var gone := CallbackGone(s, start, fired[k], OpsAt(script, k));
      x := TickTrace(y.logs + [end], y.steps + [steps], y.gones + [gone]);
      AllOfNext(y.gones, DrainGone(s, a, fired[..k], script), gone);
    }
  }

  lemma NoneOf()
    ensures AllOf([], {})
  {
  }

  /** The history of a tick, as its script unfolds, is made of such firings. */
  lemma TickRuns(s: State<Node>, a: Log, fired: seq<Node>, script: Script) returns (x: TickTrace)
    ensures TickRan(s, a, fired, script, x, TickLog(s, a, fired, script),
                    DrainGone(s, a + [TickBegan], fired, script))
  {
    hide Drained, DrainLog, DrainGone;
    x := DrainRuns(s, a + [TickBegan], fired, script);
    var log := DrainLog(s, a + [TickBegan], fired, script);
    assert (log + [TickEnded])[..|log|] == log;
  }

  lemma {:induction false} TicksRun(s: State<Node>, a: Log, fired: seq<seq<Node>>, scripts: seq<Script>)
    returns (x: Trace)
    ensures TicksRan(s, a, fired, scripts, x, TicksLog(s, a, fired, scripts), TicksGone(s, a, fired, scripts))
    decreases |fired|
  {
    hide TickRan, TickLog, DrainGone, AllOf;
    if fired == [] {
      x := Trace([a], [], []);
      NoneOf();
    } else {
      var k := |fired| - 1;
      var y := TicksRun(s, a, fired[..k], scripts);
      var tick := TickRuns(s, y.logs[k], fired[k], ScriptAt(scripts, k));
      var gone := DrainGone(s, y.logs[k] + [TickBegan], fired[k], ScriptAt(scripts, k));
      x := Trace(y.logs + [TickLog(s, y.logs[k], fired[k], ScriptAt(scripts, k))], y.ticks + [tick], y.gones + [gone]);
      AllOfNext(y.gones, TicksGone(s, a, fired[..k], scripts), gone);
    }
  }

  ghost predicate Growing(logs: seq<Log>) { forall k :: 0 <= k < |logs| - 1 ==> logs[k] <= logs[k + 1] }

  lemma {:induction false} GrowsFrom(logs: seq<Log>, i: nat, j: nat)
    requires Growing(logs) && i <= j < |logs|
    ensures logs[i] <= logs[j]
    decreases j
  {
    if i < j { GrowsFrom(logs, i, j - 1); }
  }

  lemma GrowsThroughout(logs: seq<Log>)
    requires Growing(logs) && logs != []
    ensures forall i :: 0 <= i < |logs| ==> logs[0] <= logs[i] && logs[i] <= logs[|logs| - 1]
  {
    forall i | 0 <= i < |logs| ensures logs[0] <= logs[i] && logs[i] <= logs[|logs| - 1] {
      GrowsFrom(logs, 0, i);
      GrowsFrom(logs, i, |logs| - 1);
    }
  }

  /** Whatever is called only adds to the history. */
  lemma CallbackGrows(s: State<Node>, a: Log, n: Node, ops: seq<Op>, steps: seq<Log>, b: Log, gone: set<Node>)
    requires CallbackRan(s, a, n, ops, steps, b, gone)
    ensures a <= b && forall i :: 0 <= i < |steps| ==> a + [Fired(n)] <= steps[i] && steps[i] <= b
  {
    forall k | 0 <= k < |steps| - 1 ensures steps[k] <= steps[k + 1] {
      assert Called(s, steps[k], ops[k], steps[k + 1]);
    }
    GrowsThroughout(steps);
    assert a + [Fired(n)] <= steps[0];
  }

  lemma DrainGrows(s: State<Node>, a: Log, fired: seq<Node>, script: Script, x: TickTrace, b: Log, gone: set<Node>)
    requires Drained(s, a, fired, script, x, b, gone)
    ensures a <= b && forall k :: 0 <= k <= |fired| ==> a <= x.logs[k] && x.logs[k] <= b
  {
    hide CallbackRan;
    forall k | 0 <= k < |fired| ensures x.logs[k] <= x.logs[k + 1] {
      CallbackGrows(s, x.logs[k], fired[k], OpsAt(script, k), x.steps[k], x.logs[k + 1], x.gones[k]);
    }
    GrowsThroughout(x.logs);
  }

  lemma TickGrows(s: State<Node>, a: Log, fired: seq<Node>, script: Script, x: TickTrace, b: Log, gone: set<Node>)
    requires TickRan(s, a, fired, script, x, b, gone)
    ensures a <= b
  {
    DrainGrows(s, a + [TickBegan], fired, script, x, b[..|b| - 1], gone);
  }

  lemma TicksGrow(s: State<Node>, a: Log, fired: seq<seq<Node>>, scripts: seq<Script>, x: Trace, b: Log,
                  gone: set<Node>)
    requires TicksRan(s, a, fired, scripts, x, b, gone)
    ensures a <= b && forall k :: 0 <= k <= |fired| ==> a <= x.logs[k] && x.logs[k] <= b
  {
    hide TickRan;
    forall k | 0 <= k < |fired| ensures x.logs[k] <= x.logs[k + 1] {
      TickGrows(s, x.logs[k], fired[k], ScriptAt(scripts, k), x.ticks[k], x.logs[k + 1], x.gones[k]);
    }
    GrowsThroughout(x.logs);
  }

  /** Call `i` of the callback of `n`, the timer that fires at number `j` of tick `k`. */
  ghost predicate IsCall(fired: seq<seq<Node>>, scripts: seq<Script>, k: nat, j: nat, i: nat, op: Op) {
    && k < |fired| && j < |fired[k]| && !fired[k][j].callback.NoCallback?
    && k < |scripts| && j < |scripts[k]| && i < |scripts[k][j]| && scripts[k][j][i] == op
  }

  /** Every call of every script is made, at its place in the history, and the
      timers named by deletions are gone. */
  lemma CallIsMade(s: State<Node>, a: Log, fired: seq<seq<Node>>, scripts: seq<Script>, x: Trace, b: Log,
                   gone: set<Node>, k: nat, j: nat, i: nat, op: Op)
    requires TicksRan(s, a, fired, scripts, x, b, gone) && IsCall(fired, scripts, k, j, i, op)
    ensures |x.ticks| > k && |x.ticks[k].steps| > j && |x.ticks[k].steps[j]| > i + 1
    ensures var steps := x.ticks[k].steps[j];
            Called(s, steps[i], op, steps[i + 1]) && a <= steps[i] && steps[i + 1] <= b
    ensures op.ToDelete? && EverAdded(a, op.timer) ==> op.timer in gone
  {
    hide Called, EverAdded;
    TicksGrow(s, a, fired, scripts, x, b, gone);
    var y, b1 := x.ticks[k], x.logs[k + 1];
    assert TickRan(s, x.logs[k], fired[k], ScriptAt(scripts, k), y, b1, x.gones[k]);
    DrainGrows(s, x.logs[k] + [TickBegan], fired[k], ScriptAt(scripts, k), y, b1[..|b1| - 1], x.gones[k]);
    CallMadeInTick(s, x.logs[k] + [TickBegan], fired[k], ScriptAt(scripts, k), y, b1[..|b1| - 1], x.gones[k], j, i);
    if EverAdded(a, op.timer) { EverAddedGrows(a, y.steps[j][i], op.timer); }
  }

  lemma DeletionsAreGone(s: State<Node>, a: Log, fired: seq<seq<Node>>, scripts: seq<Script>, b: Log, gone: set<Node>)
    requires exists x :: TicksRan(s, a, fired, scripts, x, b, gone)
    ensures forall k, j, i, t :: IsCall(fired, scripts, k, j, i, ToDelete(t)) && EverAdded(a, t) ==> t in gone
  {
    hide TicksRan, IsCall, EverAdded;
    var x :| TicksRan(s, a, fired, scripts, x, b, gone);
    forall k, j, i, t | IsCall(fired, scripts, k, j, i, ToDelete(t)) && EverAdded(a, t) ensures t in gone {
      CallIsMade(s, a, fired, scripts, x, b, gone, k, j, i, ToDelete(t));
    }
  }

  lemma TraceAt(s: State<Node>, a: Log, fired: seq<seq<Node>>, scripts: seq<Script>, x: Trace, b: Log, gone: set<Node>,
                k: nat, j: nat)
    requires TicksRan(s, a, fired, scripts, x, b, gone) && k < |fired| && j < |fired[k]|
    ensures var y := x.ticks[k];
            && |y.logs| == |fired[k]| + 1 && |y.steps| == |y.gones| == |fired[k]|
            && CallbackRan(s, y.logs[j], fired[k][j], OpsAt(ScriptAt(scripts, k), j), y.steps[j], y.logs[j + 1],
                           y.gones[j])
  {
    hide CallbackRan;
    assert TickRan(s, x.logs[k], fired[k], ScriptAt(scripts, k), x.ticks[k], x.logs[k + 1], x.gones[k]);
  }

  lemma CalledIdles(s: State<Node>, a: Log, t: Node, b: Log)
    requires Called(s, a, ToDelete(t), b)
    ensures t !in After(s, b).pending && a <= b
  {
  }

  lemma CallMadeInTick(s: State<Node>, a: Log, fired: seq<Node>, script: Script, x: TickTrace, b: Log,
                       gone: set<Node>, j: nat, i: nat)
    requires Drained(s, a, fired, script, x, b, gone)
    requires j < |fired| && !fired[j].callback.NoCallback? && i < |OpsAt(script, j)|
    ensures |x.steps[j]| > i + 1
    ensures Called(s, x.steps[j][i], OpsAt(script, j)[i], x.steps[j][i + 1])
    ensures a <= x.steps[j][i] && x.steps[j][i + 1] <= b
    ensures Deletes(OpsAt(script, j)[i], x.steps[j][i]) ==> OpsAt(script, j)[i].timer in gone
  {
    hide Called, Deletes;
    DrainGrows(s, a, fired, script, x, b, gone);
    CallbackGrows(s, x.logs[j], fired[j], OpsAt(script, j), x.steps[j], x.logs[j + 1], x.gones[j]);
  }

  ghost predicate JustFired(log: Log, t: Node) { log != [] && log[|log| - 1] == Fired(t) }

  /** A periodic item that has just fired is armed before anything is called. */
  lemma NotBeforeRearming(s: State<Node>, a: Log, n: Node, ops: seq<Op>, steps: seq<Log>, b: Log, gone: set<Node>,
                          i: nat, t: Node)
    requires CallbackRan(s, a, n, ops, steps, b, gone) && i < |steps| && t.callback.OnTimer? && t.callback.loop > 0
    ensures !JustFired(steps[i], t)
  {
    hide After;
    forall k | 0 <= k < |steps| - 1 ensures JustFired(steps[k + 1], t) ==> JustFired(steps[k], t) {
      assert Called(s, steps[k], ops[k], steps[k + 1]);
    }
    assert !JustFired(steps[0], t);
    NeverAfter(steps, i, t);
  }

  lemma {:induction false} NeverAfter(steps: seq<Log>, i: nat, t: Node)
    requires i < |steps| && !JustFired(steps[0], t)
    requires forall k :: 0 <= k < |steps| - 1 ==> JustFired(steps[k + 1], t) ==> JustFired(steps[k], t)
    ensures !JustFired(steps[i], t)
  {
    if i > 0 { NeverAfter(steps, i - 1, t); }
  }

  /** An item of the timer service that is idle, and not about to be armed again,
      stays idle for good. */
  lemma {:induction false} ItemStaysIdle(s: State<Node>, log: Log, t: Node, c: Log, m: nat)
    requires Accepts(s, log) && Disciplined(log) && t.callback.OnTimer?
    requires c <= log && EverAdded(c, t) && t !in After(s, c).pending && (t.callback.loop > 0 ==> !JustFired(c, t))
    requires |c| <= m <= |log|
    ensures t !in At(s, log, m).pending && forall k :: |c| <= k < m ==> log[k] != Fired(t)
    decreases m
  {
    hide EverAdded, Accepts, After;
    if m == |c| {
      assert log[..m] == c;
    } else {
      ItemStaysIdle(s, log, t, c, m - 1);
      EventAt(s, log, m - 1);
      EverAddedGrows(c, log[..m - 1], t);
      if log[m - 1].Added? { assert FirstOrRearmed(log, m - 1); }
    }
  }

  lemma EverAddedGrows(a: Log, b: Log, n: Node)
    requires EverAdded(a, n) && a <= b
    ensures EverAdded(b, n)
  {
    var j :| 0 <= j < |a| && IsAdded(a[j], n);
    assert b[j] == a[j];
  }

  /** Items of the timer service are armed once from outside, and afterwards
      exactly by their own handler, right after each firing. */
  ghost predicate Disciplined(log: Log) {
    && (forall j :: 0 <= j < |log| && log[j].Fired? ==> Rearmed(log, j))
    && (forall j :: 0 <= j < |log| && log[j].Added? ==> FirstOrRearmed(log, j))
  }

  ghost predicate Rearmed(log: Log, j: nat)
    requires j < |log| && log[j].Fired?
  {
    var n := log[j].timer;
    n.callback.OnTimer? && n.callback.loop > 0 ==> j + 1 < |log| && log[j + 1] == Added(n, n.callback.loop)
  }

  ghost predicate FirstOrRearmed(log: Log, j: nat)
    requires j < |log| && log[j].Added?
  {
    var n := log[j].timer;
    n.callback.OnTimer? ==>
      || !EverAdded(log[..j], n)
      || (n.callback.loop > 0 && j > 0 && log[j - 1] == Fired(n) && log[j].delay == n.callback.loop)
  }

  /** Where a timer may be while the clock is between two ticks, or inside one
      after its cascades: a list of the wheel that is its home, or the local
      list (number 512) of the timers about to fire. */
  ghost predicate AtHome(now: nat, due: nat, k: nat) {
    if k < SLOTS then Resides(now, due, k) else due == now
  }

  /** Every linked node is in one place of one ring, and `where` knows the ring. */
  ghost predicate Located(rings: seq<seq<Node>>, where: map<Node, nat>) {
    && (forall i, k :: 0 <= i < |rings| && 0 <= k < |rings[i]| ==> rings[i][k] in where && where[rings[i][k]] == i)
    && (forall n :: n in where ==> where[n] < |rings| && n in rings[where[n]])
    && (forall i :: 0 <= i < |rings| ==> rings[i] != [] && NoDup(rings[i]))
  }

  lemma RingsApart(rings: seq<seq<Node>>, where: map<Node, nat>, i: nat, j: nat)
    requires Located(rings, where) && i < |rings| && j < |rings| && i != j
    ensures forall n :: n in rings[j] ==> n !in rings[i]
  {
  }

  lemma LocatedAppend(rings: seq<seq<Node>>, where: map<Node, nat>, k: nat, node: Node)
    requires Located(rings, where) && k < |rings| && node !in where
    ensures Located(rings[k := rings[k] + [node]], where[node := k])
  {
    var c := rings[k] + [node];
    assert forall i :: 0 <= i < |rings[k]| ==> c[i] == rings[k][i];
    assert c[|rings[k]|] == node;
  }

  lemma LocatedRemove(rings: seq<seq<Node>>, where: map<Node, nat>, i: nat, k: nat)
    requires Located(rings, where) && i < |rings| && 0 < k < |rings[i]|
    ensures Located(rings[i := Without(rings[i], k)], where - {rings[i][k]})
    ensures Without(rings[i], k)[0] == rings[i][0]
  {
    var c, d := rings[i], Without(rings[i], k);
    assert forall j :: 0 <= j < |d| ==> d[j] == c[if j < k then j else j + 1];
    forall n | n in where && n != c[k] && where[n] == i ensures n in d {
      var j :| 0 <= j < |c| && c[j] == n;
      assert d[if j < k then j else j - 1] == n;
    }
  }

  /** The nodes in `moved` are handed over to ring `k`. */
  ghost function HandedOver(where: map<Node, nat>, moved: seq<Node>, k: nat): map<Node, nat> {
    map n | n in where :: if n in moved then k else where[n]
  }

  /** Ring `l`, so far empty, receives everything in ring `s`. */
  ghost function Moved(rings: seq<seq<Node>>, s: nat, l: nat): seq<seq<Node>>
    requires s < |rings| && l < |rings| && s != l && rings[s] != [] && rings[l] != []
  {
    rings[s := [rings[s][0]]][l := [rings[l][0]] + rings[s][1..]]
  }

  lemma LocatedMove(rings: seq<seq<Node>>, where: map<Node, nat>, s: nat, l: nat)
    requires Located(rings, where) && s < |rings| && l < |rings| && s != l && |rings[l]| == 1
    ensures Located(Moved(rings, s, l), HandedOver(where, rings[s][1..], l))
  {
    var c := rings[s];
    var rest := [rings[l][0]] + c[1..];
    assert forall k :: 0 < k < |c| ==> rest[k] == c[k];
    assert c[0] !in c[1..];
    forall n | n in where && where[n] == s && n != c[0] ensures n in c[1..] && n in rest {
      var j :| 0 <= j < |c| && c[j] == n;
      assert c[1..][j - 1] == n && rest[j] == n;
    }
    MembersOfTail(c);
  }

  lemma MembersOfTail(c: seq<Node>)
    requires c != []
    ensures forall n :: n in c[1..] ==> n in c
  {
  }

  lemma DisciplinedAppend(log: Log, e: Event<Node>)
    requires Disciplined(log)
    requires e.Fired? ==> !(e.timer.callback.OnTimer? && e.timer.callback.loop > 0)
    requires e.Added? && e.timer.callback.OnTimer? ==> !EverAdded(log, e.timer)
    ensures Disciplined(log + [e])
  {
    var l := log + [e];
    forall j | 0 <= j < |l| && l[j].Fired? ensures Rearmed(l, j) {
      if j < |log| { assert Rearmed(log, j); }
    }
    forall j | 0 <= j < |l| && l[j].Added? ensures FirstOrRearmed(l, j) {
      assert l[..j] == log[..j];
      if j < |log| { assert FirstOrRearmed(log, j); } else { assert log[..j] == log; }
    }
  }

  lemma DisciplinedRearm(log: Log, n: Node)
    requires Disciplined(log) && n.callback.OnTimer? && n.callback.loop > 0
    ensures Disciplined(log + [Fired(n)] + [Added(n, n.callback.loop)])
  {
    var l := log + [Fired(n)] + [Added(n, n.callback.loop)];
    forall j | 0 <= j < |l| && l[j].Fired? ensures Rearmed(l, j) {
      if j < |log| { assert Rearmed(log, j); }
    }
    forall j | 0 <= j < |l| && l[j].Added? ensures FirstOrRearmed(l, j) {
      if j < |log| {
        assert FirstOrRearmed(log, j) && l[..j] == log[..j];
      } else {
        assert l[j - 1] == Fired(n);
      }
    }
  }

  lemma EverAddedAppend(log: Log, e: Event<Node>, n: Node)
    ensures EverAdded(log + [e], n) <==> EverAdded(log, n) || IsAdded(e, n)
  {
    var l := log + [e];
    if EverAdded(log, n) {
      var j :| 0 <= j < |log| && IsAdded(log[j], n);
      assert IsAdded(l[j], n);
    }
    if IsAdded(e, n) { assert IsAdded(l[|log|], n); }
  }

  /** The history of a disciplined wheel re-arms each of its items as
      `TimerSpec.Periodic` asks. */
  lemma DisciplinedIsPeriodic(log: Log, n: Node, i: nat)
    requires Disciplined(log) && n.callback.OnTimer? && i < |log| && IsAdded(log[i], n)
    ensures Periodic(log, n, n.callback.loop, i)
  {
    forall j | i < j < |log| && IsAdded(log[j], n)
      ensures n.callback.loop > 0 && log[j] == Added(n, n.callback.loop) && log[j - 1] == Fired(n)
    {
      assert FirstOrRearmed(log, j);
      assert IsAdded(log[..j][i], n);
    }
    forall j | i <= j < |log| && log[j] == Fired(n) && n.callback.loop > 0
      ensures j + 1 < |log| && log[j + 1] == Added(n, n.callback.loop)
    {
      assert Rearmed(log, j);
    }
  }

  ghost predicate IsHead(rings: seq<seq<Node>>, where: map<Node, nat>, n: Node)
    requires Located(rings, where) && n in where
  {
    rings[where[n]][0] == n
  }

  /** Apart from the list heads, exactly the armed timers are linked. */
  ghost predicate Owned(rings: seq<seq<Node>>, where: map<Node, nat>, due: map<Node, nat>, timers: set<Node>) {
    && Located(rings, where)
    && due.Keys <= timers && due.Keys <= where.Keys
    && (forall n :: n in where ==> (n in due <==> !IsHead(rings, where, n)))
    && (forall n :: n in where && n in timers ==> n in due)
  }

  lemma OwnedArm(rings: seq<seq<Node>>, where: map<Node, nat>, due: map<Node, nat>, timers: set<Node>, k: nat,
                 node: Node, e: nat, rings': seq<seq<Node>>, where': map<Node, nat>)
    requires Owned(rings, where, due, timers) && k < |rings| && node in timers && node !in where
    requires rings' == rings[k := rings[k] + [node]] && where' == where[node := k]
    ensures Owned(rings', where', due[node := e], timers)
  {
    LocatedAppend(rings, where, k, node);
    assert rings[k][0] in where;
  }

  lemma OwnedDisarm(rings: seq<seq<Node>>, where: map<Node, nat>, due: map<Node, nat>, timers: set<Node>, i: nat,
                    k: nat, node: Node, rings': seq<seq<Node>>, where': map<Node, nat>)
    requires Owned(rings, where, due, timers) && i < |rings| && 0 < k < |rings[i]| && node == rings[i][k]
    requires rings' == rings[i := Without(rings[i], k)] && where' == where - {node}
    ensures Owned(rings', where', due - {node}, timers)
  {
    LocatedRemove(rings, where, i, k);
  }

  lemma OwnedRelink(rings: seq<seq<Node>>, where: map<Node, nat>, due: map<Node, nat>, timers: set<Node>, i: nat,
                    k: nat, node: Node, j: nat, rings1: seq<seq<Node>>, where1: map<Node, nat>,
                    rings2: seq<seq<Node>>, where2: map<Node, nat>)
    requires Owned(rings, where, due, timers) && i < |rings| && 0 < k < |rings[i]| && node == rings[i][k] && j < |rings|
    requires rings1 == rings[i := Without(rings[i], k)] && where1 == where - {node}
    requires rings2 == rings1[j := rings1[j] + [node]] && where2 == where1[node := j]
    requires node in timers && node in due
    ensures Owned(rings2, where2, due, timers)
  {
    hide Owned, Located;
    OwnedDisarm(rings, where, due, timers, i, k, node, rings1, where1);
    OwnedArm(rings1, where1, due - {node}, timers, j, node, due[node], rings2, where2);
    assert (due - {node})[node := due[node]] == due;
  }

  lemma OwnedLocal(rings: seq<seq<Node>>, where: map<Node, nat>, due: map<Node, nat>, timers: set<Node>, head: Node)
    requires Owned(rings, where, due, timers) && head !in where && head !in timers
    ensures Owned(rings + [[head]], where[head := |rings|], due, timers)
  {
  }

  lemma OwnedMove(rings: seq<seq<Node>>, where: map<Node, nat>, due: map<Node, nat>, timers: set<Node>, s: nat, l: nat)
    requires Owned(rings, where, due, timers) && s < |rings| && l < |rings| && s != l && |rings[l]| == 1
    ensures Owned(Moved(rings, s, l), HandedOver(where, rings[s][1..], l), due, timers)
    ensures forall n :: n in due ==> (n in rings[s][1..] <==> where[n] == s)
  {
    LocatedMove(rings, where, s, l);
    var c := rings[s];
    forall n | n in due && where[n] == s ensures n in c[1..] {
      var j :| 0 <= j < |c| && c[j] == n;
      assert c[1..][j - 1] == n;
    }
    forall n | n in c[1..] ensures n in where && where[n] == s && n != c[0] {
      var j :| 0 <= j < |c[1..]| && c[1..][j] == n;
      assert c[j + 1] == n;
    }
  }

  lemma OwnedDrop(rings: seq<seq<Node>>, where: map<Node, nat>, due: map<Node, nat>, timers: set<Node>, l: nat,
                  head: Node)
    requires Owned(rings, where, due, timers) && l + 1 == |rings| && rings[l] == [head]
    ensures Owned(rings[..l], where - {head}, due, timers)
  {
    assert rings[l][0] == head;
  }

  /** `added` are the timers some event of the history has armed. */
  ghost predicate Arms(log: Log, added: set<Node>) {
    && (forall n :: n in added ==> EverAdded(log, n))
    && (forall j :: 0 <= j < |log| && log[j].Added? ==> log[j].timer in added)
  }

  lemma ArmsAdd(log: Log, added: set<Node>, n: Node, d: nat)
    requires Arms(log, added)
    ensures Arms(log + [Added(n, d)], added + {n})
  {
    forall x | x in added + {n} ensures EverAdded(log + [Added(n, d)], x) {
      EverAddedAppend(log, Added(n, d), x);
    }
  }

  lemma ArmsOther(log: Log, added: set<Node>, e: Event<Node>)
    requires Arms(log, added) && !e.Added?
    ensures Arms(log + [e], added)
  {
    forall x | x in added ensures EverAdded(log + [e], x) {
      EverAddedAppend(log, e, x);
    }
  }

  /** The heads of the 512 lists (`cotw_init`). */
  method MakeHeads() returns (vec: seq<Node>, ghost where: map<Node, nat>)
    ensures |vec| == SLOTS && where.Keys == (set n | n in vec)
    ensures forall i :: 0 <= i < SLOTS ==> fresh(vec[i]) && Ring([vec[i]]) && where[vec[i]] == i
  {
    vec, where := [], map[];
    while |vec| < SLOTS
      invariant |vec| <= SLOTS && where.Keys == (set n | n in vec)
      invariant forall i :: 0 <= i < |vec| ==> fresh(vec[i]) && Ring([vec[i]]) && vec[i] in where && where[vec[i]] == i
    {
      var head := new Node.Head();
      where := where[head := |vec|];
      vec := vec + [head];
    }
  }

  /** The history after a run of ticks. */
  ghost function TicksLog(s: State<Node>, log: Log, fired: seq<seq<Node>>, scripts: seq<Script>): Log {
    if fired == [] then log
    else
      var k := |fired| - 1;
      TickLog(s, TicksLog(s, log, fired[..k], scripts), fired[k], ScriptAt(scripts, k))
  }

  lemma NoTicks(s: State<Node>, log: Log, scripts: seq<Script>)
    ensures TicksLog(s, log, [], scripts) == log && TicksGone(s, log, [], scripts) == {}
  {
  }

  lemma AnotherTick(s: State<Node>, log: Log, fired: seq<seq<Node>>, f: seq<Node>, scripts: seq<Script>)
    ensures TicksLog(s, log, fired + [f], scripts)
            == TickLog(s, TicksLog(s, log, fired, scripts), f, ScriptAt(scripts, |fired|))
    ensures TicksGone(s, log, fired + [f], scripts)
            == TicksGone(s, log, fired, scripts)
               + DrainGone(s, TicksLog(s, log, fired, scripts) + [TickBegan], f, ScriptAt(scripts, |fired|))
  {
    assert (fired + [f])[..|fired|] == fired;
  }

  lemma SortedIsHome(now: nat, due: nat, k: nat)
    requires Sorted(now, due, k)
    ensures AtHome(now, due, if k == now % 256 then SLOTS else k)
  {
  }

  lemma HomeFound(now: nat, due: nat)
    requires now < due < now + U32
    ensures AtHome(now, due, SlotFor(Wrap(now), Wrap(due)))
  {
    AddFindsHome(now, due);
  }

  /** The timers of list `s` have been placed anew; the others stayed. */
  ghost predicate Cascaded(due: map<Node, nat>, before: map<Node, nat>, where: map<Node, nat>, s: nat, tick: nat) {
    forall n :: n in due ==>
      n in before && n in where && where[n] == if before[n] == s then SlotFor(tick, Wrap(due[n])) else before[n]
  }

  /** The same with some of them still waiting in the local list. */
  ghost predicate Cascading(due: map<Node, nat>, before: map<Node, nat>, where: map<Node, nat>, s: nat, tick: nat) {
    forall n :: n in due ==>
      && n in before && n in where && before[n] < SLOTS
      && (where[n] == SLOTS ==> before[n] == s)
      && (where[n] != SLOTS ==> where[n] == if before[n] == s then SlotFor(tick, Wrap(due[n])) else before[n])
  }

  lemma CascadeStarts(due: map<Node, nat>, before: map<Node, nat>, where: map<Node, nat>, s: nat, tick: nat)
    requires forall n :: n in due ==> n in before && before[n] < SLOTS
    requires forall n :: n in due ==> n in where && where[n] == if before[n] == s then SLOTS else before[n]
    ensures Cascading(due, before, where, s, tick)
  {
  }

  lemma CascadeSteps(due: map<Node, nat>, before: map<Node, nat>, where: map<Node, nat>, s: nat, tick: nat, node: Node)
    requires Cascading(due, before, where, s, tick) && node in due && node in where && where[node] == SLOTS
    ensures Cascading(due, before, where[node := SlotFor(tick, Wrap(due[node]))], s, tick)
  {
    hide SlotFor, Wrap;
  }

  lemma CascadeEnds(due: map<Node, nat>, before: map<Node, nat>, where: map<Node, nat>, s: nat, tick: nat,
                    head: Node, after: map<Node, nat>)
    requires Cascading(due, before, where, s, tick) && head !in due && after == where - {head}
    requires forall n :: n in due && n in after ==> after[n] < SLOTS
    ensures Cascaded(due, before, after, s, tick)
  {
    hide SlotFor, Wrap;
  }

  lemma AddThenRemove<T>(s: set<T>, x: T)
    requires x !in s
    ensures s + {x} - {x} == s
  {
  }

  /** Ring `i` has lost one member other than its head; nothing else changed. */
  ghost predicate OneTaken(rings: seq<seq<Node>>, i: nat, rings': seq<seq<Node>>) {
    && i < |rings| == |rings'|
    && (forall j :: 0 <= j < |rings| && j != i ==> rings'[j] == rings[j])
    && Shorter(rings'[i], rings[i]) && |rings'[i]| == |rings[i]| - 1
  }

  /** The same head, and no member that was not there before. */
  ghost predicate Shorter(d: seq<Node>, c: seq<Node>) {
    0 < |d| <= |c| && d[0] == c[0] && forall n :: n in d ==> n in c
  }

  /** The local lists have kept their heads and gained nothing. */
  ghost predicate LocalsShrink(rings: seq<seq<Node>>, rings': seq<seq<Node>>) {
    |rings| == |rings'| && forall i :: SLOTS <= i < |rings| && rings[i] != [] ==> Shorter(rings'[i], rings[i])
  }

  /** The same, as far as the local lists are concerned. */
  ghost predicate OneTakenHigh(rings: seq<seq<Node>>, i: nat, rings': seq<seq<Node>>) {
    && SLOTS <= i < |rings| == |rings'|
    && |rings'[i]| == |rings[i]| - 1 > 0 && rings'[i][0] == rings[i][0]
  }

  lemma RelinkMoves(rings: seq<seq<Node>>, where: map<Node, nat>, i: nat, k: nat, node: Node, j: nat,
                    rings1: seq<seq<Node>>, where1: map<Node, nat>, rings2: seq<seq<Node>>, where2: map<Node, nat>)
    requires i < |rings| && 0 < k < |rings[i]| && j < |rings| && j < SLOTS
    requires rings1 == rings[i := Without(rings[i], k)] && where1 == where - {node}
    requires rings2 == rings1[j := rings1[j] + [node]] && where2 == where1[node := j]
    ensures where2 == where[node := j]
    ensures i >= SLOTS ==> OneTakenHigh(rings, i, rings2)
  {
  }

  lemma TakenAt(rings: seq<seq<Node>>, i: nat, k: nat)
    requires i < |rings| && 0 < k < |rings[i]|
    ensures OneTaken(rings, i, rings[i := Without(rings[i], k)])
  {
  }

  /** An item of the timer service that was added and is not armed is never armed again. */
  ghost predicate StayOut(added: set<Node>, due: map<Node, nat>, added': set<Node>, due': map<Node, nat>) {
    && added <= added'
    && forall n :: n in added && n.callback.OnTimer? && n !in due ==> n !in due'
  }

  ghost predicate Out(gone: set<Node>, added: set<Node>, due: map<Node, nat>) {
    gone <= added && forall n :: n in gone && n.callback.OnTimer? ==> n !in due
  }

  lemma NothingOut(added: set<Node>, due: map<Node, nat>)
    ensures Out({}, added, due) && StayOut(added, due, added, due)
  {
  }

  lemma StillOut(gone: set<Node>, added0: set<Node>, due0: map<Node, nat>, added1: set<Node>, due1: map<Node, nat>,
                 more: set<Node>, added2: set<Node>, due2: map<Node, nat>)
    requires StayOut(added0, due0, added1, due1) && Out(gone, added1, due1)
    requires StayOut(added1, due1, added2, due2) && Out(more, added2, due2)
    ensures StayOut(added0, due0, added2, due2) && Out(gone + more, added2, due2)
  {
  }

  lemma LocalsGoOn(rings: seq<seq<Node>>, rings1: seq<seq<Node>>, rings2: seq<seq<Node>>)
    requires LocalsShrink(rings, rings1) && LocalsShrink(rings1, rings2)
    ensures LocalsShrink(rings, rings2)
  {
  }

  ghost predicate AllHome(now: nat, due: map<Node, nat>, where: map<Node, nat>) {
    forall n :: n in due && n in where ==> AtHome(now, due[n], where[n])
  }

  lemma AllHomeArm(now: nat, due: map<Node, nat>, where: map<Node, nat>, node: Node, e: nat, k: nat)
    requires AllHome(now, due, where) && AtHome(now, e, k)
    ensures AllHome(now, due[node := e], where[node := k])
  {
  }

  lemma AllHomeTake(now: nat, due: map<Node, nat>, where: map<Node, nat>, node: Node)
    requires AllHome(now, due, where)
    ensures AllHome(now, due - {node}, where - {node})
  {
  }

  class Wheel {
    const vec: seq<Node>      // the list heads of the five wheels
    const interval: nat
    var currtick: nat
    var lasttime: nat
    var remainder: nat

    ghost const origin: State<Node>
    ghost const start: nat                // `lasttime` at creation
    ghost var rings: seq<seq<Node>>       // 512 lists of the wheel, then the local list in use
    ghost var where: map<Node, nat>       // the ring each linked node is in
    ghost var now: nat                    // the unbounded clock
    ghost var inTick: bool
    ghost var due: map<Node, nat>         // absolute deadline of each armed timer
    ghost var timers: set<Node>           // the timers this wheel may be given
    ghost var added: set<Node>            // those that were armed at least once
    ghost var log: Log

    ghost function Nodes(): set<Node>
      reads this`where, this`timers
    {
      where.Keys + timers
    }

    /** The shape of memory: disjoint well-formed rings. */
    ghost predicate Linked()
      reads this`rings, this`where, where.Keys`next, where.Keys`prev
    {
      && |vec| == SLOTS && |rings| >= SLOTS
      && Located(rings, where)
      && (forall i :: 0 <= i < |rings| ==> Ring(rings[i]))
      && (forall i :: 0 <= i < SLOTS ==> rings[i][0] == vec[i])
    }

    /** Timers and their deadlines. */
    ghost predicate Timed()
      reads this`currtick, this`now, this`rings, this`where, this`due, this`timers, this`added
      reads Nodes()`expire, Nodes()`next
    {
      && currtick == Wrap(now)
      && Owned(rings, where, due, timers)
      && added <= timers
      && (forall n :: n in due ==> n.expire == Wrap(due[n]))
      && (forall n :: n in timers ==> (n.next == null <==> n !in added))
      && (forall n :: n in timers && n !in where && n in added ==> n.next == n)
    }

    ghost predicate Placed()
      reads this`where, this`due, this`now
    {
      AllHome(now, due, where)
    }

    ghost predicate Logged()
      reads this`log, this`now, this`inTick, this`due, this`added
    {
      && Initial(origin) && Accepts(origin, log) && After(origin, log) == State(now, inTick, due)
      && Arms(log, added)
    }

    // ---- list operations with their effect on the rings --------------------

    twostate lemma RingKept(c: seq<Node>)
      requires old(Ring(c))
      requires forall n :: n in c ==> n.next == old(n.next) && n.prev == old(n.prev)
      ensures Ring(c)
    {
      forall k | 0 <= k < |c| ensures c[k].next == Ahead(c, k) && c[k].prev == Behind(c, k) {
        assert old(c[k].next) == Ahead(c, k) && old(c[k].prev) == Behind(c, k);
      }
    }

    /** What happens in one ring leaves the others alone. */
    twostate lemma OneRingChanged(i: nat)
      requires Located(rings, where) && i < |rings| && rings == old(rings)
      requires forall j :: 0 <= j < |rings| ==> old(Ring(rings[j]))
      requires forall n :: n in where && n !in rings[i] ==> n.next == old(n.next) && n.prev == old(n.prev)
      ensures forall j :: 0 <= j < |rings| && j != i ==> Ring(rings[j])
    {
      hide Ring;
      forall j | 0 <= j < |rings| && j != i ensures Ring(rings[j]) {
        RingsApart(rings, where, i, j);
        RingKept(rings[j]);
      }
    }

    ghost method Adopt(after: seq<seq<Node>>, places: map<Node, nat>)
      requires |vec| == SLOTS <= |after| && Located(after, places)
      requires forall i :: 0 <= i < |after| ==> Ring(after[i])
      requires forall i :: 0 <= i < SLOTS ==> after[i][0] == vec[i]
      modifies this`rings, this`where
      ensures Linked() && rings == after && where == places && ClockAndTimersKept()
    {
      rings := after;
      where := places;
    }

    twostate predicate ClockAndTimersKept()
      reads this`currtick, this`now, this`timers, this`added, this`due
    {
      currtick == old(currtick) && now == old(now) && timers == old(timers) && added == old(added) && due == old(due)
    }

    /** `coclink_add_back` to list `k`. */
    method LinkInto(k: nat, node: Node)
      requires Linked() && k < SLOTS && node in timers && node !in where
      modifies this`rings, this`where, Nodes()`next, Nodes()`prev
      ensures Linked() && Nodes() == old(Nodes()) && ClockAndTimersKept()
      ensures rings == old(rings)[k := old(rings)[k] + [node]] && where == old(where)[node := k]
      ensures forall n :: n in timers && n !in where ==> n.next == old(n.next)
      ensures node.next != null
    {
      hide Linked, Located, Ring, NoDup, Ahead, Behind;
      RingsAre();
      RingIs(k);
      ghost var c := rings[k];
      AddBack(vec[k], node, c);
      assert ClockAndTimersKept();
      HasNext(c, node);
      OneRingChanged(k);
      assert (c + [node])[|c|] == node;
      LocatedAppend(rings, where, k, node);
      Adopt(rings[k := c + [node]], where[node := k]);
    }

    lemma PlaceOf(node: Node) returns (k: nat)
      requires Linked() && node in where && !IsHead(rings, where, node)
      ensures where[node] < |rings|
      ensures var c := rings[where[node]];
              && 0 < k < |c| && c[k] == node && NoDup(c) && Ring(c) && node in c
              && Ahead(c, k) in where && Behind(c, k) in where && Ahead(c, k) in c && Behind(c, k) in c
    {
      hide Ring;
      var c := rings[where[node]];
      k :| 0 <= k < |c| && c[k] == node;
    }

    /** `coclink_remote`: takes a timer out of whatever ring it is in. */
    method Unlink(node: Node) returns (ghost k: nat)
      requires Linked() && node in where && !IsHead(rings, where, node)
      modifies this`rings, this`where, Nodes()`next, Nodes()`prev
      ensures Linked()
      ensures var i := old(where[node]);
              && 0 < k < |old(rings)[i]| && old(rings)[i][k] == node
              && rings == old(rings)[i := Without(old(rings)[i], k)]
              && rings[i][0] == old(rings)[i][0]
      ensures where == old(where) - {node} && node.next == node
      ensures ClockAndTimersKept()
      ensures forall n :: n in timers && n !in old(where) ==> n.next == old(n.next)
    {
      hide Linked, Located, Ring, IsHead;
      ghost var i := where[node];
      k := PlaceOf(node);
      RingsAre();
      ghost var c := rings[i];
      Remove(node, c, k);
      OneRingChanged(i);
      Alone(node);
      LocatedRemove(rings, where, i, k);
      Adopt(rings[i := Without(c, k)], where - {node});
    }

    /** A local list head (`coclink_init`). */
    method NewLocal() returns (head: Node)
      requires Linked() && |rings| == SLOTS
      modifies this`rings, this`where
      ensures fresh(head) && Linked()
      ensures rings == old(rings) + [[head]] && where == old(where)[head := SLOTS]
    {
      head := new Node.Head();
      Adopt(rings + [[head]], where[head := SLOTS]);
    }

    lemma HasNext(c: seq<Node>, node: Node)
      requires Ring(c + [node])
      ensures node.next != null
    {
      assert (c + [node])[|c|].next == Ahead(c + [node], |c|);
    }

    lemma RingIs(i: nat)
      requires Linked() && i < |rings|
      ensures var c := rings[i];
              && c != [] && NoDup(c) && Ring(c) && (i < SLOTS ==> c[0] == vec[i]) && c[0] in where
              && Ahead(c, 0) in where && Behind(c, 0) in where && Ahead(c, 0) in c && Behind(c, 0) in c
              && forall n :: n in c ==> n in where && where[n] == i
    {
    }

    lemma RingsAre()
      requires Linked()
      ensures |vec| == SLOTS <= |rings| && Located(rings, where)
      ensures forall i :: 0 <= i < |rings| ==> rings[i] != [] && Ring(rings[i])
      ensures forall i :: 0 <= i < SLOTS ==> rings[i][0] == vec[i]
    {
    }

    /** `coclink_splice` of list `s` into the local list. */
    method SpliceLocal(s: nat, head: Node)
      requires Linked() && |rings| == SLOTS + 1 && s < SLOTS && rings[SLOTS] == [head]
      modifies this`rings, this`where, Nodes()`next, Nodes()`prev
      ensures Linked() && Nodes() == old(Nodes())
      ensures rings == Moved(old(rings), s, SLOTS)
      ensures where == HandedOver(old(where), old(rings)[s][1..], SLOTS)
      ensures forall n :: n in timers && n !in where ==> n.next == old(n.next)
    {
      hide HandedOver, Moved, Located, Ring;
      ghost var c := rings[s];
      RingIs(s);
      RingIs(SLOTS);
      RingsAre();
      Splice(vec[s], head, c, [head]);
      assert [head] + c[1..] + [head][1..] == [head] + c[1..];
      OtherRingsKept(s);
      AdoptMoved(s, head);
    }

    /** A splice changes no node of another ring. */
    twostate lemma OtherRingsKept(s: nat)
      requires Located(rings, where) && |rings| == SLOTS + 1 && s < SLOTS && rings == old(rings)
      requires forall j :: 0 <= j < SLOTS ==> old(Ring(rings[j]))
      requires forall n :: n in where && n !in rings[s] && n !in rings[SLOTS] ==>
                             n.next == old(n.next) && n.prev == old(n.prev)
      ensures forall j :: 0 <= j < SLOTS && j != s ==> Ring(rings[j])
    {
      forall j | 0 <= j < SLOTS && j != s ensures Ring(rings[j]) {
        RingsApart(rings, where, s, j);
        RingsApart(rings, where, SLOTS, j);
        forall n | n in rings[j] ensures n in where {}
        RingKept(rings[j]);
      }
    }

    ghost method AdoptMoved(s: nat, head: Node)
      requires |vec| == SLOTS && |rings| == SLOTS + 1 && s < SLOTS && rings[SLOTS] == [head] && Located(rings, where)
      requires rings[s] != [] && Ring([rings[s][0]]) && Ring([head] + rings[s][1..])
      requires forall j :: 0 <= j < SLOTS && j != s ==> Ring(rings[j])
      requires forall i :: 0 <= i < SLOTS ==> rings[i] != [] && rings[i][0] == vec[i]
      modifies this`rings, this`where
      ensures Linked() && rings == Moved(old(rings), s, SLOTS)
              && where == HandedOver(old(where), old(rings)[s][1..], SLOTS)
      ensures where.Keys == old(where.Keys)
    {
      hide Ring;
      LocatedMove(rings, where, s, SLOTS);
      Adopt(Moved(rings, s, SLOTS), HandedOver(where, rings[s][1..], SLOTS));
    }

    /** The local list goes out of scope, empty. */
    ghost method DropLocal(head: Node)
      requires Linked() && |rings| == SLOTS + 1 && rings[SLOTS] == [head]
      modifies this`rings, this`where
      ensures Linked()
      ensures rings == old(rings)[..SLOTS] && where == old(where) - {head}
    {
      assert rings[SLOTS][0] == head;
      Adopt(rings[..SLOTS], where - {head});
    }

    // ---- the program -------------------------------------------------------

    /** `_cotw_add` */
    method Place(node: Node)
      requires Linked() && node in timers && node !in where && currtick < U32 && node.expire < U32
      modifies this`rings, this`where, Nodes()`next, Nodes()`prev
      ensures Linked() && Nodes() == old(Nodes()) && ClockAndTimersKept()
      ensures var k := SlotFor(currtick, node.expire);
              rings == old(rings)[k := old(rings)[k] + [node]] && where == old(where)[node := k]
      ensures forall n :: n in timers && n !in where ==> n.next == old(n.next)
      ensures node.next != null
    {
      var expire := node.expire;
      var idx := Minus32(expire, currtick);
      var list: int := -1;
      if idx < TVR_SIZE {
        list := FirstIndex(expire);
      } else {
        var i := 0;
        while i < 4
          invariant i <= 4 && idx >= Span(i) && list == -1
        {
          var sz := Span(i + 1);
          if idx < sz {
            SlotForOuter(currtick, expire, i);
            list := OuterSlot(i, NthIndex(expire, i));
            break;
          }
          i := i + 1;
        }
      }
      if list >= 0 {
        LinkInto(list, node);
      }
    }

    lemma LinkedIsNotNull()
      requires Linked()
      ensures forall n :: n in where ==> n.next != null
      ensures |rings| >= SLOTS && forall n :: n in where ==> where[n] < |rings|
    {
      forall n | n in where ensures n.next != null {
        var c := rings[where[n]];
        var k :| 0 <= k < |c| && c[k] == n;
        assert c[k].next == Ahead(c, k);
      }
    }

    /** What every operation keeps, inside a tick as well as between ticks. */
    ghost predicate Running()
      reads this`rings, this`where, this`timers, this`added, this`due, this`now, this`currtick, this`log, this`inTick
      reads Nodes()`next, Nodes()`prev, Nodes()`expire
    {
      Linked() && Timed() && Placed() && Logged()
    }

    /** Between two ticks: also, the ticks made so far account for the time that
        has passed, up to a remainder of less than one interval. */
    ghost predicate Valid()
      reads this, Nodes()
    {
      && Running() && Disciplined(log) && |rings| == SLOTS && !inTick
      && 0 < interval && remainder < interval && now >= origin.now && lasttime >= start
      && Elapsed(now - origin.now, remainder, lasttime - start)
    }

    ghost predicate Elapsed(ticks: nat, rest: nat, time: nat) {
      ticks * interval + rest == time
    }

    ghost method LogArm(node: Node, ticks: nat)
      requires Logged() && node !in due
      modifies this`due, this`log, this`added
      ensures Logged() && due == old(due)[node := now + AtLeastOne(ticks)]
      ensures log == old(log) + [Added(node, ticks)] && added == old(added) + {node}
    {
      hide After, Accepts, Arms, Initial;
      AppendEvent(origin, log, Added(node, ticks));
      ArmsAdd(log, added, node, ticks);
      due := due[node := now + AtLeastOne(ticks)];
      added := added + {node};
      log := log + [Added(node, ticks)];
    }

    /** `cotw_add`.  The caller sees to it that the node is not linked. */
    method Arm(node: Node, ticks: uint32)
      requires Running() && node in timers && node !in where
      modifies this`rings, this`where, this`due, this`log, this`added, Nodes()`next, Nodes()`prev, node`expire
      ensures Running() && Nodes() == old(Nodes())
      ensures due == old(due)[node := now + if ticks == 0 then 1 else ticks] && log == old(log) + [Added(node, ticks)]
      ensures added == old(added) + {node} && where.Keys == old(where.Keys) + {node} && where[node] < SLOTS
      ensures |rings| == |old(rings)| && forall i :: SLOTS <= i < |rings| ==> rings[i] == old(rings)[i]
    {
      hide AtHome, AllHome, Owned, Linked, Logged, Timed, Wrap, SlotFor;
      LinkedIsNotNull();
      TimedOwns();
      DueAreTimers();
      ghost var deadline := now + AtLeastOne(ticks);
      Stamp(node, ticks);
      Place(node);
      LinkedIsNotNull();
      HomeFound(now, deadline);
      AllHomeArm(now, old(due), old(where), node, deadline, SlotFor(currtick, node.expire));
      OwnedArm(old(rings), old(where), old(due), timers, SlotFor(currtick, node.expire), node, deadline, rings, where);
      TimedAfterArm(node);
    }

    /** `node->expire = tw->currtick + max(ticks, 1)` */
    method Stamp(node: Node, ticks: uint32)
      requires Logged() && node !in due && currtick == Wrap(now)
      modifies this`due, this`log, this`added, node`expire
      ensures Logged() && due == old(due)[node := now + AtLeastOne(ticks)]
      ensures log == old(log) + [Added(node, ticks)] && added == old(added) + {node}
      ensures node.expire == Wrap(due[node]) < U32
    {
      hide Logged, Wrap;
      WrapAdd(now, AtLeastOne(ticks));
      node.expire := Wrap(currtick + if ticks > 0 then ticks else 1);
      LogArm(node, ticks);
    }

    twostate lemma TimedAfterArm(node: Node)
      requires old(Timed()) && node in timers && node in due && node in where
      requires currtick == old(currtick) && now == old(now) && timers == old(timers) && added == old(added) + {node}
      requires due == old(due)[node := due[node]] && Owned(rings, where, due, timers) && node.expire == Wrap(due[node])
      requires where.Keys == old(where.Keys) + {node}
      requires forall n :: n in timers && n != node ==> n.expire == old(n.expire)
      requires forall n :: n in timers && n !in where ==> n.next == old(n.next)
      requires forall n :: n in old(where) ==> old(n.next) != null
      requires forall n :: n in where ==> n.next != null
      ensures Timed()
    {
      forall n | n in timers
        ensures (n.next == null <==> n !in added) && (n !in where && n in added ==> n.next == n)
      {
      }
    }

    /** A linked timer is never alone in its ring, so it does not look empty. */
    lemma LinkedIsNotEmpty(node: Node)
      requires Linked() && node in where && !IsHead(rings, where, node)
      ensures !IsEmpty(node)
    {
      var c := rings[where[node]];
      var k :| 0 <= k < |c| && c[k] == node;
      EmptyMeansAlone(c, k);
    }

    lemma TimerIsLinked(node: Node)
      requires Linked() && Timed() && node in due
      ensures node in where && node in timers && Located(rings, where) && !IsHead(rings, where, node)
      ensures where[node] < |rings| && forall i :: 0 <= i < |rings| ==> rings[i] != []
    {
    }

    lemma TimedOwns()
      requires Timed()
      ensures Owned(rings, where, due, timers) && currtick == Wrap(now)
    {
    }

    lemma RingsHaveHeads()
      requires Linked()
      ensures Located(rings, where) && forall i :: 0 <= i < |rings| ==> rings[i] != []
    {
    }

    twostate lemma TimedAfterTake(node: Node)
      requires old(Timed()) && node in old(due)
      requires currtick == old(currtick) && now == old(now) && timers == old(timers) && added == old(added)
      requires where == old(where) - {node} && due == old(due) - {node} && Owned(rings, where, due, timers)
      requires forall n :: n in timers ==> n.expire == old(n.expire)
      requires forall n :: n in timers && n !in old(where) ==> n.next == old(n.next)
      requires forall n :: n in old(where) ==> old(n.next) != null
      requires forall n :: n in where ==> n.next != null
      requires node.next == node
      ensures Timed()
    {
      forall n | n in timers
        ensures (n.next == null <==> n !in added) && (n !in where && n in added ==> n.next == n)
      {
      }
    }

    twostate lemma TimedKept()
      requires old(Timed())
      requires currtick == old(currtick) && now == old(now) && timers == old(timers) && added == old(added)
               && due == old(due)
      requires Owned(rings, where, due, timers)
      requires forall n :: n in timers ==> n.expire == old(n.expire)
      requires forall n :: n in timers && n !in old(where) ==> n.next == old(n.next)
      requires forall n :: n in old(where) ==> old(n.next) != null
      requires forall n :: n in where ==> n.next != null
      requires forall n :: n in timers ==> (n in where <==> n in old(where))
      ensures Timed()
    {
    }

    ghost method LogTake(e: Event<Node>)
      requires Logged() && (e.Deleted? || e.Fired?) && Enabled(State(now, inTick, due), e)
      modifies this`due, this`log
      ensures Logged() && due == old(due) - {e.timer} && log == old(log) + [e]
    {
      hide After, Accepts, Arms, Initial;
      AppendEvent(origin, log, e);
      ArmsOther(log, added, e);
      due := due - {e.timer};
      log := log + [e];
    }

    /** The state after an armed timer was unlinked, with its event noted. */
    method Take(node: Node, ghost e: Event<Node>)
      requires Running() && node in due && (e == Deleted(node) || (e == Fired(node) && inTick && due[node] == now))
      modifies this`rings, this`where, this`due, this`log, Nodes()`next, Nodes()`prev
      ensures Running() && Nodes() == old(Nodes())
      ensures due == old(due) - {node} && log == old(log) + [e] && where == old(where) - {node}
      ensures OneTaken(old(rings), old(where[node]), rings)
    {
      hide AllHome, Owned, Linked, Located, IsHead, OneTaken, Logged, Timed;
      TimerIsLinked(node);
      LinkedIsNotNull();
      TimedOwns();
      LogTake(e);
      ghost var i := where[node];
      ghost var k := Unlink(node);
      LinkedIsNotNull();
      OwnedDisarm(old(rings), old(where), old(due), timers, i, k, node, rings, where);
      AllHomeTake(now, old(due), old(where), node);
      TimedAfterTake(node);
      TakenAt(old(rings), i, k);
    }

    /** `cotw_del` */
    method Disarm(node: Node) returns (armed: bool)
      requires Running() && node in timers && node in added
      modifies this`rings, this`where, this`due, this`log, Nodes()`next, Nodes()`prev
      ensures Running() && Nodes() == old(Nodes())
      ensures armed <==> node in old(due)
      ensures due == old(due) - {node} && log == if armed then old(log) + [Deleted(node)] else old(log)
      ensures where == old(where) - {node}
      ensures if armed then OneTaken(old(rings), old(where[node]), rings) else rings == old(rings)
    {
      hide AtHome, Linked, Located, Logged;
      LinkedIsNotNull();
      if !IsEmpty(node) {
        Take(node, Deleted(node));
        return true;
      }
      if node in due {
        TimerIsLinked(node);
        LinkedIsNotEmpty(node);
        assert false;
      }
      RingsHaveHeads();
      return false;
    }

    /** The head of the local list tells whether the list is empty, and where
        its first member is. */
    lemma LocalFirst(head: Node)
      requires Linked() && Timed() && |rings| == SLOTS + 1 && rings[SLOTS] != [] && rings[SLOTS][0] == head
      ensures IsEmpty(head) <==> |rings[SLOTS]| == 1
      ensures head.next != null && head in where
      ensures !IsEmpty(head) ==> var n := head.next;
              n in where && n in due && where[n] == SLOTS && Located(rings, where) && !IsHead(rings, where, n)
      ensures !IsEmpty(head) ==> |rings[SLOTS]| > 1 && head.next == rings[SLOTS][1]
    {
      var c := rings[SLOTS];
      EmptyMeansAlone(c, 0);
      assert c[0].next == Ahead(c, 0);
    }

    /** The loop body of `_cotw_cascade`. */
    method Relink(node: Node)
      requires Linked() && Timed() && node in due && node in where && !IsHead(rings, where, node)
      modifies this`rings, this`where, Nodes()`next, Nodes()`prev
      ensures Linked() && Timed() && Nodes() == old(Nodes())
      ensures where == old(where)[node := SlotFor(currtick, Wrap(due[node]))]
      ensures old(where[node]) >= SLOTS ==> OneTakenHigh(old(rings), old(where[node]), rings)
    {
      hide AtHome, Owned, Linked, Located, IsHead, Without, Timed, Wrap, SlotFor, OneTakenHigh;
      StampsMatch();
      TimerIsLinked(node);
      LinkedIsNotNull();
      TimedOwns();
      ghost var i := where[node];
      ghost var k := Unlink(node);
      ghost var rings1, where1 := rings, where;
      Place(node);
      LinkedIsNotNull();
      OwnedRelink(old(rings), old(where), due, timers, i, k, node, SlotFor(currtick, node.expire), rings1, where1,
        rings, where);
      TimedKept();
      RelinkMoves(old(rings), old(where), i, k, node, SlotFor(currtick, node.expire), rings1, where1, rings, where);
    }

    ghost predicate Draining(head: Node)
      reads this`rings
    {
      |rings| == SLOTS + 1 && rings[SLOTS] != [] && rings[SLOTS][0] == head
    }

    /** A local list head that has taken over list `s`. */
    method TakeOver(s: nat) returns (head: Node)
      requires Linked() && Timed() && |rings| == SLOTS && s < SLOTS
      modifies this`rings, this`where, Nodes()`next, Nodes()`prev
      ensures fresh(head) && Linked() && Timed() && Nodes() == old(Nodes()) + {head}
      ensures |rings| == SLOTS + 1 && rings[SLOTS] != [] && rings[SLOTS][0] == head
      ensures where.Keys == old(where.Keys) + {head}
      ensures forall n :: n in due ==>
                            n in old(where) && where[n] == if old(where[n]) == s then SLOTS else old(where[n])
    {
      hide AtHome, Owned, Linked, Located, Ring, IsHead, Timed;
      LinkedIsNotNull();
      TimedOwns();
      head := NewLocal();
      OwnedLocal(old(rings), old(where), due, timers, head);
      ghost var rings1, where1 := rings, where;
      SpliceLocal(s, head);
      LinkedIsNotNull();
      OwnedMove(rings1, where1, due, timers, s, SLOTS);
      TimedKept();
      DueAreTimers();
    }

    lemma DueAreTimers()
      requires Timed()
      ensures due.Keys <= timers && due.Keys <= where.Keys
    {
    }

    /** The local list goes out of scope. */
    ghost method Leave(head: Node)
      requires Linked() && Timed() && |rings| == SLOTS + 1 && rings[SLOTS] == [head] && head !in timers
      modifies this`rings, this`where
      ensures Linked() && Timed() && Nodes() == old(Nodes()) - {head} && |rings| == SLOTS
      ensures where == old(where) - {head}
      ensures forall n :: n in due ==> n in old(where) && where[n] == old(where[n]) < SLOTS
      ensures old(Placed()) ==> Placed()
    {
      hide AtHome, Owned, Linked, Located, Ring, IsHead;
      LinkedIsNotNull();
      OwnedDrop(rings, where, due, timers, SLOTS, head);
      DropLocal(head);
      LinkedIsNotNull();
      TimedKept();
      DueAreTimers();
    }

    /** `_cotw_cascade` of list `idx` of outer wheel `i`. */
    method Cascade(i: nat, idx: nat)
      requires Linked() && Timed() && |rings| == SLOTS && i < 4 && idx < TVN_SIZE
      modifies this`rings, this`where, Nodes()`next, Nodes()`prev
      ensures Linked() && Timed() && |rings| == SLOTS && Nodes() == old(Nodes())
      ensures Cascaded(due, old(where), where, OuterSlot(i, idx), currtick)
    {
      hide SlotFor, Wrap, Linked, Timed, Located, IsHead, Cascading, Cascaded;
      LinkedIsNotNull();
      DueAreTimers();
      ghost var before, nodes := where, Nodes();
      var s := OuterSlot(i, idx);
      var head := TakeOver(s);
      CascadeStarts(due, before, where, s, currtick);
      while !IsEmpty(head)
        invariant Linked() && Timed() && Nodes() == nodes + {head} && head !in nodes && head !in timers
        invariant Draining(head) && Cascading(due, before, where, s, currtick)
        decreases |rings[SLOTS]|
      {
        LocalFirst(head);
        var node := head.next;
        CascadeSteps(due, before, where, s, currtick, node);
        Relink(node);
      }
      LocalFirst(head);
      ghost var places := where;
      Leave(head);
      CascadeEnds(due, before, places, s, currtick, head, where);
      AddThenRemove(nodes, head);
    }

    lemma StampsMatch()
      requires Timed()
      ensures currtick == Wrap(now) && forall n :: n in due ==> n.expire == Wrap(due[n])
    {
    }

    ghost method LogBegin()
      requires Logged() && !inTick
      modifies this`now, this`inTick, this`log
      ensures Logged() && inTick && now == old(now) + 1 && log == old(log) + [TickBegan]
    {
      hide After, Accepts, Arms, Initial;
      AppendEvent(origin, log, TickBegan);
      ArmsOther(log, added, TickBegan);
      now := now + 1;
      inTick := true;
      log := log + [TickBegan];
    }

    ghost method LogEnd()
      requires Logged() && inTick && forall n :: n in due ==> due[n] > now
      modifies this`inTick, this`log
      ensures Logged() && !inTick && log == old(log) + [TickEnded]
    {
      hide After, Accepts, Arms, Initial;
      AppendEvent(origin, log, TickEnded);
      ArmsOther(log, added, TickEnded);
      inTick := false;
      log := log + [TickEnded];
    }

    /** `++currtick` */
    method StepClock()
      requires Running() && |rings| == SLOTS && !inTick
      modifies this`currtick, this`now, this`inTick, this`log
      ensures Linked() && Timed() && Logged() && inTick && now == old(now) + 1 && log == old(log) + [TickBegan]
      ensures forall n :: n in due ==> n in where && Mid(now, due[n], where[n], 0)
    {
      hide Linked, Logged, Owned;
      DueAreTimers();
      LinkedIsNotNull();
      forall n | n in due ensures Mid(now + 1, due[n], where[n], 0) {
        assert AtHome(now, due[n], where[n]);
        MidStart(now, due[n], where[n]);
      }
      hide AtHome, Mid;
      WrapAdd(now, 1);
      currtick := Wrap(currtick + 1);
      LogBegin();
    }

    /** The first half of `_cotw_tick`: advance the clock, then cascade. */
    method Advance()
      requires Running() && |rings| == SLOTS && !inTick
      modifies this`currtick, this`now, this`inTick, this`log, this`rings, this`where, Nodes()`next, Nodes()`prev
      ensures Linked() && Timed() && Logged() && |rings| == SLOTS && Nodes() == old(Nodes())
      ensures inTick && now == old(now) + 1 && log == old(log) + [TickBegan]
      ensures forall n :: n in due ==> n in where && Sorted(now, due[n], where[n])
    {
      hide SlotFor, Wrap, Linked, Timed, Located, IsHead, Logged, Mid, Sorted, NthIndex, AtHome, Span;
      StepClock();
      RootIndexIgnoresWrap(now);
      StampsMatch();
      ghost var level := 0;
      var index := FirstIndex(currtick);
      if index == 0 {
        var i := 0;
        var again := true;
        while again
          modifies this`rings, this`where, Nodes()`next, Nodes()`prev
          invariant Linked() && Timed() && Logged() && |rings| == SLOTS && Nodes() == old(Nodes())
          invariant level <= 4 && (again ==> level == i < 4 && now % Span(i) == 0)
          invariant !again && level < 4 ==> now % Span(level) != 0
          invariant forall n :: n in due ==> n in where && Mid(now, due[n], where[n], level)
          decreases again, 4 - i
        {
          NthIndexIgnoresWrap(now, i);
          DivisorsChain(now, i);
          StampsMatch();
          forall n | n in due
            ensures Mid(now, due[n],
                        if where[n] == SlotToEmpty(now, i) then SlotFor(currtick, Wrap(due[n])) else where[n], i + 1)
          {
            MidStep(now, due[n], where[n], i);
          }
          var idx := NthIndex(currtick, i);
          Cascade(i, idx);
          level := i + 1;
          if idx == 0 {
            i := i + 1;
            again := i < 4;
          } else {
            again := false;
          }
        }
      }
      forall n | n in due ensures Sorted(now, due[n], where[n]) {
        MidEnd(now, due[n], where[n], level);
      }
    }

    lemma NotNullMeansAdded(n: Node)
      requires Linked() && Timed() && Logged() && n in timers
      ensures n.next == null <==> !EverAdded(log, n)
      ensures n in added <==> EverAdded(log, n)
      ensures n in due <==> n in where
      ensures n.next == null ==> n !in where
      ensures n.next == n ==> n !in where
    {
      LinkedIsNotNull();
      if n.next == n && n in where {
        LinkedIsNotEmpty(n);
        assert false;
      }
    }

    lemma AddedAreTimers()
      requires Running()
      ensures added <= timers
    {
    }

    /** One call a callback makes; what the callee's contract forbids is not done. */
    method RunOp(op: Op) returns (gone: set<Node>)
      requires Running() && Disciplined(log) && op.timer in timers
      modifies this`rings, this`where, this`due, this`log, this`added, Nodes()`next, Nodes()`prev, Nodes()`expire
      ensures Running() && Disciplined(log) && Nodes() == old(Nodes())
      ensures log == OpLog(origin, old(log), op) && LocalsShrink(old(rings), rings)
      ensures gone == OpGone(old(log), op) && Out(gone, added, due) && StayOut(old(added), old(due), added, due)
    {
      gone := {};
      hide AtHome, Placed, Linked, Timed, Located, IsHead, Disciplined, EverAdded, IsEmpty;
      var n := op.timer;
      NotNullMeansAdded(n);
      match op {
        case ToAdd(_, d) =>
          if n.next == null || (n.next == n && !n.callback.OnTimer?) {
            DisciplinedAppend(log, Added(n, d));
            Arm(n, d);
          } else if n.next != n {
            IdleOrLinked(n);
          }
        case ToDelete(_) =>
          if n.next != null {
            DisciplinedAppend(log, Deleted(n));
            var _ := Disarm(n);
            gone := {n};
          }
      }
    }

    lemma IdleOrLinked(n: Node)
      requires Linked() && Timed() && n in timers && n in added && n.next != n
      ensures n in due
    {
    }

    method RunOps(ops: seq<Op>) returns (gone: set<Node>)
      requires Running() && Disciplined(log) && forall op :: op in ops ==> op.timer in timers
      modifies this`rings, this`where, this`due, this`log, this`added, Nodes()`next, Nodes()`prev, Nodes()`expire
      ensures Running() && Disciplined(log) && Nodes() == old(Nodes())
      ensures log == OpsLog(origin, old(log), ops) && LocalsShrink(old(rings), rings)
      ensures gone == OpsGone(origin, old(log), ops) && Out(gone, added, due)
              && StayOut(old(added), old(due), added, due)
    {
      hide Running, Disciplined, OpLog, OpGone, Shorter;
      gone := {};
      LocalsStart();
      var i := 0;
      while i < |ops|
        invariant i <= |ops|
        invariant Running() && Disciplined(log) && Nodes() == old(Nodes())
        invariant log == OpsLog(origin, old(log), ops[..i]) && LocalsShrink(old(rings), rings)
        invariant gone == OpsGone(origin, old(log), ops[..i]) && Out(gone, added, due)
                  && StayOut(old(added), old(due), added, due)
      {
        ghost var rings1, added1, due1 := rings, added, due;
        var more := RunOp(ops[i]);
        LocalsGoOn(old(rings), rings1, rings);
        StillOut(gone, old(added), old(due), added1, due1, more, added, due);
        gone := gone + more;
        i := i + 1;
        assert ops[..i][..i - 1] == ops[..i - 1];
      }
      assert ops[..i] == ops;
    }

    lemma LocalsStart()
      ensures LocalsShrink(rings, rings)
    {
    }

    lemma PlacedMeans()
      requires Placed()
      ensures forall n :: n in due && n in where ==> if where[n] < SLOTS then due[n] > now else due[n] == now
    {
      forall n | n in due && n in where && where[n] < SLOTS ensures due[n] > now {
        ResidesLater(now, due[n], where[n]);
      }
    }

    /** The call `node->callback(node->userdata)` of a timer that has just been
        taken off; `_on_timer` re-arms a periodic item before its own callback. */
    method RunCallback(node: Node, ops: seq<Op>, ghost before: Log) returns (gone: set<Node>)
      requires Running() && node in timers && node !in due && Disciplined(before) && log == before + [Fired(node)]
      requires forall op :: op in ops ==> op.timer in timers
      modifies this`rings, this`where, this`due, this`log, this`added, Nodes()`next, Nodes()`prev, Nodes()`expire
      ensures Running() && Disciplined(log) && Nodes() == old(Nodes())
      ensures log == CallbackLog(origin, old(log), node, ops) && LocalsShrink(old(rings), rings)
      ensures gone == CallbackGone(origin, old(log), node, ops) && Out(gone, added, due)
      ensures exists steps :: CallbackRan(origin, before, node, ops, steps, log, gone)
      ensures StayOut(old(added) - {node}, old(due), added - {node}, due) && old(added) <= added
    {
      hide AtHome, Placed, Linked, Timed, Located, IsHead, Disciplined, EverAdded, OpsLog, OpsGone, CallbackRan;
      gone := {};
      NotNullMeansAdded(node);
      match node.callback {
        case NoCallback =>
          DisciplinedAppend(before, Fired(node));
        case Client =>
          DisciplinedAppend(before, Fired(node));
          gone := RunOps(ops);
        case OnTimer(loop) =>
          if loop > 0 {
            DisciplinedRearm(before, node);
            Arm(node, loop);
          } else {
            DisciplinedAppend(before, Fired(node));
          }
          gone := RunOps(ops);
      }
      ghost var steps := CallbackRuns(origin, before, node, ops);
    }

    /** The loop body of `_cotw_tick`: take the first timer off and call it. */
    method FireFirst(head: Node, ops: seq<Op>) returns (node: Node, gone: set<Node>)
      requires Running() && Disciplined(log) && inTick && Draining(head) && !IsEmpty(head)
      requires forall op :: op in ops ==> op.timer in timers
      modifies this`rings, this`where, this`due, this`log, this`added, Nodes()`next, Nodes()`prev, Nodes()`expire
      ensures Running() && Disciplined(log) && Nodes() == old(Nodes())
      ensures Draining(head) && |rings[SLOTS]| < |old(rings)[SLOTS]| && Shorter(rings[SLOTS], old(rings)[SLOTS])
      ensures |old(rings)[SLOTS]| > 1 && node == old(rings)[SLOTS][1]
      ensures log == CallbackLog(origin, old(log) + [Fired(node)], node, ops)
      ensures gone == CallbackGone(origin, old(log) + [Fired(node)], node, ops)
      ensures Out(gone, added, due) && StayOut(old(added), old(due), added, due)
    {
      hide Disciplined, Linked, Timed, Logged, Placed, CallbackLog, CallbackGone, Located, IsHead;
      LocalFirst(head);
      PlacedMeans();
      node := head.next;
      TimerIsLinked(node);
      Take(node, Fired(node));
      gone := RunCallback(node, ops, old(log));
    }

    /** The current list of the root wheel is spliced to a local head. */
    method StartFiring() returns (head: Node)
      requires Linked() && Timed() && Logged() && |rings| == SLOTS
      requires forall n :: n in due ==> n in where && Sorted(now, due[n], where[n])
      modifies this`rings, this`where, Nodes()`next, Nodes()`prev
      ensures Running() && Draining(head) && fresh(head) && Nodes() == old(Nodes()) + {head}
    {
      hide Linked, Timed, Logged, Sorted, AtHome;
      var index := FirstIndex(currtick);
      StampsMatch();
      RootIndexIgnoresWrap(now);
      head := TakeOver(index);
      forall n | n in due ensures AtHome(now, due[n], where[n]) {
        SortedIsHome(now, due[n], old(where[n]));
      }
    }

    /** The local list is empty and goes out of scope: the tick is over. */
    ghost method StopFiring(head: Node)
      requires Running() && Disciplined(log) && inTick && Draining(head) && IsEmpty(head) && head !in timers
      modifies this`rings, this`where, this`inTick, this`log
      ensures Running() && Disciplined(log) && |rings| == SLOTS && !inTick && Nodes() == old(Nodes()) - {head}
      ensures log == old(log) + [TickEnded]
    {
      hide Linked, Timed, Logged, Placed, Located, IsHead, Disciplined;
      LocalFirst(head);
      PlacedMeans();
      Leave(head);
      DisciplinedAppend(log, TickEnded);
      LogEnd();
    }

    /** The second half of `_cotw_tick`: fire everything in the current list. */
    method Fire(script: Script) returns (ghost fired: seq<Node>, gone: set<Node>)
      requires Linked() && Timed() && Logged() && Disciplined(log) && |rings| == SLOTS && inTick
      requires forall n :: n in due ==> n in where && Sorted(now, due[n], where[n])
      requires forall ops, op :: ops in script && op in ops ==> op.timer in timers
      modifies this`rings, this`where, this`due, this`log, this`added, this`inTick, Nodes()`next, Nodes()`prev,
               Nodes()`expire
      ensures Running() && Disciplined(log) && |rings| == SLOTS && !inTick && Nodes() == old(Nodes())
      ensures log == DrainLog(origin, old(log), fired, script) + [TickEnded]
      ensures gone == DrainGone(origin, old(log), fired, script)
      ensures Out(gone, added, due) && StayOut(old(added), old(due), added, due)
    {
      hide Disciplined, Linked, Timed, Logged, Running, CallbackLog, CallbackGone, Located, Sorted, Shorter;
      var head := StartFiring();
      fired, gone := [], {};
      var k := 0;
      while !IsEmpty(head)
        invariant Running() && Disciplined(log) && inTick && Nodes() == old(Nodes()) + {head} && head !in timers
        invariant Draining(head)
        invariant k == |fired| && log == DrainLog(origin, old(log), fired, script)
        invariant gone == DrainGone(origin, old(log), fired, script)
        invariant Out(gone, added, due) && StayOut(old(added), old(due), added, due)
        decreases |rings[SLOTS]|
      {
        ghost var added1, due1 := added, due;
        var node, more := FireFirst(head, if k < |script| then script[k] else []);
        StillOut(gone, old(added), old(due), added1, due1, more, added, due);
        fired, gone := fired + [node], gone + more;
        k := k + 1;
      }
      StopFiring(head);
    }

    ghost predicate Known(script: Script)
      reads this`timers
    {
      forall ops, op :: ops in script && op in ops ==> op.timer in timers
    }

    /** `_cotw_tick`.  The order in which timers due in the same tick fire is
        not promised; given it, the script settles everything that happens. */
    method Tick(script: Script) returns (ghost fired: seq<Node>, gone: set<Node>)
      requires Running() && Disciplined(log) && |rings| == SLOTS && !inTick && Known(script)
      modifies this`currtick, this`now, this`rings, this`where, this`due, this`log, this`added, this`inTick
      modifies Nodes()`next, Nodes()`prev, Nodes()`expire
      ensures Running() && Disciplined(log) && |rings| == SLOTS && !inTick && Nodes() == old(Nodes())
      ensures now == old(now) + 1 && log == TickLog(origin, old(log), fired, script)
      ensures gone == DrainGone(origin, old(log) + [TickBegan], fired, script)
      ensures exists x :: TickRan(origin, old(log), fired, script, x, log, gone)
      ensures Out(gone, added, due) && StayOut(old(added), old(due), added, due)
    {
      hide Disciplined, Linked, Timed, Logged, Located, Sorted, DrainLog, DrainGone, After, Accepts, TickRan;
      DisciplinedAppend(log, TickBegan);
      Advance();
      fired, gone := Fire(script);
      ghost var x := TickRuns(origin, old(log), fired, script);
    }

    // ---- the interface -----------------------------------------------------

    /** `cotw_init`; `clock` is the tick count it starts from (0 in the program). */
    constructor (intv: nat, currtime: nat, clock: nat)
      requires 0 < intv < 0x1_0000
      ensures Valid() && fresh(Nodes()) && timers == {} && due == map[] && log == []
      ensures interval == intv && now == origin.now == clock && lasttime == start == currtime && remainder == 0
    {
      hide Running, Disciplined, Elapsed, Ring, Wrap;
      var heads;
      ghost var places;
      heads, places := MakeHeads();
      vec := heads;
      interval := intv;
      currtick := Wrap(clock);
      lasttime := currtime;
      remainder := 0;
      origin := State(clock, false, map[]);
      start := currtime;
      rings := seq(SLOTS, i requires 0 <= i < |heads| => [heads[i]]);
      where := places;
      now := clock;
      inTick := false;
      due := map[];
      timers := {};
      added := {};
      log := [];
      new;
      NothingArmed();
    }

    lemma NothingArmed()
      requires |vec| == |rings| == SLOTS && where.Keys == (set n | n in vec)
      requires forall i :: 0 <= i < SLOTS ==> rings[i] == [vec[i]] && Ring([vec[i]]) && where[vec[i]] == i
      requires timers == added == {} && due == map[] && log == [] && origin == State(now, inTick, due) && !inTick
      requires currtick == Wrap(now)
      ensures Running() && Disciplined(log) && Elapsed(0, 0, 0)
    {
      hide Wrap, Ring;
      forall n | n in where ensures where[n] < |rings| && n in rings[where[n]] {
        var i :| 0 <= i < |vec| && vec[i] == n;
        assert rings[i] == [vec[i]];
      }
    }

    /** Makes a freshly initialised node (`cotw_node_init`) known to the wheel. */
    ghost method Enroll(node: Node)
      requires Valid() && node !in Nodes() && node.next == null
      modifies this`timers
      ensures Valid() && timers == old(timers) + {node} && node !in due && !EverAdded(log, node)
    {
      hide Linked, Timed, Logged, Disciplined, Placed, EverAdded;
      timers := timers + {node};
      TimedEnrolled(node);
      NotNullMeansAdded(node);
    }

    twostate lemma TimedEnrolled(node: Node)
      requires old(Timed()) && timers == old(timers) + {node} && node !in old(timers) && node !in where
      requires currtick == old(currtick) && now == old(now) && added == old(added) && due == old(due)
      requires rings == old(rings) && where == old(where) && node.next == null
      requires forall n :: n in timers ==> n.expire == old(n.expire) && n.next == old(n.next)
      ensures Timed() && node !in due
    {
    }

    /** `cotw_add` */
    method Add(node: Node, ticks: uint32)
      requires Valid() && node in timers && node !in due && (node.callback.OnTimer? ==> !EverAdded(log, node))
      modifies this`rings, this`where, this`due, this`log, this`added, Nodes()`next, Nodes()`prev, node`expire
      ensures Valid() && Nodes() == old(Nodes()) && added == old(added) + {node}
      ensures due == old(due)[node := now + if ticks == 0 then 1 else ticks] && log == old(log) + [Added(node, ticks)]
    {
      hide Linked, Timed, Placed, Logged, Disciplined;
      NotNullMeansAdded(node);
      DisciplinedAppend(log, Added(node, ticks));
      Arm(node, ticks);
    }

    /** `cotw_del` of a timer that was added at least once. */
    method Del(node: Node) returns (armed: bool)
      requires Valid() && node in timers && EverAdded(log, node)
      modifies this`rings, this`where, this`due, this`log, Nodes()`next, Nodes()`prev
      ensures Valid() && Nodes() == old(Nodes()) && (armed <==> node in old(due)) && node in added
      ensures due == old(due) - {node} && log == if armed then old(log) + [Deleted(node)] else old(log)
    {
      hide Linked, Timed, Placed, Logged, Disciplined, EverAdded;
      NotNullMeansAdded(node);
      DisciplinedAppend(log, Deleted(node));
      armed := Disarm(node);
    }

    /** `cotw_update`: makes the ticks that are due at `currtime`. */
    method Update(currtime: nat, scripts: seq<Script>) returns (ghost fired: seq<seq<Node>>, gone: set<Node>)
      requires Valid() && forall script :: script in scripts ==> Known(script)
      requires currtime > lasttime ==> currtime - lasttime + remainder < 0x8000_0000
      modifies this`currtick, this`now, this`rings, this`where, this`due, this`log, this`added, this`inTick
      modifies this`lasttime, this`remainder, Nodes()`next, Nodes()`prev, Nodes()`expire
      ensures Valid() && Nodes() == old(Nodes())
      ensures lasttime == if currtime > old(lasttime) then currtime else old(lasttime)
      ensures now == old(now) + |fired| && log == TicksLog(origin, old(log), fired, scripts)
      ensures gone == TicksGone(origin, old(log), fired, scripts)
      ensures exists x :: TicksRan(origin, old(log), fired, scripts, x, log, gone)
      ensures Out(gone, added, due) && StayOut(old(added), old(due), added, due)
    {
      hide Running, Disciplined, Elapsed, Out, StayOut, Known, TicksRan, TicksLog, TicksGone;
      fired, gone := [], {};
      NothingOut(added, due);
      NoTicks(origin, log, scripts);
      if currtime > lasttime {
        var diff := currtime - lasttime + remainder;
        MoreTime(now - origin.now, remainder, lasttime - start, currtime - lasttime);
        lasttime := currtime;
        fired, diff, gone := RunTicks(diff, scripts, currtime - start);
        remainder := diff;
      }
      ghost var x := TicksRun(origin, old(log), fired, scripts);
    }

    /** The loop of `cotw_update`. */
    method RunTicks(time: nat, scripts: seq<Script>, ghost total: nat)
      returns (ghost fired: seq<seq<Node>>, diff: nat, gone: set<Node>)
      requires Running() && Disciplined(log) && |rings| == SLOTS && !inTick
      requires interval > 0 && now >= origin.now && Elapsed(now - origin.now, time, total)
      requires forall script :: script in scripts ==> Known(script)
      modifies this`currtick, this`now, this`rings, this`where, this`due, this`log, this`added, this`inTick
      modifies Nodes()`next, Nodes()`prev, Nodes()`expire
      ensures Running() && Disciplined(log) && |rings| == SLOTS && !inTick && Nodes() == old(Nodes())
      ensures diff < interval && now >= origin.now && Elapsed(now - origin.now, diff, total)
      ensures now == old(now) + |fired| && log == TicksLog(origin, old(log), fired, scripts)
      ensures gone == TicksGone(origin, old(log), fired, scripts)
      ensures Out(gone, added, due) && StayOut(old(added), old(due), added, due)
    {
      hide Running, Disciplined, TickLog, DrainGone, Elapsed, Out, StayOut, TickRan, TicksLog, TicksGone;
      fired, gone := [], {};
      NothingOut(added, due);
      NoTicks(origin, log, scripts);
      diff := time;
      var k := 0;
      while diff >= interval
        invariant Running() && Disciplined(log) && |rings| == SLOTS && !inTick && Nodes() == old(Nodes())
        invariant now >= origin.now && Elapsed(now - origin.now, diff, total)
        invariant k == |fired| && now == old(now) + |fired| && log == TicksLog(origin, old(log), fired, scripts)
        invariant gone == TicksGone(origin, old(log), fired, scripts)
        invariant Out(gone, added, due) && StayOut(old(added), old(due), added, due)
      {
        ghost var added1, due1 := added, due;
        OneMoreTick(now - origin.now, diff, total);
        diff := diff - interval;
        ghost var f;
        var more;
        f, more := Tick(if k < |scripts| then scripts[k] else []);
        StillOut(gone, old(added), old(due), added1, due1, more, added, due);
        AnotherTick(origin, old(log), fired, f, scripts);
        fired, gone := fired + [f], gone + more;
        k := k + 1;
      }
    }

    lemma OneMoreTick(ticks: nat, rest: nat, time: nat)
      requires Elapsed(ticks, rest, time) && rest >= interval
      ensures Elapsed(ticks + 1, rest - interval, time)
    {
      assert (ticks + 1) * interval == ticks * interval + interval;
    }

    lemma MoreTime(ticks: nat, rest: nat, time: nat, more: nat)
      requires Elapsed(ticks, rest, time)
      ensures Elapsed(ticks, more + rest, time + more)
    {
    }

    /** In the whole history of a wheel, and across any number of wrap-arounds
        of its 32-bit clock, a timer armed with delay d fires on exactly the
        max(d,1)-th tick after that unless it is deleted first. */
    lemma FiresExactlyOnTime(t: Node, d: nat, i: nat, j: nat)
      requires Valid() && i < j < |log| && log[i] == Added(t, d)
      ensures log[j] == Fired(t) && Untouched(log, t, i, j) ==> Ticks(log, i, j) == if d == 0 then 1 else d
      ensures log[j] == TickEnded && Ticks(log, i, j) >= (if d == 0 then 1 else d) ==>
                exists k :: i < k < j && (log[k] == Fired(t) || log[k] == Deleted(t))
    {
      if log[j] == Fired(t) && Untouched(log, t, i, j) { FiresOnlyOnTime(origin, log, t, d, i, j); }
      if log[j] == TickEnded && Ticks(log, i, j) >= (if d == 0 then 1 else d) { FiresInTime(origin, log, t, d, i, j); }
    }

    /** A timer that a callback deletes does not fire unless it is added again. */
    lemma SilentAfterCall(t: Node, a: Log, b: Log, j: nat)
      requires Valid() && Called(origin, a, ToDelete(t), b) && b <= log && |b| <= j < |log|
      requires forall k, d :: |b| <= k < j ==> log[k] != Added(t, d)
      ensures log[j] != Fired(t)
    {
      assert log[..|b|] == b;
      SilentWhileIdle(origin, log, t, |b|, j);
      EventAt(origin, log, j);
    }

    /** The number of ticks made is the elapsed time divided by the interval. */
    lemma TicksMatchTime()
      requires Valid()
      ensures now - origin.now == (lasttime - start) / interval && remainder == (lasttime - start) % interval
      ensures now == origin.now + Ticks(log, 0, |log|)
    {
      DivisionIsUnique(now - origin.now, remainder, lasttime - start);
      ClockCountsTicks(origin, log, 0, |log|);
      assert log[..|log|] == log;
    }

    lemma DivisionIsUnique(q: nat, r: nat, time: nat)
      requires 0 < interval && r < interval && q * interval + r == time
      ensures q == time / interval && r == time % interval
    {
      var q', r' := time / interval, time % interval;
      assert (q - q') * interval == r' - r;
      NoMultipleBetween(q - q', interval);
    }

    static lemma NoMultipleBetween(d: int, n: int)
      requires n >= 0 && -n < d * n < n
      ensures d == 0
    {
      AtLeastOnce(d, n);
      AtLeastOnce(-d, n);
    }

    static lemma AtLeastOnce(d: int, n: nat)
      ensures d >= 1 ==> d * n >= n
    {
      if d >= 1 { assert d * n == n + (d - 1) * n && (d - 1) * n >= 0; }
    }
  }
}
