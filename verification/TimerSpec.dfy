/** The reference meaning of a timer wheel: a clock and a set of absolute
    deadlines.  A history is the list of events a wheel goes through; it is
    accepted when every event is allowed where it stands.  The theorems here
    are about every accepted history, of any length. */
module TimerSpec {

  datatype Event<T> =
    | Added(timer: T, delay: nat)   // a timer was armed
    | Deleted(timer: T)             // an armed timer was disarmed
    | TickBegan                     // the clock advanced by one
    | Fired(timer: T)               // a timer was taken off and its callback run
    | TickEnded                     // nothing is left to fire in this tick

  /** `pending` maps each armed timer to the absolute tick it is due at. */
  datatype State<T> = State(now: nat, inTick: bool, pending: map<T, nat>)

  function AtLeastOne(d: nat): nat { if d > 0 then d else 1 }

  ghost predicate Enabled<T>(s: State<T>, e: Event<T>) {
    match e
    case Added(t, d) => t !in s.pending
    case Deleted(t) => t in s.pending
    case TickBegan => !s.inTick
    case Fired(t) => s.inTick && t in s.pending && s.pending[t] == s.now
    case TickEnded => s.inTick && forall t :: t in s.pending ==> s.pending[t] > s.now
  }

  ghost function Step<T>(s: State<T>, e: Event<T>): State<T> {
    match e
    case Added(t, d) => s.(pending := s.pending[t := s.now + AtLeastOne(d)])
    case Deleted(t) => s.(pending := s.pending - {t})
    case TickBegan => s.(now := s.now + 1, inTick := true)
    case Fired(t) => s.(pending := s.pending - {t})
    case TickEnded => s.(inTick := false)
  }

  ghost function After<T>(s: State<T>, log: seq<Event<T>>): State<T> {
    if log == [] then s else Step(After(s, log[..|log| - 1]), log[|log| - 1])
  }

  ghost predicate Accepts<T>(s: State<T>, log: seq<Event<T>>) {
    log == [] ||
    (Accepts(s, log[..|log| - 1]) && Enabled(After(s, log[..|log| - 1]), log[|log| - 1]))
  }

  /** An idle clock with nothing armed: where every history starts. */
  ghost predicate Initial<T>(s: State<T>) {
    !s.inTick && s.pending == map[]
  }

  lemma AppendEvent<T>(s: State<T>, log: seq<Event<T>>, e: Event<T>)
    ensures After(s, log + [e]) == Step(After(s, log), e)
    ensures Accepts(s, log + [e]) <==> Accepts(s, log) && Enabled(After(s, log), e)
  {
    assert (log + [e])[..|log|] == log;
  }

  /** The state in which the event at index `i` is taken. */
  ghost function At<T>(s: State<T>, log: seq<Event<T>>, i: nat): State<T>
    requires i <= |log|
  {
    After(s, log[..i])
  }

  lemma {:induction false} EventAt<T>(s: State<T>, log: seq<Event<T>>, i: nat)
    requires Accepts(s, log) && i < |log|
    ensures Enabled(At(s, log, i), log[i])
    ensures At(s, log, i + 1) == Step(At(s, log, i), log[i])
  {
    assert log[..i + 1][..i] == log[..i];
    if i == |log| - 1 {
      assert log[..i + 1] == log;
    } else {
      var front := log[..|log| - 1];
      EventAt(s, front, i);
      assert front[..i] == log[..i] && front[..i + 1] == log[..i + 1];
    }
  }

  /** How often the clock advanced in `log[i..j]`. */
  ghost function Ticks<T>(log: seq<Event<T>>, i: nat, j: nat): nat
    requires i <= j <= |log|
    decreases j
  {
    if i == j then 0 else Ticks(log, i, j - 1) + if log[j - 1].TickBegan? then 1 else 0
  }

  lemma {:induction false} ClockCountsTicks<T>(s: State<T>, log: seq<Event<T>>, i: nat, j: nat)
    requires Accepts(s, log) && i <= j <= |log|
    ensures At(s, log, j).now == At(s, log, i).now + Ticks(log, i, j)
    decreases j
  {
    if i < j {
      ClockCountsTicks(s, log, i, j - 1);
      EventAt(s, log, j - 1);
    }
  }

  ghost predicate Untouched<T>(log: seq<Event<T>>, t: T, i: nat, j: nat)
    requires i <= j <= |log|
  {
    forall k :: i <= k < j ==> log[k] != Fired(t) && log[k] != Deleted(t)
  }

  lemma {:induction false} StaysPending<T>(s: State<T>, log: seq<Event<T>>, t: T, i: nat, j: nat)
    requires Accepts(s, log) && i <= j <= |log| && Untouched(log, t, i, j)
    requires t in At(s, log, i).pending
    ensures t in At(s, log, j).pending
    ensures At(s, log, j).pending[t] == At(s, log, i).pending[t]
    decreases j
  {
    if i < j {
      StaysPending(s, log, t, i, j - 1);
      EventAt(s, log, j - 1);
    }
  }

  /** No deadline is ever missed: while the clock is between ticks every armed
      timer is due in the future, and inside a tick none is overdue. */
  lemma {:induction false} NothingOverdue<T>(s: State<T>, log: seq<Event<T>>, i: nat)
    requires Initial(s) && Accepts(s, log) && i <= |log|
    ensures var x := At(s, log, i);
            forall t :: t in x.pending ==> x.pending[t] >= x.now + if x.inTick then 0 else 1
  {
    if i > 0 {
      NothingOverdue(s, log, i - 1);
      EventAt(s, log, i - 1);
    }
  }

  /** A timer armed with delay `d` cannot fire on any tick but the
      max(d,1)-th one after that. */
  lemma FiresOnlyOnTime<T>(s: State<T>, log: seq<Event<T>>, t: T, d: nat, i: nat, j: nat)
    requires Accepts(s, log) && i < j < |log|
    requires log[i] == Added(t, d) && log[j] == Fired(t) && Untouched(log, t, i, j)
    ensures Ticks(log, i, j) == if d == 0 then 1 else d
  {
    EventAt(s, log, i);
    StaysPending(s, log, t, i + 1, j);
    EventAt(s, log, j);
    ClockCountsTicks(s, log, i, j);
  }

  /** ... and it does fire on that tick, unless it was deleted before: once the
      max(d,1)-th following tick has ended, the timer has fired or was deleted. */
  lemma FiresInTime<T>(s: State<T>, log: seq<Event<T>>, t: T, d: nat, i: nat, j: nat)
    requires Accepts(s, log) && i < j < |log|
    requires log[i] == Added(t, d) && log[j] == TickEnded && Ticks(log, i, j) >= if d == 0 then 1 else d
    ensures exists k :: i < k < j && (log[k] == Fired(t) || log[k] == Deleted(t))
  {
    if Untouched(log, t, i, j) {
      EventAt(s, log, i);
      StaysPending(s, log, t, i + 1, j);
      EventAt(s, log, j);
      ClockCountsTicks(s, log, i, j);
      assert false;
    }
  }

  /** A timer that is idle stays silent until it is armed. */
  lemma {:induction false} SilentWhileIdle<T>(s: State<T>, log: seq<Event<T>>, t: T, i: nat, j: nat)
    requires Accepts(s, log) && i <= j <= |log| && t !in At(s, log, i).pending
    requires forall k, d :: i <= k < j ==> log[k] != Added(t, d)
    ensures t !in At(s, log, j).pending
    ensures forall k :: i <= k < j ==> log[k] != Fired(t) && log[k] != Deleted(t)
    decreases j
  {
    if i < j {
      SilentWhileIdle(s, log, t, i, j - 1);
      EventAt(s, log, j - 1);
      if log[j - 1].Added? { assert log[j - 1] == Added(log[j - 1].timer, log[j - 1].delay); }
    }
  }

  /** A deleted timer stays silent until it is armed again; the same goes for
      one that has fired, so nothing fires twice. */
  lemma SilentUntilRearmed<T>(s: State<T>, log: seq<Event<T>>, t: T, i: nat, j: nat)
    requires Accepts(s, log) && i < j <= |log|
    requires log[i] == Deleted(t) || log[i] == Fired(t)
    requires forall k, d :: i < k < j ==> log[k] != Added(t, d)
    ensures t !in At(s, log, j).pending
    ensures forall k :: i < k < j ==> log[k] != Fired(t) && log[k] != Deleted(t)
  {
    EventAt(s, log, i);
    SilentWhileIdle(s, log, t, i + 1, j);
  }

  // ---- periodic timers -----------------------------------------------------

  ghost predicate IsAdded<T>(e: Event<T>, t: T) { e.Added? && e.timer == t }

  /** From its first arming at `i` on, timer `t` is re-armed with delay `loop`
      immediately after each firing, and at no other point; with `loop == 0` it
      is never re-armed. */
  ghost predicate Periodic<T>(log: seq<Event<T>>, t: T, loop: nat, i: nat) {
    && i < |log| && IsAdded(log[i], t)
    && (forall j :: i < j < |log| && IsAdded(log[j], t) ==>
          loop > 0 && log[j] == Added(t, loop) && log[j - 1] == Fired(t))
    && (forall j :: i <= j < |log| && log[j] == Fired(t) && loop > 0 ==> j + 1 < |log| && log[j + 1] == Added(t, loop))
  }

  ghost predicate NotDeleted<T>(log: seq<Event<T>>, t: T, i: nat, j: nat)
    requires i <= j <= |log|
  {
    forall k :: i <= k < j ==> log[k] != Deleted(t)
  }

  ghost function Firings<T>(log: seq<Event<T>>, t: T, i: nat, j: nat): nat
    requires i <= j <= |log|
    decreases j
  {
    if i == j then 0 else Firings(log, t, i, j - 1) + if log[j - 1] == Fired(t) then 1 else 0
  }

  /** The offset of firing number `k` from the first arming. */
  ghost function Due(first: nat, loop: nat, k: nat): nat {
    if k == 0 then first else Due(first, loop, k - 1) + loop
  }

  lemma {:induction false} DueIsLinear(first: nat, loop: nat, k: nat)
    ensures Due(first, loop, k) == first + k * loop
  {
    if k > 0 {
      DueIsLinear(first, loop, k - 1);
      assert k * loop == (k - 1) * loop + loop;
    }
  }

  lemma {:induction false} PeriodicProgress<T>(s: State<T>, log: seq<Event<T>>, t: T, loop: nat, i: nat, j: nat)
    requires Accepts(s, log) && Periodic(log, t, loop, i) && loop > 0
    requires i < j <= |log| && NotDeleted(log, t, i, j)
    ensures var k, first, x := Firings(log, t, i, j), AtLeastOne(log[i].delay), At(s, log, j);
            if log[j - 1] == Fired(t) then
              k > 0 && Ticks(log, i, j) == Due(first, loop, k - 1)
            else
              && t in x.pending && x.pending[t] == At(s, log, i).now + Due(first, loop, k)
              && (k > 0 ==> Ticks(log, i, j) >= Due(first, loop, k - 1))
    decreases j
  {
    hide Accepts, After;
    EventAt(s, log, j - 1);
    ClockCountsTicks(s, log, i, j);
    if j - 1 == i {
      assert Firings(log, t, i, i) == 0;
    } else {
      PeriodicProgress(s, log, t, loop, i, j - 1);
      if log[j - 2] == Fired(t) {
        assert log[j - 1] == Added(t, loop);
      } else {
        assert !IsAdded(log[j - 1], t);
      }
    }
  }

  /** The k-th firing of a periodic timer (counting from 0) happens exactly
      max(d,1) + k * loop ticks after it was first armed with delay d. */
  lemma PeriodicSchedule<T>(s: State<T>, log: seq<Event<T>>, t: T, loop: nat, i: nat, j: nat)
    requires Accepts(s, log) && Periodic(log, t, loop, i) && loop > 0
    requires i < j < |log| && NotDeleted(log, t, i, j) && log[j] == Fired(t)
    ensures var first := if log[i].delay == 0 then 1 else log[i].delay;
            Ticks(log, i, j) == first + Firings(log, t, i, j) * loop
  {
    PeriodicProgress(s, log, t, loop, i, j);
    EventAt(s, log, j);
    ClockCountsTicks(s, log, i, j);
    DueIsLinear(AtLeastOne(log[i].delay), loop, Firings(log, t, i, j));
  }

  /** Whenever a tick has ended, the timer has fired as often as its schedule
      says: the firing just made is not early, the next one is not overdue. */
  lemma PeriodicNeverMissesOne<T>(s: State<T>, log: seq<Event<T>>, t: T, loop: nat, i: nat, j: nat)
    requires Accepts(s, log) && Periodic(log, t, loop, i) && loop > 0
    requires i < j < |log| && NotDeleted(log, t, i, j) && log[j] == TickEnded
    ensures var k, first := Firings(log, t, i, j), if log[i].delay == 0 then 1 else log[i].delay;
            && Ticks(log, i, j) < first + k * loop
            && (k > 0 ==> Ticks(log, i, j) >= first + (k - 1) * loop)
  {
    PeriodicProgress(s, log, t, loop, i, j);
    EventAt(s, log, j);
    ClockCountsTicks(s, log, i, j);
    var k := Firings(log, t, i, j);
    DueIsLinear(AtLeastOne(log[i].delay), loop, k);
    if k > 0 { DueIsLinear(AtLeastOne(log[i].delay), loop, k - 1); }
  }

  /** Deleting a timer of the service, in or out of its callback, is final. */
  lemma {:induction false} DeletionIsFinal<T>(s: State<T>, log: seq<Event<T>>, t: T, loop: nat, i: nat, j: nat, m: nat)
    requires Accepts(s, log) && Periodic(log, t, loop, i)
    requires i < j < m <= |log| && log[j] == Deleted(t)
    ensures t !in At(s, log, m).pending
    ensures forall k :: j < k < m ==> log[k] != Fired(t)
    decreases m
  {
    EventAt(s, log, m - 1);
    if j + 1 < m {
      DeletionIsFinal(s, log, t, loop, i, j, m - 1);
      assert log[m - 2] != Fired(t);
      assert !IsAdded(log[m - 1], t);
    }
  }
}
