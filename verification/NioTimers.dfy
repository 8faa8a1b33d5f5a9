/** The timer part of nio_event (cpp/src/nio_event.cpp) and event_timer. */
module NioTimers {
  import opened Sequences
  import opened Timers

  class Timer {
    /** The key under which the timer is, or was, in the multimap. */
    var stamp: int

    constructor ()
      ensures stamp == 0
    {
      stamp := 0;
    }
  }

  ghost function TimersOf(q: Queue<Timer>): seq<Timer> {
    seq(|q|, i requires 0 <= i < |q| => q[i].timer)
  }

  class TimerEngine {
    var timers: Queue<Timer>
    var counter: nat
    /** The clock of the event engine, read once per wait. */
    var now: int

    ghost predicate Valid()
      reads this
    {
      Sorted(timers) && counter < WRAP
    }

    ghost function Model(known: set<Timer>): State<Timer>
      reads this, known`stamp
    {
      State(timers, map t | t in known :: t.stamp, counter, now)
    }

    constructor (now: int)
      ensures Valid() && timers == [] && counter == 0 && this.now == now
    {
      timers, counter, this.now := [], 0, now;
    }

    /** add_timer. */
    method AddTimer(tm: Timer, ms: int, ghost known: set<Timer>)
      requires Valid() && tm in known
      modifies `timers, `counter, tm`stamp
      ensures Valid() && Model(known) == ArmStep(old(Model(known)), tm, ms)
    {
      var when := now + ms * MS + counter % MS;
      counter := (counter + 1) % WRAP;
      tm.stamp := when;
      InsertSorted(timers, Entry(when, tm));
      timers := Insert(timers, Entry(when, tm));
    }

    /** del_timer: looks among the entries of the key that the timer remembers. */
    method DelTimer(tm: Timer, ghost known: set<Timer>)
      requires Valid() && tm in known
      modifies `timers
      ensures Valid() && Model(known) == DisarmStep(old(Model(known)), tm)
    {
      ghost var e := Entry(tm.stamp, tm);
      var first, last := LowerBound(timers, tm.stamp), UpperBound(timers, tm.stamp);
      WithoutSorted(timers, e);
      var i := first;
      while i < last
        invariant first <= i && timers == old(timers)
        invariant forall k | 0 <= k < i && k < |timers| :: timers[k] != e
        decreases last - i
      {
        if timers[i].timer == tm {
          assert timers[i] == e;
          WithoutAt(timers, i);
          timers := timers[..i] + timers[i + 1..];
          return;
        }
        i := i + 1;
      }
      WithoutNone(timers, e);
    }

    /** reset_timer. */
    method ResetTimer(tm: Timer, ms: int, ghost known: set<Timer>)
      requires Valid() && tm in known
      modifies `timers, `counter, tm`stamp
      ensures Valid() && Model(known) == Step(old(Model(known)), Reset(tm, ms)).0
    {
      DelTimer(tm, known);
      AddTimer(tm, ms, known);
    }

    /** trigger_timers: takes the due timers out of the multimap; they are called in this order. */
    method TriggerTimers() returns (fired: seq<Timer>)
      requires Valid()
      modifies `timers
      ensures Valid()
      ensures var n := UpperBound(old(timers), now);
              timers == old(timers)[n..] && fired == TimersOf(old(timers)[..n])
    {
      ghost var n := UpperBound(timers, now);
      ghost var k := 0;
      fired := [];
      while timers != []
        invariant k <= n && timers == old(timers)[k..] && fired == TimersOf(old(timers)[..k])
        decreases |timers|
      {
        if timers[0].when > now {
          break;
        }
        fired := fired + [timers[0].timer];
        timers := timers[1..];
        k := k + 1;
      }
    }

    /** One event of a run on the engine. */
    method Perform(e: Event<Timer>, ghost known: set<Timer>) returns (fired: seq<Timer>)
      requires Valid() && Names(e, known)
      modifies this, known
      ensures Valid()
      ensures var (s, due) := Step(old(Model(known)), e); Model(known) == s && fired == TimersOf(due)
    {
      fired := [];
      match e {
        case Arm(tm, ms) => AddTimer(tm, ms, known);
        case Disarm(tm) => DelTimer(tm, known);
        case Reset(tm, ms) => ResetTimer(tm, ms, known);
        case ReadClock(stamp) => now := stamp;
        case Fire =>
          if timers != [] {
            fired := TriggerTimers();
          }
      }
    }

    /** The calls that callbacks make. */
    method PerformAll(events: seq<Event<Timer>>, ghost known: set<Timer>)
      requires Valid() && forall e <- events :: Names(e, known)
      modifies this, known
      ensures Valid() && Model(known) == Run(old(Model(known)), events).0
    {
      hide Step;
      var i := 0;
      assert events[0..] == events;
      while i < |events|
        invariant 0 <= i <= |events| && Valid()
        invariant Run(old(Model(known)), events).0 == Run(Model(known), events[i..]).0
      {
        assert events[i..][1..] == events[i + 1..];
        var _ := Perform(events[i], known);
        i := i + 1;
      }
    }

    /** nio_event::wait with nio_event_wait2.  Sockets that are closed before the sleep, descriptors that are ready
        after it, and timers at the end call the engine: `closing`, `callbacks` and `after`.  `stamp` is the clock that
        the back end reads behind its sleep. */
    method Wait(ms: int, closing: seq<Event<Timer>>, stamp: int, callbacks: seq<Event<Timer>>,
                after: seq<Event<Timer>>, ghost known: set<Timer>)
      returns (timeout: int, fired: seq<Timer>)
      requires Valid() && forall e <- closing + callbacks + after :: Names(e, known)
      modifies this, known
      ensures Valid() && timeout == Limited(Sleep(old(timers), old(now), ms))
      ensures var (s, log) := Run(old(Model(known)), WaitEvents(closing, stamp, callbacks));
              Model(known) == Run(s, after).0 && log != [] && fired == TimersOf(log[|log| - 1])
    {
      hide ToInt, Truncated, Run, Step;
      var sleep := ms;
      if timers != [] {
        var delay := Truncated(ToInt(timers[0].when - now));
        if delay > 0 && delay < ms {
          sleep := delay;
        }
      }
      timeout := sleep;
      if timeout > 1000 || timeout < 0 {
        timeout := 100;
      }
      ghost var s0 := Model(known);
      PerformAll(closing, known);
      var _ := Perform(ReadClock(stamp), known);
      PerformAll(callbacks, known);
      fired := Perform(Fire, known);
      WaitRun(s0, closing, stamp, callbacks);
      PerformAll(after, known);
    }
  }

  lemma WaitRun(s: State<Timer>, closing: seq<Event<Timer>>, stamp: int, callbacks: seq<Event<Timer>>)
    ensures var s1 := Step(Run(s, closing).0, ReadClock(stamp)).0;
            var (s2, due) := Step(Run(s1, callbacks).0, Fire);
            var (t, log) := Run(s, WaitEvents(closing, stamp, callbacks));
            t == s2 && log != [] && log[|log| - 1] == due
  {
    hide Run, Step;
    var s0 := Run(s, closing).0;
    var s1 := Step(s0, ReadClock(stamp)).0;
    RunAppend(s, closing, [ReadClock(stamp)]);
    RunOne(s0, ReadClock(stamp));
    RunAppend(s, closing + [ReadClock(stamp)], callbacks);
    RunAppend(s, closing + [ReadClock(stamp)] + callbacks, [Fire]);
    RunOne(Run(s1, callbacks).0, Fire);
  }

  ghost function WaitEvents(closing: seq<Event<Timer>>, stamp: int, callbacks: seq<Event<Timer>>): seq<Event<Timer>>
  {
    closing + [ReadClock(stamp)] + callbacks + [Fire]
  }

  /** When no descriptor is ready, the timers that fire in a wait are those whose deadlines the clock behind the sleep
      has reached, in their order, whatever the sockets closed before it did to the timers. */
  lemma WaitFires(s: State<Timer>, closing: seq<Event<Timer>>, stamp: int)
    requires Good(s) && AllAllowed(s, closing)
    ensures var log := Run(s, WaitEvents(closing, stamp, [])).1;
            var deadline := RunClock(Deadlines(s), closing).0.deadline;
            log != []
            && InTurn(log[|log| - 1], map t | t in deadline && deadline[t] <= stamp :: deadline[t])
  {
    hide Run, RunClock, Good, Deadlines, InTurn, AllAllowed;
    TimersKeepDeadlines(s, closing);
    WaitRun(s, closing, stamp, []);
    var s0 := Run(s, closing).0;
    RunNothing(s0.(now := stamp));
    AtClock(s0, stamp);
    FireRefines(s0.(now := stamp));
  }

  lemma RunNothing(s: State<Timer>)
    ensures Run(s, []).0 == s
  {
  }

  lemma AtClock(s: State<Timer>, stamp: int)
    requires Good(s)
    ensures Good(s.(now := stamp)) && Deadlines(s.(now := stamp)) == Deadlines(s).(now := stamp)
  {
  }

  /** A timer that the callback of a descriptor arms counts from the clock behind the sleep: it does not fire in the
      same wait, and not before `ms` milliseconds from there. */
  lemma WaitArms(s: State<Timer>, t: Timer, ms: int, stamp: int)
    requires Good(s) && t !in Armed(s.queue) && ms > 0
    ensures var (s1, log) := Run(s, WaitEvents([], stamp, [Arm(t, ms)]));
            && log != [] && t !in Armed(log[|log| - 1])
            && Good(s1) && t in Deadlines(s1).deadline
            && stamp + ms * MS <= Deadlines(s1).deadline[t] < stamp + (ms + 1) * MS
  {
    hide Run, Good, Deadlines, Armed, Step, Tock;
    WaitRun(s, [], stamp, [Arm(t, ms)]);
    RunNothing(s);
    AtClock(s, stamp);
    ReadStep(s, stamp);
    var s0 := s.(now := stamp);
    RunOne(s0, Arm(t, ms));
    ArmedStep(s0, t, ms);
  }

  lemma ReadStep(s: State<Timer>, stamp: int)
    ensures Step(s, ReadClock(stamp)).0 == s.(now := stamp)
  {
  }

  lemma ArmedStep(s: State<Timer>, t: Timer, ms: int)
    requires Good(s) && t !in Armed(s.queue) && ms > 0
    ensures var (s1, fired) := Step(Step(s, Arm(t, ms)).0, Fire);
            && t !in Armed(fired) && Good(s1) && t in Deadlines(s1).deadline
            && s.now + ms * MS <= Deadlines(s1).deadline[t] < s.now + (ms + 1) * MS
  {
    hide Good, Deadlines, Sorted, Single, Keyed, Expiry;
    ArmRefines(s, t, ms);
    FireRefines(ArmStep(s, t, ms));
    ExpiryBounds(s.now, ms, s.counter);
    SameClock(s);
  }

  lemma SameClock(s: State<Timer>)
    requires Good(s)
    ensures Deadlines(s).now == s.now && Deadlines(s).counter == s.counter
  {
  }

  lemma ExpiryBounds(now: int, ms: int, counter: nat)
    ensures now + ms * MS <= Expiry(now, ms, counter) < now + (ms + 1) * MS
  {
  }

  predicate Names(e: Event<Timer>, known: set<Timer>) {
    e.ReadClock? || e.Fire? || e.timer in known
  }
}
