/** The timers of nio_event: a multimap from expiry stamps to timers, as a sequence in key order. */
module Timers {
  import opened Sequences

  /** Nanoseconds in a millisecond. */
  const MS: int := 1_000_000
  const WRAP: nat := 0x1_0000_0000

  datatype Entry<T> = Entry(when: int, timer: T)

  type Queue<T> = seq<Entry<T>>

  ghost predicate Sorted<T>(q: Queue<T>) {
    forall i, j | 0 <= i < j < |q| :: q[i].when <= q[j].when
  }

  // ----- the operations of the multimap

  /** upper_bound: the number of entries in front of the first with a larger key. */
  function UpperBound<T>(q: Queue<T>, when: int): (n: nat)
    ensures n <= |q| && forall i | 0 <= i < n :: q[i].when <= when
    ensures n < |q| ==> q[n].when > when
  {
    if q == [] || q[0].when > when then 0 else 1 + UpperBound(q[1..], when)
  }

  /** lower_bound: the number of entries in front of the first whose key is not smaller. */
  function LowerBound<T>(q: Queue<T>, when: int): (n: nat)
    ensures n <= |q| && forall i | 0 <= i < n :: q[i].when < when
    ensures n < |q| ==> q[n].when >= when
  {
    if q == [] || q[0].when >= when then 0 else 1 + LowerBound(q[1..], when)
  }

  /** insert: behind the entries of the same key. */
  function Insert<T>(q: Queue<T>, e: Entry<T>): Queue<T> {
    var n := UpperBound(q, e.when);
    q[..n] + [e] + q[n..]
  }

  lemma InsertShift<T>(q: Queue<T>, e: Entry<T>) returns (k: nat)
    ensures var r := Insert(q, e);
            && k == UpperBound(q, e.when) <= |q| && |r| == |q| + 1 && r[k] == e
            && forall i {:trigger r[i]} | 0 <= i < |r| && i != k :: r[i] == if i < k then q[i] else q[i - 1]
    ensures forall x <- Insert(q, e) :: x == e || x in q
    ensures forall x <- q :: x in Insert(q, e)
  {
    k := UpperBound(q, e.when);
    var r := Insert(q, e);
    forall x <- q ensures x in r {
      var i :| 0 <= i < |q| && q[i] == x;
      assert r[if i < k then i else i + 1] == x;
    }
  }

  lemma InsertSorted<T>(q: Queue<T>, e: Entry<T>)
    requires Sorted(q)
    ensures Sorted(Insert(q, e))
  {
    var k := InsertShift(q, e);
    hide Insert;
    assert forall i | k <= i < |q| :: q[k].when <= q[i].when;
  }

  lemma WithoutSorted<T>(q: Queue<T>, e: Entry<T>)
    requires Sorted(q)
    ensures Sorted(Without(q, e))
  {
    var k := WithoutShift(q, e);
  }

  /** The number of entries of a timer. */
  ghost function Copies<T>(q: Queue<T>, t: T): nat {
    if q == [] then 0 else (if q[0].timer == t then 1 else 0) + Copies(q[1..], t)
  }

  lemma {:induction false} CopiesNone<T>(q: Queue<T>, t: T)
    ensures Copies(q, t) == 0 <==> forall e <- q :: e.timer != t
  {
    if q != [] {
      CopiesNone(q[1..], t);
    }
  }

  lemma {:induction false} CopiesWithout<T>(q: Queue<T>, e: Entry<T>)
    ensures Copies(Without(q, e), e.timer) == Copies(q, e.timer) - if e in q then 1 else 0
  {
    if q != [] && q[0] != e {
      CopiesWithout(q[1..], e);
    }
  }

  /** del_timer disarms a timer exactly when the multimap holds it at most once and under the key that the timer
      remembers. */
  lemma DisarmedIff<T>(q: Queue<T>, t: T, stamp: int)
    ensures (forall e <- Without(q, Entry(stamp, t)) :: e.timer != t)
            <==> Copies(q, t) == 0 || (Copies(q, t) == 1 && Entry(stamp, t) in q)
  {
    var e := Entry(stamp, t);
    CopiesWithout(q, e);
    CopiesNone(q, t);
    CopiesNone(Without(q, e), t);
  }

  // ----- runs

  /** counter is unsigned int, and stamp holds what each timer remembers. */
  datatype State<T> = State(queue: Queue<T>, stamp: map<T, int>, counter: nat, now: int)

  /** The calls of a program, and the two parts of a wait: the back end reads the clock, and at the end the due timers
      fire.  Callbacks for descriptors run in between, those of timers afterwards; what they call are events, too. */
  datatype Event<T> =
    | Arm(timer: T, ms: int)
    | Disarm(timer: T)
    | Reset(timer: T, ms: int)
    | ReadClock(now: int)
    | Fire

  function Expiry(now: int, ms: int, counter: nat): int {
    now + ms * MS + counter % MS
  }

  function Stamp<T>(s: State<T>, t: T): int {
    if t in s.stamp then s.stamp[t] else 0
  }

  ghost function ArmStep<T>(s: State<T>, t: T, ms: int): State<T> {
    var when := Expiry(s.now, ms, s.counter);
    State(Insert(s.queue, Entry(when, t)), s.stamp[t := when], (s.counter + 1) % WRAP, s.now)
  }

  ghost function DisarmStep<T>(s: State<T>, t: T): State<T> {
    s.(queue := Without(s.queue, Entry(Stamp(s, t), t)))
  }

  ghost function Step<T>(s: State<T>, e: Event<T>): (State<T>, Queue<T>) {
    match e
    case Arm(t, ms) => (ArmStep(s, t, ms), [])
    case Disarm(t) => (DisarmStep(s, t), [])
    case Reset(t, ms) => (ArmStep(DisarmStep(s, t), t, ms), [])
    case ReadClock(now) => (s.(now := now), [])
    case Fire =>
      var n := UpperBound(s.queue, s.now);
      (s.(queue := s.queue[n..]), s.queue[..n])
  }

  ghost function Armed<T>(q: Queue<T>): set<T> {
    set e | e in q :: e.timer
  }

  ghost predicate Keyed<T>(q: Queue<T>, stamp: map<T, int>) {
    forall e <- q :: e.timer in stamp && stamp[e.timer] == e.when
  }

  ghost predicate Single<T>(q: Queue<T>) {
    forall i, j | 0 <= i < j < |q| :: q[i].timer != q[j].timer
  }

  ghost predicate Good<T>(s: State<T>) {
    Sorted(s.queue) && Keyed(s.queue, s.stamp) && Single(s.queue)
  }

  // ----- what timers are for: every armed timer has one deadline, and fires when the clock has reached it

  datatype Clock<T> = Clock(deadline: map<T, int>, counter: nat, now: int)

  function ArmClock<T>(c: Clock<T>, t: T, ms: int): Clock<T> {
    Clock(c.deadline[t := Expiry(c.now, ms, c.counter)], (c.counter + 1) % WRAP, c.now)
  }

  function DisarmClock<T>(c: Clock<T>, t: T): Clock<T> {
    c.(deadline := c.deadline - {t})
  }

  ghost function DueBy<T>(deadline: map<T, int>, now: int): map<T, int> {
    map t | t in deadline && deadline[t] <= now :: deadline[t]
  }

  /** The next state, and the deadlines of the timers that fire. */
  ghost function Tock<T>(c: Clock<T>, e: Event<T>): (Clock<T>, map<T, int>) {
    match e
    case Arm(t, ms) => (ArmClock(c, t, ms), map[])
    case Disarm(t) => (DisarmClock(c, t), map[])
    case Reset(t, ms) => (ArmClock(DisarmClock(c, t), t, ms), map[])
    case ReadClock(now) => (c.(now := now), map[])
    case Fire =>
      var due := DueBy(c.deadline, c.now);
      (c.(deadline := c.deadline - due.Keys), due)
  }

  ghost function Within<T>(stamp: map<T, int>, timers: set<T>): map<T, int> {
    map t | t in stamp && t in timers :: stamp[t]
  }

  ghost function Deadlines<T>(s: State<T>): Clock<T>
    requires Keyed(s.queue, s.stamp)
  {
    Clock(Within(s.stamp, Armed(s.queue)), s.counter, s.now)
  }

  /** A timer is armed only while it is not armed. */
  ghost predicate Allowed<T>(s: State<T>, e: Event<T>) {
    e.Arm? ==> e.timer !in Armed(s.queue)
  }

  /** Each timer once, in the order of the deadlines. */
  ghost predicate InTurn<T>(fired: Queue<T>, due: map<T, int>) {
    Single(fired) && Sorted(fired) && Armed(fired) == due.Keys && Keyed(fired, due)
  }

  lemma InsertSingle<T>(q: Queue<T>, e: Entry<T>)
    requires Single(q) && e.timer !in Armed(q)
    ensures Single(Insert(q, e)) && Armed(Insert(q, e)) == Armed(q) + {e.timer}
  {
    var k := InsertShift(q, e);
    hide Insert;
    forall t <- Armed(q) ensures t in Armed(Insert(q, e)) {
      var x :| x in q && x.timer == t;
    }
  }

  lemma ArmRefines<T>(s: State<T>, t: T, ms: int)
    requires Good(s) && t !in Armed(s.queue)
    ensures Good(ArmStep(s, t, ms)) && Deadlines(ArmStep(s, t, ms)) == ArmClock(Deadlines(s), t, ms)
  {
    hide Expiry, Sorted, Single, Insert;
    var e := Entry(Expiry(s.now, ms, s.counter), t);
    InsertSorted(s.queue, e);
    InsertSingle(s.queue, e);
    var k := InsertShift(s.queue, e);
    assert forall x <- s.queue :: x.timer in Armed(s.queue);
  }

  /** Taking an entry out of a queue that holds every timer once. */
  lemma WithoutLess<T>(q: Queue<T>, e: Entry<T>)
    requires Sorted(q) && Single(q)
    ensures var r := Without(q, e); Sorted(r) && Single(r) && forall x :: x in r <==> x in q && x != e
  {
    var k := WithoutShift(q, e);
    hide Without;
    var r := Without(q, e);
    forall x <- q | x != e ensures x in r {
      var i :| 0 <= i < |q| && q[i] == x;
      assert r[if i < k then i else i - 1] == x;
    }
    forall x <- r ensures x in q && x != e {
      var i :| 0 <= i < |r| && r[i] == x;
      assert x == q[if i < k then i else i + 1];
    }
  }

  lemma DisarmRefines<T>(s: State<T>, t: T)
    requires Good(s)
    ensures Good(DisarmStep(s, t)) && Deadlines(DisarmStep(s, t)) == DisarmClock(Deadlines(s), t)
    ensures t !in Armed(DisarmStep(s, t).queue)
  {
    var e := Entry(Stamp(s, t), t);
    WithoutLess(s.queue, e);
    hide Sorted, Single, Without;
    var q, r := s.queue, DisarmStep(s, t).queue;
    assert forall x <- q :: x.timer == t ==> x == e;
    assert Armed(r) == Armed(q) - {t} by {
      forall u <- Armed(q) - {t} ensures u in Armed(r) {
        var x :| x in q && x.timer == u;
        assert x in r;
      }
    }
  }

  lemma CutSingle<T>(q: Queue<T>, n: nat)
    requires Sorted(q) && Single(q) && n <= |q|
    ensures Sorted(q[..n]) && Single(q[..n]) && Sorted(q[n..]) && Single(q[n..])
    ensures Armed(q[..n]) !! Armed(q[n..]) && Armed(q[..n]) + Armed(q[n..]) == Armed(q)
  {
    assert q == q[..n] + q[n..];
    forall t <- Armed(q) ensures t in Armed(q[..n]) + Armed(q[n..]) {
      var e :| e in q && e.timer == t;
      assert e in q[..n] || e in q[n..];
    }
  }

  /** What is due is in front of what is not. */
  lemma DueFirst<T>(q: Queue<T>, stamp: map<T, int>, now: int)
    requires Sorted(q) && Single(q) && Keyed(q, stamp)
    ensures var n := UpperBound(q, now);
            && Keyed(q[..n], stamp) && Keyed(q[n..], stamp)
            && forall t <- Armed(q) :: stamp[t] <= now <==> t in Armed(q[..n])
  {
    var n := UpperBound(q, now);
    CutSingle(q, n);
    assert forall e <- q[..n] :: e in q && e.when <= now;
    assert forall e <- q[n..] :: e in q && e.when > now;
  }

  lemma DueMap<T>(stamp: map<T, int>, front: set<T>, rest: set<T>, now: int)
    requires front !! rest && front + rest <= stamp.Keys
    requires forall t <- front + rest :: stamp[t] <= now <==> t in front
    ensures Within(stamp, front) == DueBy(Within(stamp, front + rest), now) && Within(stamp, front).Keys == front
    ensures Within(stamp, rest) == Within(stamp, front + rest) - front
  {
  }

  lemma KeyedDue<T>(q: Queue<T>, stamp: map<T, int>)
    requires Keyed(q, stamp)
    ensures Armed(q) <= stamp.Keys && Keyed(q, Within(stamp, Armed(q)))
  {
    assert forall e <- q :: e.timer in Armed(q);
  }

  lemma FireRefines<T>(s: State<T>)
    requires Good(s)
    ensures var (s1, fired) := Step(s, Fire); var (c1, due) := Tock(Deadlines(s), Fire);
            Good(s1) && Deadlines(s1) == c1 && InTurn(fired, due)
  {
    var q, n := s.queue, UpperBound(s.queue, s.now);
    var front, rest := Armed(q[..n]), Armed(q[n..]);
    DueFirst(q, s.stamp, s.now);
    CutSingle(q, n);
    KeyedDue(q[..n], s.stamp);
    KeyedDue(q[n..], s.stamp);
    DueMap(s.stamp, front, rest, s.now);
    hide Sorted, Single, UpperBound, Keyed, Armed, Within, DueBy;
  }

  ghost function Run<T>(s: State<T>, events: seq<Event<T>>): (State<T>, seq<Queue<T>>)
    decreases |events|
  {
    if events == [] then (s, [])
    else
      var (s1, fired) := Step(s, events[0]);
      var (s2, more) := Run(s1, events[1..]);
      (s2, [fired] + more)
  }

  ghost function RunClock<T>(c: Clock<T>, events: seq<Event<T>>): (Clock<T>, seq<map<T, int>>)
    decreases |events|
  {
    if events == [] then (c, [])
    else
      var (c1, due) := Tock(c, events[0]);
      var (c2, more) := RunClock(c1, events[1..]);
      (c2, [due] + more)
  }

  lemma {:induction false} RunAppend<T>(s: State<T>, a: seq<Event<T>>, b: seq<Event<T>>)
    ensures |Run(s, a).1| == |a|
    ensures Run(s, a + b).0 == Run(Run(s, a).0, b).0 && Run(s, a + b).1 == Run(s, a).1 + Run(Run(s, a).0, b).1
    decreases |a|
  {
    hide Step;
    if a == [] {
      assert a + b == b;
    } else {
      assert (a + b)[0] == a[0] && (a + b)[1..] == a[1..] + b;
      RunAppend(Step(s, a[0]).0, a[1..], b);
    }
  }

  lemma RunOne<T>(s: State<T>, e: Event<T>)
    ensures Run(s, [e]).0 == Step(s, e).0 && Run(s, [e]).1 == [Step(s, e).1]
  {
    hide Step;
    assert Run(Step(s, e).0, [e][1..]) == (Step(s, e).0, []);
  }

  ghost predicate AllAllowed<T>(s: State<T>, events: seq<Event<T>>)
    decreases |events|
  {
    events != [] ==> Allowed(s, events[0]) && AllAllowed(Step(s, events[0]).0, events[1..])
  }

  lemma StepRefines<T>(s: State<T>, e: Event<T>)
    requires Good(s) && Allowed(s, e)
    ensures var (s1, fired) := Step(s, e); var (c1, due) := Tock(Deadlines(s), e);
            Good(s1) && Deadlines(s1) == c1 && InTurn(fired, due)
  {
    match e
    case Arm(t, ms) => ArmRefines(s, t, ms);
    case Disarm(t) => DisarmRefines(s, t);
    case Reset(t, ms) =>
      DisarmRefines(s, t);
      ArmRefines(DisarmStep(s, t), t, ms);
    case ReadClock(_) =>
    case Fire => FireRefines(s);
  }

  /** Over any run, whenever timers fire, these are exactly the timers whose deadlines the clock has reached, once each
      and in the order of the deadlines, and the armed timers are those that were armed and neither fired nor disarmed
      since. */
  lemma {:induction false} TimersKeepDeadlines<T>(s: State<T>, events: seq<Event<T>>)
    requires Good(s) && AllAllowed(s, events)
    ensures var (s1, log) := Run(s, events); var (c1, dues) := RunClock(Deadlines(s), events);
            && Good(s1) && Deadlines(s1) == c1 && |log| == |dues| == |events|
            && forall i | 0 <= i < |log| :: InTurn(log[i], dues[i])
    decreases |events|
  {
    if events != [] {
      StepRefines(s, events[0]);
      hide Step, Tock, InTurn, Good, Deadlines, Allowed;
      TimersKeepDeadlines(Step(s, events[0]).0, events[1..]);
    }
  }

  /** Stamps have millisecond precision; a timer fires with the first of them that is at least `ms` after its start,
      or with the one after that when the counter has added something. */
  lemma OnTime(now: int, ms: int, counter: nat, tick: int)
    requires now % MS == 0 && tick % MS == 0
    ensures now + ms * 1_000_000 <= Expiry(now, ms, counter) < now + (ms + 1) * 1_000_000
    ensures Expiry(now, ms, counter) <= tick <==> now + (if counter % MS == 0 then ms else ms + 1) * MS <= tick
  {
  }

  /** Arming an armed timer leaves an entry behind that its timer no longer remembers. */
  lemma ArmTwice<T>(s: State<T>, t: T, ms: int)
    requires Good(s)
    ensures var s1 := ArmStep(s, t, ms);
            Keyed(s1.queue, s1.stamp) <==> t !in Armed(s.queue) || s.stamp[t] == Expiry(s.now, ms, s.counter)
  {
    hide Expiry;
    var e := Entry(Expiry(s.now, ms, s.counter), t);
    var k := InsertShift(s.queue, e);
    hide Insert;
    forall x <- s.queue ensures x in Insert(s.queue, e) && x.timer in Armed(s.queue) {}
  }

  /** Such a timer stays in the queue, and will fire, although it is disarmed. */
  lemma StaleEntry<T>(t: T, now: int, a: int, b: int)
    requires a < b
    ensures var s := ArmStep(ArmStep(State([], map[], 0, now), t, a), t, b);
            DisarmStep(s, t).queue == [Entry(now + a * MS, t)]
  {
    var x, y := now + a * MS, now + b * MS + 1;
    var e, f := Entry(x, t), Entry(y, t);
    var s1 := ArmStep(State([], map[], 0, now), t, a);
    assert s1 == State([e], map[t := x], 1, now);
    assert UpperBound([e][1..], y) == 0 && Insert([e], f) == [e, f];
    assert map[t := x][t := y] == map[t := y];
    assert ArmStep(s1, t, b) == State([e, f], map[t := y], 2, now);
    assert Without([f], f) == [] && Without([e, f], f) == [e];
  }

  // ----- how long to sleep

  /** A 64-bit number cut to int. */
  function ToInt(n: int): int {
    (n + 0x8000_0000) % 0x1_0000_0000 - 0x8000_0000
  }

  /** Division as in C++, towards zero. */
  function Truncated(n: int): int {
    if n >= 0 then n / MS else -(-n / MS)
  }

  /** The milliseconds that nio_event::wait asks for; the time to the first deadline is cut to int before it is
      divided. */
  function Sleep<T>(q: Queue<T>, now: int, ms: int): int {
    if q == [] then ms
    else
      var delay := Truncated(ToInt(q[0].when - now));
      if 0 < delay < ms then delay else ms
  }

  /** nio_event_wait2: the milliseconds that the back end waits; an engine sets no limit of its own. */
  function Limited(timeout: int): (t: int)
    ensures 0 <= t <= 1000
  {
    if timeout > 1000 || timeout < 0 then 100 else timeout
  }

  /** From the last reading of the clock, the back end waits until the first deadline at most, if and only if the
      deadline is a millisecond or more away (100 of them in a wait without limit), or the wait is for nothing. */
  lemma SleepsInTimeIff<T>(q: Queue<T>, now: int, ms: int)
    requires q != []
    ensures var d := q[0].when - now;
            Limited(Sleep(q, now, ms)) * MS <= d
            <==> if ms < 0 then 100 * MS <= d else MS <= d || (ms == 0 && 0 <= d)
  {
    var d := q[0].when - now;
    if -0x8000_0000 <= d < 0x8000_0000 {
      ToIntSame(d);
    }
  }

  /** The cut to int is the remainder that lies in 32 bits. */
  lemma ToIntIs(n: int, k: int)
    requires -0x8000_0000 <= n - k * 0x1_0000_0000 < 0x8000_0000
    ensures ToInt(n) == n - k * 0x1_0000_0000
  {
    var e := n - k * 0x1_0000_0000 + 0x8000_0000;
    assert n + 0x8000_0000 == k * 0x1_0000_0000 + e;
  }

  /** How long the back end waits, whatever the queue and `ms` are.  For the time d to the first deadline, let e be its
      remainder in 32 bits.  Where e is less than a millisecond, or nothing is armed, it waits for `ms`, or 100
      milliseconds when `ms` is out of range; and so it does in a wait without limit.  Otherwise it waits for the whole
      milliseconds in e, cut to `ms`; beyond a second these do not count. */
  lemma SleepExact<T>(q: Queue<T>, now: int, ms: int, k: int)
    requires q != [] ==> -0x8000_0000 <= q[0].when - now - k * 0x1_0000_0000 < 0x8000_0000
    ensures var t := Limited(Sleep(q, now, ms));
            if q == [] || ms < 0 || q[0].when - now - k * 0x1_0000_0000 < MS
            then t == if 0 <= ms <= 1000 then ms else 100
            else
              var e := q[0].when - now - k * 0x1_0000_0000;
              if ms <= 1000 then t * MS <= e && t <= ms && (t == ms || e < (t + 1) * MS)
              else if e < 1001 * MS then t * MS <= e < (t + 1) * MS
              else t == 100
  {
    if q != [] {
      hide ToInt;
      ToIntIs(q[0].when - now, k);
    }
  }

  /** The back end waits as long as it may, that is for `ms` or for all whole milliseconds up to the first deadline,
      unless the deadline is too far away for 32 bits and its remainder lies in front of `ms`; then it wakes early. */
  lemma SleepsFullyIff<T>(q: Queue<T>, now: int, ms: int, k: nat)
    requires q != [] && 0 <= ms <= 1000 && MS <= q[0].when - now
    requires -0x8000_0000 <= q[0].when - now - k * 0x1_0000_0000 < 0x8000_0000
    ensures var d, t := q[0].when - now, Limited(Sleep(q, now, ms));
            && t * MS <= d
            && (t == ms || d < (t + 1) * MS
                <==> d < 0x8000_0000 || !(MS <= d - k * 0x1_0000_0000 < ms * MS))
  {
    hide Sleep, Limited;
    SleepExact(q, now, ms, k);
  }

  lemma ToIntSame(n: int)
    requires -0x8000_0000 <= n < 0x8000_0000
    ensures ToInt(n) == n
  {
  }

  /** A deadline in less than a millisecond does not shorten a wait of half a second. */
  lemma Oversleeps<T>(t: T, now: int, soon: int)
    requires 0 <= soon < MS
    ensures Limited(Sleep([Entry(now + soon, t)], now, 500)) == 500
  {
    ToIntSame(soon);
  }
}
