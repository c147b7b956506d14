/** Whole runs of the alarm service, and the proof that the 32-bit counter with its rollover
    flag calls the same callbacks at the same ticks as a clock that never wraps. */
module AlarmRuns {
  import opened AlarmSpec

  /** Between ticks a thread starts or stops an alarm; a tick runs callbacks. */
  datatype Event<!T> = Thread(op: Op<T>) | Clock(replies: map<T, Reply<T>>)

  function Reset<T>(ideal: bool): State<T>
  {
    State([], [], map[], 0, ideal)
  }

  predicate Possible<T>(st: State<T>, e: Event<T>)
  {
    st.ahead == [] &&
    match e
    case Thread(op) => Permitted(st, op)
    case Clock(replies) => TickPermitted(st, replies)
  }

  function After<T>(st: State<T>, e: Event<T>): (r: State<T>)
    requires Possible(st, e)
    ensures r.ahead == []
  {
    match e
    case Thread(op) => Apply(st, op)
    case Clock(replies) => Tick(st, replies)
  }

  predicate RunPossible<T>(st: State<T>, events: seq<Event<T>>)
    decreases |events|
  {
    events == [] || (Possible(st, events[0]) && RunPossible(After(st, events[0]), events[1..]))
  }

  function Run<T>(st: State<T>, events: seq<Event<T>>): State<T>
    requires RunPossible(st, events)
    decreases |events|
  {
    if events == [] then st else Run(After(st, events[0]), events[1..])
  }

  /** One entry per tick: the callbacks it ran, in order. */
  function CallLog<T>(st: State<T>, events: seq<Event<T>>): seq<seq<T>>
    requires RunPossible(st, events)
    decreases |events|
  {
    if events == [] then []
    else
      (match events[0] case Thread(_) => [] case Clock(replies) => [TickCalls(st, replies)])
      + CallLog(After(st, events[0]), events[1..])
  }

  /** Every interval started is below 2^32 - 1. */
  predicate TimelyOps<T(==)>(ops: seq<Op<T>>)
  {
    forall op | op in ops :: op.Start? ==> op.nticks < WRAP - 1
  }

  /** ... also where a callback restarts its own alarm and then asks for `next` ticks more. */
  predicate TimelyReply<T(==)>(a: T, r: Reply<T>)
  {
    TimelyOps(r.ops) && forall op | op in r.ops :: op.Start? && op.alarm == a ==> op.nticks + r.next < WRAP - 1
  }

  predicate Timely<T(==)>(e: Event<T>)
  {
    match e
    case Thread(op) => TimelyOps([op])
    case Clock(replies) => forall a | a in replies :: TimelyReply(a, replies[a])
  }

  /** c is the 32-bit service, i the unbounded one, in the same situation: what a tick has
      visited is up to date, what it has still to visit dates from the tick before. An alarm
      in `limbo` is being called right now. */
  ghost predicate Sim<T>(c: State<T>, i: State<T>, limbo: set<T>)
  {
    && !c.ideal && i.ideal
    && c.behind == i.behind && c.ahead == i.ahead && c.now == i.now
    && c.timers.Keys == i.timers.Keys
    && WellFormed(c) && WellFormed(i)
    && (c.ahead != [] ==> c.now > 0)
    && (forall a | a in c.behind :: a in limbo || Represents(c.timers[a], i.timers[a].at, c.now))
    && (forall a | a in c.ahead :: Represents(c.timers[a], i.timers[a].at, c.now - 1))
  }

  lemma SimOp<T>(c: State<T>, i: State<T>, limbo: set<T>, op: Op<T>)
    requires Sim(c, i, limbo) && Permitted(c, op) && TimelyOps([op])
    ensures Permitted(i, op) && Sim(Apply(c, op), Apply(i, op), limbo)
  {
    ApplyWellFormed(c, op);
    ApplyWellFormed(i, op);
    match op
    case Start(a, nticks) =>
      assert op in [op];
      ArmRepresents(c.now, nticks);
    case Stop(a) =>
  }

  lemma {:induction false} SimOps<T>(c: State<T>, i: State<T>, limbo: set<T>, ops: seq<Op<T>>)
    requires Sim(c, i, limbo) && AllPermitted(c, ops) && TimelyOps(ops)
    ensures AllPermitted(i, ops) && Sim(ApplyAll(c, ops), ApplyAll(i, ops), limbo)
    decreases |ops|
  {
    if ops != [] {
      SimOp(c, i, limbo, ops[0]);
      SimOps(Apply(c, ops[0]), Apply(i, ops[0]), limbo, ops[1..]);
    }
  }

  /** While its callback runs, an alarm keeps its timer or is restarted by the callback. */
  lemma {:induction false} OwnTimer<T>(c: State<T>, i: State<T>, ops: seq<Op<T>>, a: T)
    returns (restarted: bool, nticks: nat)
    requires a in c.timers && a in i.timers && !c.ideal && i.ideal && c.now == i.now
    ensures var c', i' := ApplyAll(c, ops), ApplyAll(i, ops);
            if restarted then
              && Start(a, nticks) in ops
              && c'.timers[a] == Arm(false, c.now, nticks) && i'.timers[a] == Arm(true, i.now, nticks)
            else c'.timers[a] == c.timers[a] && i'.timers[a] == i.timers[a]
    decreases |ops|
  {
    restarted, nticks := false, 0;
    if ops != [] {
      restarted, nticks := OwnTimer(Apply(c, ops[0]), Apply(i, ops[0]), ops[1..], a);
      if !restarted && ops[0].Start? && ops[0].alarm == a {
        restarted, nticks := true, ops[0].nticks;
      }
    }
  }

  /** Stepping onto the next alarm: both services agree whether it is due. */
  lemma SimAdvance<T>(c: State<T>, i: State<T>)
    requires Sim(c, i, {}) && c.ahead != []
    ensures var a, c1, i1 := c.ahead[0], Advance(c), Advance(i);
            && (Due(c1.timers[a], c.now) <==> Due(i1.timers[a], i.now))
            && (Due(c1.timers[a], c.now) ==>
                  && Sim(c1, i1, {a})
                  && c1.timers[a] == Wrapped(c.now % WRAP, false) && i1.timers[a] == Deadline(c.now))
            && (!Due(c1.timers[a], c.now) ==> Sim(c1, i1, {}))
  {
    var a := c.ahead[0];
    AdvanceWellFormed(c);
    AdvanceWellFormed(i);
    TickExact(c.timers[a], i.timers[a].at, c.now - 1);
    VisitedOnce(c);
  }

  lemma SimConclude<T>(c: State<T>, i: State<T>, a: T, next: nat)
    requires Sim(c, i, {a}) && a in c.timers && a !in c.ahead
    requires next > 0 ==> Represents(Rearm(c.timers[a], c.now, next), Rearm(i.timers[a], i.now, next).at, c.now)
    ensures Sim(Conclude(c, a, next), Conclude(i, a, next), {})
  {
    if next == 0 {
      StopWellFormed(c, a);
      StopWellFormed(i, a);
    }
  }

  lemma RearmAfterRestart(now: nat, nticks: nat, next: nat)
    requires nticks + next < WRAP - 1
    ensures Represents(Rearm(Arm(false, now, nticks), now, next), now + nticks + 1 + next, now)
  {
    SumSplit(now, nticks + 1);
    SumSplit(now, nticks + 1 + next);
    SumSplit(now + nticks + 1, next);
  }

  /** An alarm whose callback has run and asks for more represents its next deadline. */
  lemma OwnRearm<T>(c: State<T>, i: State<T>, a: T, r: Reply<T>)
    requires !c.ideal && i.ideal && c.now == i.now && a in c.timers && a in i.timers
    requires c.timers[a] == Wrapped(c.now % WRAP, false) && i.timers[a] == Deadline(i.now)
    requires 0 < r.next < WRAP && TimelyReply(a, r)
    ensures ApplyAll(i, r.ops).timers[a].Deadline?
    ensures Represents(Rearm(ApplyAll(c, r.ops).timers[a], c.now, r.next),
                       Rearm(ApplyAll(i, r.ops).timers[a], i.now, r.next).at, c.now)
  {
    hide ApplyAll, TimelyOps;
    var restarted, nticks := OwnTimer(c, i, r.ops, a);
    if restarted {
      RearmAfterRestart(c.now, nticks, r.next);
    } else {
      RearmRepresents(c.now, r.next);
    }
  }

  lemma SimCallback<T>(c: State<T>, i: State<T>, a: T, r: Reply<T>)
    requires Sim(c, i, {a}) && a in c.timers && a !in c.ahead
    requires c.timers[a] == Wrapped(c.now % WRAP, false) && i.timers[a] == Deadline(i.now)
    requires AllPermitted(c, r.ops) && r.next < WRAP && TimelyReply(a, r)
    ensures AllPermitted(i, r.ops)
    ensures Sim(Conclude(ApplyAll(c, r.ops), a, r.next), Conclude(ApplyAll(i, r.ops), a, r.next), {})
  {
    SimOps(c, i, {a}, r.ops);
    if r.next > 0 {
      OwnRearm(c, i, a, r);
    }
    ApplyAllAhead(c, r.ops);
    SimConclude(ApplyAll(c, r.ops), ApplyAll(i, r.ops), a, r.next);
  }

  lemma SimVisit<T>(c: State<T>, i: State<T>, replies: map<T, Reply<T>>)
    requires Sim(c, i, {}) && CanVisit(c, replies)
    requires forall a | a in replies :: TimelyReply(a, replies[a])
    ensures CanVisit(i, replies) && Sim(Visit(c, replies), Visit(i, replies), {})
  {
    var a := c.ahead[0];
    SimAdvance(c, i);
    if Due(Advance(c).timers[a], c.now) {
      assert TimelyReply(a, ReplyOf(replies, a));
      VisitedOnce(c);
      SimCallback(Advance(c), Advance(i), a, ReplyOf(replies, a));
    }
  }

  lemma {:induction false} SimWalk<T>(c: State<T>, i: State<T>, replies: map<T, Reply<T>>)
    requires Sim(c, i, {}) && WalkPermitted(c, replies)
    requires forall a | a in replies :: TimelyReply(a, replies[a])
    ensures WalkPermitted(i, replies)
    ensures Called(c, replies) == Called(i, replies)
    ensures Sim(Walk(c, replies), Walk(i, replies), {})
    decreases |c.ahead|
  {
    if c.ahead != [] {
      SimAdvance(c, i);
      SimVisit(c, i, replies);
      SimWalk(Visit(c, replies), Visit(i, replies), replies);
    }
  }

  lemma SimEvent<T>(c: State<T>, i: State<T>, e: Event<T>)
    requires Sim(c, i, {}) && Possible(c, e) && Timely(e)
    ensures Possible(i, e) && Sim(After(c, e), After(i, e), {})
    ensures e.Clock? ==> TickCalls(c, e.replies) == TickCalls(i, e.replies)
  {
    match e
    case Thread(op) => SimOp(c, i, {}, op);
    case Clock(replies) =>
      BeginWellFormed(c);
      BeginWellFormed(i);
      SimWalk(Begin(c), Begin(i), replies);
  }

  lemma {:induction false} SimRun<T>(c: State<T>, i: State<T>, events: seq<Event<T>>)
    requires Sim(c, i, {}) && RunPossible(c, events) && forall e | e in events :: Timely(e)
    ensures RunPossible(i, events) && CallLog(c, events) == CallLog(i, events)
    ensures Sim(Run(c, events), Run(i, events), {})
    decreases |events|
  {
    if events != [] {
      SimEvent(c, i, events[0]);
      SimRun(After(c, events[0]), After(i, events[0]), events[1..]);
    }
  }

  /** The 32-bit service refines an unbounded clock: every run calls the same callbacks on the
      same ticks, across any number of wraps of the counter. */
  lemma ClockRefined<T>(events: seq<Event<T>>)
    requires RunPossible(Reset<T>(false), events) && forall e | e in events :: Timely(e)
    ensures RunPossible(Reset<T>(true), events)
    ensures CallLog(Reset<T>(false), events) == CallLog(Reset<T>(true), events)
  {
    SimRun(Reset(false), Reset(true), events);
  }

  /** After any run, an alarm on the 32-bit list is due on the coming tick exactly when that
      tick is its true deadline, and no deadline has been missed. */
  lemma DueExactlyAtDeadline<T>(events: seq<Event<T>>, a: T)
    requires RunPossible(Reset<T>(false), events) && forall e | e in events :: Timely(e)
    requires a in Run(Reset<T>(false), events).behind
    ensures RunPossible(Reset<T>(true), events)
    ensures var c, i := Run(Reset<T>(false), events), Run(Reset<T>(true), events);
            && a in c.timers && a in i.timers && i.timers[a].Deadline?
            && c.now == i.now && i.timers[a].at > c.now
            && (Due(Age(c.timers[a], c.now + 1), c.now + 1) <==> i.timers[a].at == c.now + 1)
  {
    SimRun(Reset(false), Reset(true), events);
    var c, i := Run(Reset<T>(false), events), Run(Reset<T>(true), events);
    TickExact(c.timers[a], i.timers[a].at, c.now);
  }

  // ----- one alarm left alone -----

  /** No callback starts or stops a. */
  predicate LeavesAlone<T(==)>(replies: map<T, Reply<T>>, a: T)
  {
    forall b | b in replies :: forall op | op in replies[b].ops :: op.alarm != a
  }

  lemma {:induction false} ApplyAllLeaves<T>(st: State<T>, ops: seq<Op<T>>, a: T)
    requires a in st.timers && forall op | op in ops :: op.alarm != a
    ensures var st' := ApplyAll(st, ops);
            && a in st'.timers && st'.timers[a] == st.timers[a]
            && (a in st'.behind <==> a in st.behind) && (a in st'.ahead <==> a in st.ahead)
    decreases |ops|
  {
    if ops != [] {
      assert ops[0] in ops;
      ApplyAllLeaves(Apply(st, ops[0]), ops[1..], a);
    }
  }

  /** Visiting another alarm does nothing to a. */
  lemma VisitOther<T>(st: State<T>, replies: map<T, Reply<T>>, a: T)
    requires CanVisit(st, replies) && LeavesAlone(replies, a) && a in st.timers && a != st.ahead[0]
    ensures var st' := Visit(st, replies);
            && a in st'.timers && st'.timers[a] == st.timers[a]
            && (a in st'.behind <==> a in st.behind) && (a in st'.ahead <==> a in st.ahead)
  {
    var b, st1 := st.ahead[0], Advance(st);
    var ops := ReplyOf(replies, b).ops;
    assert st.ahead == [b] + st.ahead[1..];
    assert forall op | op in ops :: op.alarm != a;
    ApplyAllLeaves(st1, ops, a);
  }

  /** Visiting a itself: it is re-armed or taken off if due, and only aged if not. */
  lemma VisitSelf<T>(st: State<T>, replies: map<T, Reply<T>>)
    requires WellFormed(st) && CanVisit(st, replies) && LeavesAlone(replies, st.ahead[0])
    ensures var (a, st', next) := (st.ahead[0], Visit(st, replies), ReplyOf(replies, st.ahead[0]).next);
            var t := Age(st.timers[a], st.now);
            && a !in st'.ahead && a in st'.timers
            && (Due(t, st.now) ==> (a in st'.behind <==> next > 0)
                                   && (next > 0 ==> st'.timers[a] == Rearm(t, st.now, next)))
            && (!Due(t, st.now) ==> a in st'.behind && st'.timers[a] == t)
  {
    var a := st.ahead[0];
    VisitedOnce(st);
    assert forall op | op in ReplyOf(replies, a).ops :: op.alarm != a;
    ApplyAllLeaves(Advance(st), ReplyOf(replies, a).ops, a);
  }

  /** A walk past an alarm it has visited, or that is off its way. */
  lemma {:induction false} WalkPast<T>(st: State<T>, replies: map<T, Reply<T>>, a: T)
    requires WellFormed(st) && WalkPermitted(st, replies) && LeavesAlone(replies, a)
    requires a in st.timers && a !in st.ahead
    ensures var st' := Walk(st, replies);
            && a in st'.timers && st'.timers[a] == st.timers[a] && (a in st'.behind <==> a in st.behind)
            && a !in Called(st, replies)
    decreases |st.ahead|
  {
    if st.ahead != [] {
      VisitOther(st, replies, a);
      VisitWellFormed(st, replies);
      WalkStep(st, replies);
      WalkPast(Visit(st, replies), replies, a);
    }
  }

  /** A walk that has a ahead of it. */
  lemma {:induction false} WalkOver<T>(st: State<T>, replies: map<T, Reply<T>>, a: T)
    requires WellFormed(st) && WalkPermitted(st, replies) && LeavesAlone(replies, a)
    requires a in st.timers && a in st.ahead
    ensures var (st', t, next) := (Walk(st, replies), Age(st.timers[a], st.now), ReplyOf(replies, a).next);
            && (a in Called(st, replies) <==> Due(t, st.now)) && a in st'.timers
            && (Due(t, st.now) ==> (a in st'.behind <==> next > 0)
                                   && (next > 0 ==> st'.timers[a] == Rearm(t, st.now, next)))
            && (!Due(t, st.now) ==> a in st'.behind && st'.timers[a] == t)
    decreases |st.ahead|
  {
    VisitWellFormed(st, replies);
    WalkStep(st, replies);
    if a == st.ahead[0] {
      VisitSelf(st, replies);
      WalkPast(Visit(st, replies), replies, a);
    } else {
      VisitOther(st, replies, a);
      WalkOver(Visit(st, replies), replies, a);
    }
  }

  /** The event starts and stops other alarms only. */
  predicate Spares<T(==)>(e: Event<T>, a: T)
  {
    match e
    case Thread(op) => op.alarm != a
    case Clock(replies) => LeavesAlone(replies, a)
  }

  function Ticks<T>(events: seq<Event<T>>): nat
  {
    if events == [] then 0 else (if events[0].Clock? then 1 else 0) + Ticks(events[1..])
  }

  /** What a's callback answers, should the last tick of the run call it. */
  function LastAnswer<T>(events: seq<Event<T>>, a: T): nat
    requires Ticks(events) > 0
  {
    if Ticks(events[1..]) > 0 then LastAnswer(events[1..], a) else ReplyOf(events[0].replies, a).next
  }

  /** a's callback has just answered r at tick `now`. */
  ghost predicate Answered<T>(st: State<T>, a: T, r: nat)
  {
    && a in st.timers && (a in st.behind <==> r > 0)
    && (0 < r < WRAP ==> Represents(st.timers[a], st.now + r, st.now))
  }

  lemma OneTick<T>(st: State<T>, a: T, at: nat, replies: map<T, Reply<T>>)
    requires WellFormed(st) && a in st.behind && Represents(st.timers[a], at, st.now)
    requires TickPermitted(st, replies) && LeavesAlone(replies, a)
    ensures var st' := Tick(st, replies);
            && WellFormed(st') && st'.now == st.now + 1 && a in st'.timers
            && (a in TickCalls(st, replies) <==> at == st'.now)
            && (at != st'.now ==> a in st'.behind && Represents(st'.timers[a], at, st'.now))
            && (at == st'.now ==> Answered(st', a, ReplyOf(replies, a).next))
  {
    BeginWellFormed(st);
    WalkOver(Begin(st), replies, a);
    WalkWellFormed(Begin(st), replies);
    TickExact(st.timers[a], at, st.now);
    var r := ReplyOf(replies, a).next;
    if 0 < r < WRAP {
      RearmRepresents(st.now + 1, r);
    }
  }

  /** A thread working on another alarm. */
  lemma OneOp<T>(st: State<T>, a: T, op: Op<T>)
    requires WellFormed(st) && a in st.timers && st.ahead == [] && Permitted(st, op) && op.alarm != a
    ensures var st' := Apply(st, op);
            && WellFormed(st') && st'.now == st.now && st'.ahead == []
            && a in st'.timers && st'.timers[a] == st.timers[a] && (a in st'.behind <==> a in st.behind)
  {
    ApplyWellFormed(st, op);
  }

  lemma FirstEvent<T>(st: State<T>, events: seq<Event<T>>)
    requires events != [] && RunPossible(st, events)
    ensures var (e, rest) := (events[0], events[1..]);
            && Possible(st, e) && RunPossible(After(st, e), rest)
            && Run(st, events) == Run(After(st, e), rest)
            && CallLog(st, events) == (if e.Clock? then [TickCalls(st, e.replies)] else [])
                                      + CallLog(After(st, e), rest)
            && Ticks(events) == (if e.Clock? then 1 else 0) + Ticks(rest)
  {
  }

  /** After the last tick of a run. */
  lemma {:induction false} NoTicks<T>(st: State<T>, a: T, events: seq<Event<T>>)
    requires WellFormed(st) && a in st.timers && RunPossible(st, events) && Ticks(events) == 0
    requires forall e | e in events :: Spares(e, a)
    ensures CallLog(st, events) == []
    ensures var st' := Run(st, events);
            && st'.now == st.now
            && a in st'.timers && st'.timers[a] == st.timers[a] && (a in st'.behind <==> a in st.behind)
    decreases |events|
  {
    if events != [] {
      FirstEvent(st, events);
      assert events[0] in events;
      OneOp(st, a, events[0].op);
      NoTicks(After(st, events[0]), a, events[1..]);
    }
  }

  /** On the 32-bit service an alarm left alone is called on the tick of its deadline and on no
      tick before, over any number of counter wraps and whatever threads and callbacks do to
      other alarms; its answer r > 0 makes the next deadline r ticks later, its answer 0 takes
      it off the list. */
  lemma {:induction false} CalledExactlyAt<T>(st: State<T>, a: T, at: nat, events: seq<Event<T>>)
    requires WellFormed(st) && a in st.behind && Represents(st.timers[a], at, st.now)
    requires RunPossible(st, events) && Ticks(events) == at - st.now
    requires forall e | e in events :: Spares(e, a)
    ensures var calls := CallLog(st, events);
            |calls| == at - st.now && forall k :: 0 <= k < |calls| ==> (a in calls[k] <==> k == |calls| - 1)
    ensures Run(st, events).now == at
    ensures Answered(Run(st, events), a, LastAnswer(events, a))
    decreases |events|
  {
    assert at > st.now && events != [];
    var e, rest := events[0], events[1..];
    FirstEvent(st, events);
    assert Spares(e, a);
    match e
    case Thread(op) =>
      OneOp(st, a, op);
      CalledExactlyAt(After(st, e), a, at, rest);
    case Clock(replies) =>
      OneTick(st, a, at, replies);
      hide WellFormed, LeavesAlone, Tick, TickCalls, TickPermitted, Represents;
      if at == st.now + 1 {
        NoTicks(After(st, e), a, rest);
      } else {
        CalledExactlyAt(After(st, e), a, at, rest);
      }
  }

  /** From the start of an alarm to its first call: n + 1 ticks, exactly. */
  lemma StartedThenCalled<T>(st: State<T>, a: T, n: nat, events: seq<Event<T>>)
    requires WellFormed(st) && !st.ideal && st.ahead == [] && Permitted(st, Start(a, n)) && n < WRAP - 1
    requires RunPossible(Apply(st, Start(a, n)), events) && Ticks(events) == n + 1
    requires forall e | e in events :: Spares(e, a)
    ensures var st1 := Apply(st, Start(a, n));
            && (var calls := CallLog(st1, events);
                |calls| == n + 1 && forall k :: 0 <= k <= n ==> (a in calls[k] <==> k == n))
            && Answered(Run(st1, events), a, LastAnswer(events, a))
  {
    ApplyWellFormed(st, Start(a, n));
    ArmRepresents(st.now, n);
    CalledExactlyAt(Apply(st, Start(a, n)), a, st.now + n + 1, events);
  }
}
