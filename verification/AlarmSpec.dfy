/** The alarm service as values: one timer's arithmetic on a wrapping 32-bit counter and one
    walk of the alarm list, each also on an unbounded clock to compare with. */
module AlarmSpec {
  const WRAP: nat := 0x1_0000_0000

  /** An alarm's deadline, as the C structure keeps it or as a true tick number. */
  datatype Timer = Wrapped(time: nat, rollover: bool) | Deadline(at: nat)

  /** What a callback may do to the alarm list before it returns. */
  datatype Op<!T> = Start(alarm: T, nticks: nat) | Stop(alarm: T)

  /** One callback: its list operations, then the ticks to its next call, or 0 to end it. */
  datatype Reply<!T> = Reply(ops: seq<Op<T>>, next: nat)

  /** The list is behind + ahead; a tick in progress has still to visit ahead. `now` counts
      ticks since reset without wrapping; `timers` holds every alarm ever started. */
  datatype State<!T> = State(behind: seq<T>, ahead: seq<T>, timers: map<T, Timer>, now: nat, ideal: bool)

  // ----- one timer -----

  function Arm(ideal: bool, now: nat, nticks: nat): Timer
  {
    if ideal then Deadline(now + nticks + 1)
    else
      var time := (nticks + now % WRAP + 1) % WRAP;
      Wrapped(time, time < now % WRAP)
  }

  /** The rollover flag goes when the counter passes zero. */
  function Age(t: Timer, now: nat): Timer
  {
    if t.Wrapped? then t.(rollover := t.rollover && now % WRAP != 0) else t
  }

  predicate Due(t: Timer, now: nat)
  {
    if t.Wrapped? then t.time <= now % WRAP && !t.rollover else t.at <= now
  }

  function Rearm(t: Timer, now: nat, next: nat): Timer
  {
    if t.Wrapped? then
      var time := (t.time + next) % WRAP;
      Wrapped(time, time < now % WRAP || t.rollover)
    else t.(at := t.at + next)
  }

  /** t is how the 32-bit service keeps the true deadline `at`, after the tick `now`. */
  ghost predicate Represents(t: Timer, at: nat, now: nat)
  {
    && t.Wrapped?
    && now < at < now + WRAP
    && t.time == at % WRAP
    && (t.rollover <==> at / WRAP > now / WRAP)
  }

  /** The tick after which t first comes due is now + k. */
  ghost predicate FirstDueAfter(t: Timer, now: nat, k: nat)
    decreases k
  {
    k > 0 &&
    var aged := Age(t, now + 1);
    if Due(aged, now + 1) then k == 1 else FirstDueAfter(aged, now + 1, k - 1)
  }

  lemma DivisionStep(now: nat)
    ensures (now + 1) % WRAP == if now % WRAP == WRAP - 1 then 0 else now % WRAP + 1
    ensures (now + 1) / WRAP == if now % WRAP == WRAP - 1 then now / WRAP + 1 else now / WRAP
  {
  }

  /** One tick of a represented timer: it is due exactly at its deadline, and otherwise
      it represents the same deadline one tick later. */
  lemma TickExact(t: Timer, at: nat, now: nat)
    requires Represents(t, at, now)
    ensures Due(Age(t, now + 1), now + 1) <==> at == now + 1
    ensures at != now + 1 ==> Represents(Age(t, now + 1), at, now + 1)
    ensures at == now + 1 ==> Age(t, now + 1) == Wrapped((now + 1) % WRAP, false)
  {
    DivisionStep(now);
  }

  lemma SumSplit(now: nat, d: nat)
    requires d < WRAP
    ensures (now % WRAP + d) % WRAP == (now + d) % WRAP
    ensures (now + d) % WRAP == if now % WRAP + d < WRAP then now % WRAP + d else now % WRAP + d - WRAP
    ensures (now + d) / WRAP == if now % WRAP + d < WRAP then now / WRAP else now / WRAP + 1
  {
  }

  /** alt_alarm_start with nticks below 2^32 - 1 sets the deadline it promises. */
  lemma ArmRepresents(now: nat, nticks: nat)
    requires nticks < WRAP - 1
    ensures Represents(Arm(false, now, nticks), now + nticks + 1, now)
  {
    SumSplit(now, nticks + 1);
  }

  /** Re-arming an alarm that is just due moves its deadline on by the callback's answer. */
  lemma RearmRepresents(now: nat, next: nat)
    requires 0 < next < WRAP
    ensures Represents(Rearm(Wrapped(now % WRAP, false), now, next), now + next, now)
  {
    SumSplit(now, next);
  }

  lemma {:induction false} RepresentedFiresOnTime(t: Timer, at: nat, now: nat)
    requires Represents(t, at, now)
    ensures FirstDueAfter(t, now, at - now)
    decreases at - now
  {
    TickExact(t, at, now);
    if at != now + 1 {
      RepresentedFiresOnTime(Age(t, now + 1), at, now + 1);
    }
  }

  /** An alarm started for any 32-bit interval comes due exactly nticks + 1 ticks later, over
      any number of counter wraps, unless nticks is 2^32 - 1 and the counter is not at its
      maximum: then it comes due on the very next tick. */
  lemma StartExact(now: nat, nticks: nat)
    requires nticks < WRAP
    ensures FirstDueAfter(Arm(false, now, nticks), now, nticks + 1)
            <==> nticks != WRAP - 1 || now % WRAP == WRAP - 1
    ensures nticks == WRAP - 1 && now % WRAP != WRAP - 1 ==> FirstDueAfter(Arm(false, now, nticks), now, 1)
  {
    var t := Arm(false, now, nticks);
    if nticks < WRAP - 1 {
      ArmRepresents(now, nticks);
      RepresentedFiresOnTime(t, now + nticks + 1, now);
    } else {
      assert t == Wrapped(now % WRAP, false);
      DivisionStep(now);
      if now % WRAP == WRAP - 1 {
        SumSplit(now, 1);
        SumSplit(now + 1, WRAP - 1);
        assert !Due(Age(t, now + 1), now + 1);
        assert Represents(Age(t, now + 1), now + WRAP, now + 1);
        RepresentedFiresOnTime(Age(t, now + 1), now + WRAP, now + 1);
      }
    }
  }

  // ----- the list -----

  function Without<T(==)>(s: seq<T>, x: T): (r: seq<T>)
    ensures |r| <= |s|
    ensures forall y | y in r :: y in s && y != x
    ensures forall y | y in s && y != x :: y in r
  {
    if s == [] then []
    else if s[0] == x then Without(s[1..], x)
    else [s[0]] + Without(s[1..], x)
  }

  function IndexOf<T(==)>(s: seq<T>, x: T): (k: nat)
    requires x in s
    ensures k < |s| && s[k] == x
  {
    if s[0] == x then 0 else IndexOf(s[1..], x) + 1
  }

  predicate Distinct<T(==)>(s: seq<T>)
  {
    forall i, j :: 0 <= i < j < |s| ==> s[i] != s[j]
  }

  function Apply<T>(st: State<T>, op: Op<T>): State<T>
  {
    match op
    case Start(a, nticks) =>
      st.(behind := [a] + st.behind, timers := st.timers[a := Arm(st.ideal, st.now, nticks)])
    case Stop(a) =>
      st.(behind := Without(st.behind, a), ahead := Without(st.ahead, a))
  }

  /** An alarm may be started only while it is off the list, stopped only once it has been
      started. */
  predicate Lawful<T>(st: State<T>, op: Op<T>)
  {
    match op
    case Start(a, nticks) => a !in st.behind && a !in st.ahead && nticks < WRAP
    case Stop(a) => a in st.timers
  }

  /** ... and during a tick the already saved successor must not be stopped. */
  predicate Permitted<T>(st: State<T>, op: Op<T>)
  {
    Lawful(st, op) && (op.Stop? && st.ahead != [] ==> op.alarm != st.ahead[0])
  }

  predicate AllLawful<T>(st: State<T>, ops: seq<Op<T>>)
    decreases |ops|
  {
    ops == [] || (Lawful(st, ops[0]) && AllLawful(Apply(st, ops[0]), ops[1..]))
  }

  predicate AllPermitted<T>(st: State<T>, ops: seq<Op<T>>)
    decreases |ops|
  {
    ops == [] || (Permitted(st, ops[0]) && AllPermitted(Apply(st, ops[0]), ops[1..]))
  }

  function ApplyAll<T>(st: State<T>, ops: seq<Op<T>>): (r: State<T>)
    ensures |r.ahead| <= |st.ahead| && r.now == st.now && r.ideal == st.ideal
    ensures st.timers.Keys <= r.timers.Keys
    decreases |ops|
  {
    if ops == [] then st else ApplyAll(Apply(st, ops[0]), ops[1..])
  }

  function ReplyOf<T>(replies: map<T, Reply<T>>, a: T): Reply<T>
  {
    if a in replies then replies[a] else Reply([], 0)
  }

  ghost predicate WellFormed<T>(st: State<T>)
  {
    && Distinct(st.behind + st.ahead)
    && (forall a | a in st.behind :: a in st.timers)
    && (forall a | a in st.ahead :: a in st.timers)
    && (forall a | a in st.timers :: st.timers[a].Deadline? == st.ideal)
  }

  // ----- one tick -----

  /** The walk steps onto ahead[0] and clears a rollover flag that has served its purpose. */
  function Advance<T>(st: State<T>): State<T>
    requires st.ahead != [] && st.ahead[0] in st.timers
  {
    var a := st.ahead[0];
    st.(behind := st.behind + [a], ahead := st.ahead[1..],
        timers := st.timers[a := Age(st.timers[a], st.now)])
  }

  /** What the walk does once a's callback has answered `next`. */
  function Conclude<T>(st: State<T>, a: T, next: nat): State<T>
    requires a in st.timers
  {
    if next == 0 then Apply(st, Stop(a))
    else st.(timers := st.timers[a := Rearm(st.timers[a], st.now, next)])
  }

  /** A turn of the walk after stepping onto a, whose callback would reply r. */
  function Serve<T>(st: State<T>, a: T, r: Reply<T>): (st': State<T>)
    requires a in st.timers
    ensures |st'.ahead| <= |st.ahead| && st'.now == st.now && st'.ideal == st.ideal
  {
    if Due(st.timers[a], st.now) then Conclude(ApplyAll(st, r.ops), a, r.next) else st
  }

  predicate CanVisit<T>(st: State<T>, replies: map<T, Reply<T>>)
  {
    st.ahead != [] && st.ahead[0] in st.timers &&
    var a, st1 := st.ahead[0], Advance(st);
    Due(st1.timers[a], st1.now) ==>
      AllPermitted(st1, ReplyOf(replies, a).ops) && ReplyOf(replies, a).next < WRAP
  }

  function Visit<T>(st: State<T>, replies: map<T, Reply<T>>): (r: State<T>)
    requires CanVisit(st, replies)
    ensures |r.ahead| < |st.ahead| && r.now == st.now && r.ideal == st.ideal
  {
    Serve(Advance(st), st.ahead[0], ReplyOf(replies, st.ahead[0]))
  }

  predicate WalkPermitted<T>(st: State<T>, replies: map<T, Reply<T>>)
    decreases |st.ahead|
  {
    st.ahead == [] || (CanVisit(st, replies) && WalkPermitted(Visit(st, replies), replies))
  }

  function Walk<T>(st: State<T>, replies: map<T, Reply<T>>): (r: State<T>)
    requires WalkPermitted(st, replies)
    ensures r.ahead == [] && r.now == st.now && r.ideal == st.ideal
    decreases |st.ahead|
  {
    if st.ahead == [] then st else Walk(Visit(st, replies), replies)
  }

  /** The alarms whose callbacks the walk runs, in order. */
  function Called<T>(st: State<T>, replies: map<T, Reply<T>>): seq<T>
    requires WalkPermitted(st, replies)
    decreases |st.ahead|
  {
    if st.ahead == [] then [] else
    (if Due(Advance(st).timers[st.ahead[0]], st.now) then [st.ahead[0]] else [])
    + Called(Visit(st, replies), replies)
  }

  lemma WalkStep<T>(st: State<T>, replies: map<T, Reply<T>>)
    requires WalkPermitted(st, replies) && st.ahead != []
    ensures CanVisit(st, replies) && WalkPermitted(Visit(st, replies), replies)
    ensures Walk(st, replies) == Walk(Visit(st, replies), replies)
    ensures Called(st, replies) == (if Due(Advance(st).timers[st.ahead[0]], st.now) then [st.ahead[0]] else [])
                                   + Called(Visit(st, replies), replies)
  {
  }

  lemma WalkDone<T>(st: State<T>, replies: map<T, Reply<T>>)
    requires st.ahead == []
    ensures WalkPermitted(st, replies) && Walk(st, replies) == st && Called(st, replies) == []
  {
  }

  /** The state in which a tick starts its walk. */
  function Begin<T>(st: State<T>): State<T>
    requires st.ahead == []
  {
    st.(behind := [], ahead := st.behind, now := st.now + 1)
  }

  predicate TickPermitted<T>(st: State<T>, replies: map<T, Reply<T>>)
  {
    st.ahead == [] && WalkPermitted(Begin(st), replies)
  }

  function Tick<T>(st: State<T>, replies: map<T, Reply<T>>): State<T>
    requires TickPermitted(st, replies)
  {
    Walk(Begin(st), replies)
  }

  function TickCalls<T>(st: State<T>, replies: map<T, Reply<T>>): seq<T>
    requires TickPermitted(st, replies)
  {
    Called(Begin(st), replies)
  }

  // ----- the list stays well formed -----

  lemma {:induction false} WithoutSplits<T>(s: seq<T>, t: seq<T>, x: T)
    ensures Without(s + t, x) == Without(s, x) + Without(t, x)
  {
    if s == [] {
      assert s + t == t;
    } else {
      assert (s + t)[1..] == s[1..] + t;
      WithoutSplits(s[1..], t, x);
    }
  }

  lemma {:induction false} WithoutAbsent<T>(s: seq<T>, x: T)
    requires x !in s
    ensures Without(s, x) == s
  {
    if s != [] {
      WithoutAbsent(s[1..], x);
    }
  }

  lemma {:induction false} WithoutDistinct<T>(s: seq<T>, x: T)
    requires Distinct(s)
    ensures Distinct(Without(s, x))
  {
    if s != [] {
      var rest := Without(s[1..], x);
      WithoutDistinct(s[1..], x);
      if s[0] != x {
        assert s[0] !in s[1..];
        forall i, j | 0 <= i < j < |rest| + 1
          ensures ([s[0]] + rest)[i] != ([s[0]] + rest)[j]
        {
          assert ([s[0]] + rest)[j] == rest[j - 1] && rest[j - 1] in rest;
        }
      }
    }
  }

  lemma ApplyWellFormed<T>(st: State<T>, op: Op<T>)
    requires WellFormed(st) && Lawful(st, op)
    ensures WellFormed(Apply(st, op))
  {
    match op
    case Start(a, _) =>
      assert ([a] + st.behind) + st.ahead == [a] + (st.behind + st.ahead);
    case Stop(a) => StopWellFormed(st, a);
  }

  lemma StopWellFormed<T>(st: State<T>, a: T)
    requires WellFormed(st)
    ensures WellFormed(Apply(st, Stop(a)))
    ensures Apply(st, Stop(a)).behind + Apply(st, Stop(a)).ahead == Without(st.behind + st.ahead, a)
  {
    WithoutSplits(st.behind, st.ahead, a);
    WithoutDistinct(st.behind + st.ahead, a);
  }

  lemma {:induction false} ApplyAllWellFormed<T>(st: State<T>, ops: seq<Op<T>>)
    requires WellFormed(st) && AllLawful(st, ops)
    ensures WellFormed(ApplyAll(st, ops))
    decreases |ops|
  {
    if ops != [] {
      ApplyWellFormed(st, ops[0]);
      ApplyAllWellFormed(Apply(st, ops[0]), ops[1..]);
    }
  }

  lemma {:induction false} PermittedLawful<T>(st: State<T>, ops: seq<Op<T>>)
    requires AllPermitted(st, ops)
    ensures AllLawful(st, ops)
    decreases |ops|
  {
    if ops != [] {
      PermittedLawful(Apply(st, ops[0]), ops[1..]);
    }
  }

  lemma AdvanceWellFormed<T>(st: State<T>)
    requires WellFormed(st) && st.ahead != []
    ensures WellFormed(Advance(st))
    ensures Advance(st).behind + Advance(st).ahead == st.behind + st.ahead
  {
  }

  /** The alarm being visited stands nowhere else on the list. */
  lemma VisitedOnce<T>(st: State<T>)
    requires WellFormed(st) && st.ahead != []
    ensures st.ahead[0] !in st.behind && st.ahead[0] !in st.ahead[1..]
  {
    var list := st.behind + st.ahead;
    assert list[|st.behind|] == st.ahead[0];
    assert forall k | 0 <= k < |st.behind| :: st.behind[k] == list[k];
    assert forall k | 0 <= k < |st.ahead[1..]| :: st.ahead[1..][k] == list[|st.behind| + 1 + k];
  }

  lemma ServeWellFormed<T>(st: State<T>, a: T, r: Reply<T>)
    requires WellFormed(st) && a in st.timers && (Due(st.timers[a], st.now) ==> AllLawful(st, r.ops))
    ensures WellFormed(Serve(st, a, r))
  {
    if Due(st.timers[a], st.now) {
      ApplyAllWellFormed(st, r.ops);
      StopWellFormed(ApplyAll(st, r.ops), a);
    }
  }

  lemma VisitWellFormed<T>(st: State<T>, replies: map<T, Reply<T>>)
    requires WellFormed(st) && CanVisit(st, replies)
    ensures WellFormed(Visit(st, replies))
  {
    AdvanceWellFormed(st);
    var a := st.ahead[0];
    if Due(Advance(st).timers[a], st.now) {
      PermittedLawful(Advance(st), ReplyOf(replies, a).ops);
    }
    ServeWellFormed(Advance(st), a, ReplyOf(replies, a));
  }

  /** Every tick leaves a well-formed list: no alarm is on it twice. */
  lemma {:induction false} WalkWellFormed<T>(st: State<T>, replies: map<T, Reply<T>>)
    requires WellFormed(st) && WalkPermitted(st, replies)
    ensures WellFormed(Walk(st, replies))
    decreases |st.ahead|
  {
    if st.ahead != [] {
      VisitWellFormed(st, replies);
      WalkWellFormed(Visit(st, replies), replies);
    }
  }

  // ----- exactly the due alarms are called, once each, in list order -----

  function Stops<T(==)>(ops: seq<Op<T>>): set<T>
  {
    set op | op in ops && op.Stop? :: op.alarm
  }

  function Keep<T(==)>(s: seq<T>, gone: set<T>): (r: seq<T>)
    ensures forall y | y in r :: y in s && y !in gone
  {
    if s == [] then []
    else if s[0] in gone then Keep(s[1..], gone)
    else [s[0]] + Keep(s[1..], gone)
  }

  /** What a tick should call: go through the list as it stood when the tick began, pass over
      alarms an earlier callback has stopped, and call those due by their settings of then. */
  function ShouldCall<T(==)>(list: seq<T>, gone: set<T>, timers: map<T, Timer>, now: nat,
                             replies: map<T, Reply<T>>): seq<T>
    requires forall a | a in list :: a in timers
  {
    if list == [] then []
    else if list[0] !in gone && Due(Age(timers[list[0]], now), now) then
      [list[0]] + ShouldCall(list[1..], gone + Stops(ReplyOf(replies, list[0]).ops), timers, now, replies)
    else ShouldCall(list[1..], gone, timers, now, replies)
  }

  lemma {:induction false} KeepWithout<T>(s: seq<T>, gone: set<T>, x: T)
    ensures Keep(s, gone + {x}) == Without(Keep(s, gone), x)
  {
    if s != [] {
      KeepWithout(s[1..], gone, x);
      if s[0] !in gone {
        assert Keep(s, gone)[1..] == Keep(s[1..], gone);
      }
    }
  }

  lemma {:induction false} KeepNone<T>(s: seq<T>)
    ensures Keep(s, {}) == s
  {
    if s != [] {
      KeepNone(s[1..]);
    }
  }

  lemma {:induction false} KeepTwice<T>(s: seq<T>, gone: set<T>, more: set<T>)
    ensures Keep(Keep(s, gone), more) == Keep(s, gone + more)
  {
    if s != [] {
      KeepTwice(s[1..], gone, more);
      if s[0] !in gone {
        assert Keep(s, gone)[1..] == Keep(s[1..], gone);
      }
    }
  }

  /** A callback's effect on the part of the list still to be visited. */
  lemma {:induction false} ApplyAllAhead<T>(st: State<T>, ops: seq<Op<T>>)
    requires AllPermitted(st, ops)
    ensures ApplyAll(st, ops).ahead == Keep(st.ahead, Stops(ops))
    ensures forall x | x in ApplyAll(st, ops).ahead ::
              x in st.ahead && (x in st.timers ==> ApplyAll(st, ops).timers[x] == st.timers[x])
    decreases |ops|
  {
    if ops == [] {
      KeepNone(st.ahead);
      assert Stops(ops) == {};
    } else {
      var st1 := Apply(st, ops[0]);
      ApplyAllAhead(st1, ops[1..]);
      assert ops == [ops[0]] + ops[1..];
      if ops[0].Stop? {
        assert Stops(ops) == {ops[0].alarm} + Stops(ops[1..]);
        KeepNone(st.ahead);
        KeepWithout(st.ahead, {}, ops[0].alarm);
        assert {} + {ops[0].alarm} == {ops[0].alarm};
        KeepTwice(st.ahead, {ops[0].alarm}, Stops(ops[1..]));
      } else {
        assert Stops(ops) == Stops(ops[1..]);
      }
    }
  }

  /** With the callee's own entry unlinked twice or not at all, the rest ahead is the same. */
  lemma VisitAhead<T>(st: State<T>, replies: map<T, Reply<T>>)
    requires WellFormed(st) && CanVisit(st, replies)
    ensures var a, st1, st2 := st.ahead[0], Advance(st), Visit(st, replies);
            && st2.ahead == (if Due(st1.timers[a], st.now)
                             then Keep(st.ahead[1..], Stops(ReplyOf(replies, a).ops))
                             else st.ahead[1..])
            && forall x | x in st2.ahead ::
                 x in st.ahead && x in st.timers && x in st2.timers && st2.timers[x] == st.timers[x]
  {
    var a, st1 := st.ahead[0], Advance(st);
    AdvanceWellFormed(st);
    VisitedOnce(st);
    if Due(st1.timers[a], st1.now) {
      var ops := ReplyOf(replies, a).ops;
      ApplyAllAhead(st1, ops);
      WithoutAbsent(ApplyAll(st1, ops).ahead, a);
    }
  }

  lemma BeginWellFormed<T>(st: State<T>)
    requires WellFormed(st) && st.ahead == []
    ensures WellFormed(Begin(st))
  {
    assert [] + st.behind == st.behind + [];
  }

  lemma {:induction false} CalledFrom<T>(st: State<T>, replies: map<T, Reply<T>>,
                                         list: seq<T>, gone: set<T>, timers: map<T, Timer>)
    requires WellFormed(st) && WalkPermitted(st, replies)
    requires forall a | a in list :: a in timers
    requires st.ahead == Keep(list, gone)
    requires forall a | a in st.ahead :: a in timers && st.timers[a] == timers[a]
    ensures Called(st, replies) == ShouldCall(list, gone, timers, st.now, replies)
    decreases list
  {
    if list == [] {
    } else if list[0] in gone {
      CalledFrom(st, replies, list[1..], gone, timers);
    } else {
      var a, st2 := list[0], Visit(st, replies);
      assert st.ahead == [a] + Keep(list[1..], gone);
      assert st.ahead[1..] == Keep(list[1..], gone);
      VisitWellFormed(st, replies);
      VisitAhead(st, replies);
      if Due(Age(timers[a], st.now), st.now) {
        var stopped := Stops(ReplyOf(replies, a).ops);
        KeepTwice(list[1..], gone, stopped);
        CalledFrom(st2, replies, list[1..], gone + stopped, timers);
      } else {
        CalledFrom(st2, replies, list[1..], gone, timers);
        assert [] + Called(st2, replies) == Called(st2, replies);
      }
    }
  }

  /** One tick calls each due alarm once, in list order, and nothing else: alarms started by
      a callback wait for later ticks, alarms an earlier callback stopped are passed over. */
  lemma TickCallsExact<T>(st: State<T>, replies: map<T, Reply<T>>)
    requires WellFormed(st) && TickPermitted(st, replies)
    ensures TickCalls(st, replies) == ShouldCall(st.behind, {}, st.timers, st.now + 1, replies)
  {
    KeepNone(st.behind);
    BeginWellFormed(st);
    CalledFrom(Begin(st), replies, st.behind, {}, st.timers);
  }

  // ----- what a tick leaves on the list -----

  /** A list operation on the plain list of alarms. */
  function Edit<T(==)>(list: seq<T>, ops: seq<Op<T>>): seq<T>
    decreases |ops|
  {
    if ops == [] then list
    else Edit(match ops[0] case Start(a, _) => [a] + list case Stop(a) => Without(list, a), ops[1..])
  }

  /** What calling a does to the list, a 0 answer counting as stopping oneself. */
  function OpsOf<T>(a: T, r: Reply<T>): seq<Op<T>>
  {
    r.ops + if r.next == 0 then [Stop(a)] else []
  }

  /** Everything the called alarms do to the list. */
  function Edits<T(==)>(calls: seq<T>, replies: map<T, Reply<T>>): seq<Op<T>>
  {
    if calls == [] then [] else OpsOf(calls[0], ReplyOf(replies, calls[0])) + Edits(calls[1..], replies)
  }

  lemma {:induction false} EditAppend<T>(list: seq<T>, ops: seq<Op<T>>, more: seq<Op<T>>)
    ensures Edit(list, ops + more) == Edit(Edit(list, ops), more)
    decreases |ops|
  {
    if ops == [] {
      assert ops + more == more;
    } else {
      assert (ops + more)[1..] == ops[1..] + more;
      EditAppend(match ops[0] case Start(a, _) => [a] + list case Stop(a) => Without(list, a), ops[1..], more);
    }
  }

  lemma {:induction false} ApplyAllEdits<T>(st: State<T>, ops: seq<Op<T>>)
    ensures ApplyAll(st, ops).behind + ApplyAll(st, ops).ahead == Edit(st.behind + st.ahead, ops)
    decreases |ops|
  {
    if ops != [] {
      match ops[0]
      case Start(a, _) =>
        assert ([a] + st.behind) + st.ahead == [a] + (st.behind + st.ahead);
        ApplyAllEdits(Apply(st, ops[0]), ops[1..]);
      case Stop(a) =>
        WithoutSplits(st.behind, st.ahead, a);
        ApplyAllEdits(Apply(st, ops[0]), ops[1..]);
    }
  }

  lemma EditsCons<T>(a: T, calls: seq<T>, replies: map<T, Reply<T>>)
    ensures Edits([a] + calls, replies) == Edits([a], replies) + Edits(calls, replies)
  {
    assert ([a] + calls)[1..] == calls;
    assert Edits([], replies) == [];
  }

  lemma ServeEdits<T>(st: State<T>, a: T, r: Reply<T>)
    requires a in st.timers
    ensures var st' := Serve(st, a, r);
            st'.behind + st'.ahead ==
            if Due(st.timers[a], st.now) then Edit(st.behind + st.ahead, OpsOf(a, r)) else st.behind + st.ahead
  {
    if Due(st.timers[a], st.now) {
      var st2 := ApplyAll(st, r.ops);
      ApplyAllEdits(st, r.ops);
      if r.next == 0 {
        WithoutSplits(st2.behind, st2.ahead, a);
        EditAppend(st.behind + st.ahead, r.ops, [Stop(a)]);
      } else {
        assert OpsOf(a, r) == r.ops;
      }
    }
  }

  lemma VisitEdits<T>(st: State<T>, replies: map<T, Reply<T>>)
    requires CanVisit(st, replies)
    ensures var a, st2 := st.ahead[0], Visit(st, replies);
            st2.behind + st2.ahead ==
            if Due(Advance(st).timers[a], st.now) then Edit(st.behind + st.ahead, Edits([a], replies))
            else st.behind + st.ahead
  {
    var a := st.ahead[0];
    ServeEdits(Advance(st), a, ReplyOf(replies, a));
    assert Advance(st).behind + Advance(st).ahead == st.behind + st.ahead;
    var ops := OpsOf(a, ReplyOf(replies, a));
    assert Edits([], replies) == [] && Edits([a], replies) == ops + Edits([a][1..], replies) == ops;
  }

  /** A tick leaves on the list what it began with, edited by the callbacks in order: the
      alarms not due, those re-armed and those newly started, less those stopped. */
  lemma {:induction false} WalkLeaves<T>(st: State<T>, replies: map<T, Reply<T>>)
    requires WalkPermitted(st, replies)
    ensures Walk(st, replies).behind == Edit(st.behind + st.ahead, Edits(Called(st, replies), replies))
    decreases |st.ahead|
  {
    if st.ahead == [] {
      assert st.behind + st.ahead == st.behind;
    } else {
      var a, st2 := st.ahead[0], Visit(st, replies);
      VisitEdits(st, replies);
      WalkLeaves(st2, replies);
      hide Edits, Serve, Edit;
      if Due(Advance(st).timers[a], st.now) {
        EditsCons(a, Called(st2, replies), replies);
        EditAppend(st.behind + st.ahead, Edits([a], replies), Edits(Called(st2, replies), replies));
      } else {
        assert Called(st, replies) == Called(st2, replies);
      }
    }
  }
}
