/** The alarm service on the heap: the circular doubly linked list of alt_llist.h, and
    alt_alarm_start, alt_alarm_stop and alt_tick over it, proved against AlarmSpec. */
module Alarms {
  import opened AlarmSpec
  import opened AlarmWalk

  /** An alt_alarm; the list head is one whose time is never used. Links start out null. */
  class Alarm {
    var next: Alarm?
    var previous: Alarm?
    var time: nat
    var rollover: bool

    constructor ()
      ensures next == null && previous == null
    {
      next, previous, time, rollover := null, null, 0, false;
    }

    /** ALT_LLIST_HEAD: a head alone is an empty list. */
    constructor Head()
      ensures Circular(this, [])
    {
      next, previous, time, rollover := this, this, 0, false;
    }

    predicate Alone()
      reads this
    {
      next == this && previous == this
    }
  }

  /** One cycle through head and the entries in order, its two directions mutually inverse. */
  ghost predicate Circular(head: Alarm, list: seq<Alarm>)
    reads head, list
  {
    var s := [head] + list + [head];
    && head !in list && Distinct(list)
    && forall i | 0 <= i < |s| - 1 :: s[i].next == s[i + 1] && s[i + 1].previous == s[i]
  }

  lemma {:induction false} WithoutAt<T>(s: seq<T>, k: nat)
    requires k < |s| && Distinct(s)
    ensures Without(s, s[k]) == s[..k] + s[k + 1..]
  {
    if k == 0 {
      assert s[k] !in s[1..];
      WithoutAbsent(s[1..], s[0]);
    } else {
      WithoutAt(s[1..], k - 1);
      assert s[1..][..k - 1] == s[1..k];
      assert s[1..][k..] == s[k + 1..];
    }
  }

  /** alt_llist_insert. Inserting an entry that is on the list already breaks the cycle. */
  method Insert(head: Alarm, entry: Alarm, ghost list: seq<Alarm>)
    requires Circular(head, list) && head.next != null && entry != head
    modifies entry`next, entry`previous, head`next, head.next`previous
    ensures entry !in list ==> Circular(head, [entry] + list)
    ensures entry in list ==> forall l :: !Circular(head, l)
  {
    ghost var s := [head] + list + [head];
    assert s[0].next == s[1];
    forall i | 0 <= i < |list| - 1
      ensures list[i].next == list[i + 1]
    {
      assert s[i + 1].next == s[i + 2];
    }
    entry.previous := head;
    entry.next := head.next;
    head.next.previous := entry;
    head.next := entry;
    ghost var t := [head] + ([entry] + list) + [head];
    assert forall i | 2 <= i < |t| :: t[i] == s[i - 1];
    if entry in list {
      assert forall i | 0 <= i < IndexOf(list, entry) :: list[i].next == list[i + 1];
      forall l
        ensures !Circular(head, l)
      {
        Knotted(head, entry, list, l);
      }
    }
  }

  /** An entry inserted a second time leads back to itself past the head. */
  lemma Knotted(head: Alarm, entry: Alarm, list: seq<Alarm>, l: seq<Alarm>)
    requires head != entry && head !in list && entry in list && Distinct(list)
    requires head.next == entry && entry.next == list[0]
    requires forall i | 0 <= i < IndexOf(list, entry) :: list[i].next == list[i + 1]
    ensures !Circular(head, l)
  {
    if Circular(head, l) {
      var k := IndexOf(list, entry);
      Follow(head, entry, list, l, k);
      assert false;
    }
  }

  /** Round the knot: the entry, then the list down to the entry again. */
  lemma {:induction false} Follow(head: Alarm, entry: Alarm, list: seq<Alarm>, l: seq<Alarm>, k: nat)
    requires Circular(head, l) && head != entry && head !in list && k < |list|
    requires head.next == entry && entry.next == list[0]
    requires forall i | 0 <= i < k :: list[i].next == list[i + 1]
    ensures k + 1 < |l| && l[0] == entry && l[k + 1] == list[k]
  {
    var s := [head] + l + [head];
    assert s[0].next == s[1];
    if k == 0 {
      assert s[1].next == s[2];
    } else {
      Follow(head, entry, list, l, k - 1);
      assert s[k + 1] == list[k - 1] && list[k - 1].next == list[k];
      assert s[k + 1].next == s[k + 2];
    }
  }

  /** In the sequence head, entries, head no link is met twice. */
  lemma CircleDistinct(head: Alarm, list: seq<Alarm>)
    requires Circular(head, list)
    ensures var s := [head] + list + [head];
            && (forall i, j :: 0 <= i < j < |s| - 1 ==> s[i] != s[j])
            && (forall i, j :: 0 < i < j < |s| ==> s[i] != s[j])
  {
    var s := [head] + list + [head];
    assert forall i | 0 < i < |s| - 1 :: s[i] == list[i - 1];
  }

  /** Every link of the ring leads to the ring. */
  lemma CircleLinks(head: Alarm, list: seq<Alarm>, a: Alarm)
    requires Circular(head, list) && (a == head || a in list)
    ensures a.next != null && (a.next == head || a.next in list)
    ensures a.previous != null && (a.previous == head || a.previous in list)
  {
    var s := [head] + list + [head];
    var k := if a == head then 0 else IndexOf(list, a) + 1;
    assert s[k] == a && s[k].next == s[k + 1];
    var j := if k == 0 then |list| + 1 else k;
    assert s[j] == a && s[j].previous == s[j - 1];
  }

  /** alt_llist_remove; removing an entry that is already off the list changes nothing. */
  method Remove(entry: Alarm, ghost head: Alarm, ghost list: seq<Alarm>)
    requires Circular(head, list) && entry != head
    requires entry in list || entry.Alone()
    requires entry.next != null && entry.previous != null
    modifies entry`next, entry`previous, entry.next`previous, entry.previous`next
    ensures Circular(head, Without(list, entry)) && entry.Alone()
    ensures entry !in list ==> unchanged(entry)
  {
    ghost var s, k := [head] + list + [head], 0;
    ghost var t := [head] + Without(list, entry) + [head];
    if entry in list {
      k := IndexOf(list, entry);
      WithoutAt(list, k);
      CircleDistinct(head, list);
      assert s[k].next == s[k + 1] && s[k + 1].next == s[k + 2];
      assert forall i | 0 <= i < |t| :: t[i] == if i <= k then s[i] else s[i + 1];
    } else {
      WithoutAbsent(list, entry);
    }
    entry.next.previous := entry.previous;
    entry.previous.next := entry.next;
    entry.previous := entry;
    entry.next := entry;
    if entry in list {
      forall i | 0 <= i < |t| - 1
        ensures t[i].next == t[i + 1] && t[i + 1].previous == t[i]
      {
        if i < k {
          assert old(s[i].next == s[i + 1] && s[i + 1].previous == s[i]);
        } else if i > k {
          assert old(s[i + 1].next == s[i + 2] && s[i + 2].previous == s[i + 1]);
        }
      }
    }
  }

  datatype StartResult = Started | InvalidArgument | NotSupported

  class AlarmService {
    const head: Alarm
    const pool: set<Alarm>         // every alarm structure of the program
    var nticks: nat                // _alt_nticks, 32 bits
    var tickRate: nat              // _alt_tick_rate, 0 while there is no system clock
    ghost var st: State<Alarm>

    /** The heap is the 32-bit state st: its list is the ring, its timers are the fields. */
    ghost predicate Valid()
      reads this, head, pool
    {
      && head !in pool && st.timers.Keys <= pool
      && !st.ideal && WellFormed(st) && nticks == st.now % WRAP
      && Circular(head, st.behind + st.ahead)
      && (forall a | a in st.timers ::
            && st.timers[a] == Wrapped(a.time, a.rollover)
            && (a !in st.behind && a !in st.ahead ==> a.Alone()))
    }

    constructor (alarms: set<Alarm>)
      ensures Valid() && pool == alarms && st == State([], [], map[], 0, false) && tickRate == 0
      ensures fresh(head)
    {
      var h := new Alarm.Head();
      head := h;
      pool := alarms;
      nticks, tickRate := 0, 0;
      st := State([], [], map[], 0, false);
    }

    /** alt_alarm_start */
    method AlarmStart(alarm: Alarm?, ticks: nat) returns (r: StartResult)
      requires Valid() && ticks < WRAP
      requires alarm != null ==> alarm in pool && Lawful(st, Start(alarm, ticks))
      modifies this`st, head, pool
      ensures Valid()
      ensures r == (if tickRate == 0 then NotSupported else if alarm == null then InvalidArgument else Started)
      ensures st == if r == Started then Apply(old(st), Start(alarm, ticks)) else old(st)
    {
      if tickRate == 0 {
        return NotSupported;
      }
      if alarm == null {
        return InvalidArgument;
      }
      alarm.time := (ticks + nticks + 1) % WRAP;
      alarm.rollover := alarm.time < nticks;
      hide WellFormed, Distinct, Circular;
      ghost var list := st.behind + st.ahead;
      ApplyWellFormed(st, Start(alarm, ticks));
      CircleLinks(head, list, head);
      Insert(head, alarm, list);
      st := Apply(st, Start(alarm, ticks));
      assert st.behind + st.ahead == [alarm] + list;
      return Started;
    }

    /** alt_alarm_stop */
    method AlarmStop(alarm: Alarm)
      requires Valid() && alarm in st.timers
      modifies this`st, head, pool
      ensures Valid() && st == Apply(old(st), Stop(alarm))
    {
      hide WellFormed, Circular, Distinct;
      ghost var list := st.behind + st.ahead;
      StopWellFormed(st, alarm);
      if alarm in list {
        CircleLinks(head, list, alarm);
      }
      Remove(alarm, head, list);
      st := Apply(st, Stop(alarm));
    }

    /** The entry at a place of the walk. */
    ghost function Entry(p: Place<Alarm>): Alarm
    {
      if p.AtHead? then head else p.alarm
    }

    /** A callback's operations on the list, one after another. */
    method RunCallback(ops: seq<Op<Alarm>>)
      requires Valid() && tickRate != 0 && AllLawful(st, ops)
      requires forall op | op in ops :: op.alarm in pool
      modifies this`st, head, pool
      ensures Valid() && st == ApplyAll(old(st), ops)
    {
      hide Valid, Apply, Lawful;
      var i := 0;
      while i < |ops|
        invariant i <= |ops| && Valid()
        invariant AllLawful(st, ops[i..]) && ApplyAll(st, ops[i..]) == ApplyAll(old(st), ops)
      {
        assert ops[i..][0] == ops[i] && ops[i..][1..] == ops[i + 1..] && ops[i] in ops;
        RunOp(ops[i]);
        i := i + 1;
      }
    }

    method RunOp(op: Op<Alarm>)
      requires Valid() && tickRate != 0 && Lawful(st, op) && op.alarm in pool
      modifies this`st, head, pool
      ensures Valid() && st == Apply(old(st), op)
    {
      match op
      case Start(a, ticks) =>
        var r := AlarmStart(a, ticks);
      case Stop(a) =>
        AlarmStop(a);
    }

    /** The walk stands on an alarm and saves its successor. */
    method StepOnto(alarm: Alarm) returns (next: Alarm)
      requires Valid() && Standing(Walker(st, At(alarm)))
      modifies this`st, alarm`rollover
      ensures Valid() && st == Onto(old(Walker(st, At(alarm)))) && next == Entry(Saved(old(Walker(st, At(alarm)))))
    {
      hide Distinct;
      ghost var w := Walker(st, At(alarm));
      OntoWellFormed(w);
      if Listed(st, alarm) {
        ghost var s, k := [head] + (st.behind + st.ahead) + [head], |st.behind| + 1;
        assert s[k] == alarm && s[k].next == s[k + 1];
      }
      next := alarm.next;
      if alarm.rollover && nticks == 0 {
        alarm.rollover := false;
      }
      st := Onto(w);
    }

    /** The alarm just called answered `answer` > 0: set its next time. */
    method SetNext(alarm: Alarm, answer: nat)
      requires Valid() && alarm in st.timers && answer > 0
      modifies this`st, alarm`time, alarm`rollover
      ensures Valid() && st == Conclude(old(st), alarm, answer)
    {
      hide Distinct;
      alarm.time := (alarm.time + answer) % WRAP;
      if alarm.time < nticks {
        alarm.rollover := true;
      }
      st := Conclude(st, alarm, answer);
    }

    /** Call the alarm's callback if it is due, and re-arm or stop it as the callback answers. */
    method CallAlarm(alarm: Alarm, reply: Reply<Alarm>) returns (called: bool)
      requires Valid() && tickRate != 0 && alarm in st.timers
      requires Due(st.timers[alarm], st.now) ==> AllLawful(st, reply.ops)
      requires forall op | op in reply.ops :: op.alarm in pool
      modifies this`st, head, pool
      ensures Valid() && st == Serve(old(st), alarm, reply) && called == Due(old(st).timers[alarm], old(st).now)
    {
      hide WellFormed, Distinct, Circular, AllLawful, ApplyAll;
      called := alarm.time <= nticks && !alarm.rollover;
      if called {
        RunCallback(reply.ops);
        if reply.next == 0 {
          AlarmStop(alarm);
        } else {
          SetNext(alarm, reply.next);
        }
      }
    }

    /** One turn of alt_tick's loop, whatever the callback does to the list. */
    method VisitAlarm(alarm: Alarm, replies: map<Alarm, Reply<Alarm>>) returns (next: Alarm, called: bool)
      requires Valid() && tickRate != 0 && Standing(Walker(st, At(alarm)))
      requires TurnLawful(Walker(st, At(alarm)), ReplyOf(replies, alarm))
      requires forall op | op in ReplyOf(replies, alarm).ops :: op.alarm in pool
      modifies this`st, head, pool
      ensures Valid()
      ensures var w := old(Walker(st, At(alarm)));
              && Walker(st, Saved(w)) == Turn(w, ReplyOf(replies, alarm))
              && next == Entry(Saved(w)) && called == Calls(w)
    {
      ghost var w := Walker(st, At(alarm));
      assert alarm in st.timers.Keys && alarm in pool;
      hide Valid, Standing, AllLawful, Onto, Serve, Resume;
      next := StepOnto(alarm);
      called := CallAlarm(alarm, ReplyOf(replies, alarm));
      Divide(Saved(w));
    }

    /** The list is divided anew where the walk goes on. */
    ghost method Divide(at: Place<Alarm>)
      requires Valid()
      modifies this`st
      ensures Valid() && st == Resume(old(st), at)
    {
      ResumeList(st, at);
      ResumeWellFormed(st, at);
      SameMembers(st, Resume(st, at));
      hide WellFormed, Circular, Resume;
      st := Resume(st, at);
    }

    /** The counter moves on and the walk starts at the first alarm. */
    method BeginWalk() returns (alarm: Alarm)
      requires Valid() && st.ahead == []
      modifies this`st, this`nticks
      ensures Valid() && st == Begin(old(st)) && alarm == Entry(Next(st))
    {
      hide Distinct;
      CircleLinks(head, st.behind + st.ahead, head);
      ghost var s := [head] + (st.behind + st.ahead) + [head];
      assert s[0].next == s[1];
      alarm := head.next;
      DivisionStep(st.now);
      BeginWellFormed(st);
      assert [] + st.behind == st.behind + [];
      nticks := (nticks + 1) % WRAP;
      st := Begin(st);
    }

    lemma HeadReached(p: Place<Alarm>)
      requires Valid() && Standing(Walker(st, p))
      ensures Entry(p) == head <==> p == AtHead
    {
      assert p.At? ==> p.alarm in st.timers.Keys;
    }

    /** alt_tick, for a tick that ends; `replies` is what each alarm's callback does whenever it
        is called, and n the number of turns taken. */
    method AltTick(replies: map<Alarm, Reply<Alarm>>) returns (ghost calls: seq<Alarm>, ghost n: nat)
      requires Valid() && tickRate != 0 && TickEnds(st, replies)
      requires InPool(replies)
      modifies this`st, this`nticks, head, pool
      ensures Valid() && TickEnds(old(st), replies)
      ensures Walker(st, AtHead) == Turns(First(old(st)), Same(replies, n))
      ensures calls == TurnCalls(First(old(st)), Same(replies, n))
      ensures TickPermitted(old(st), replies) ==>
                st == Tick(old(st), replies) && calls == TickCalls(old(st), replies)
    {
      n := TurnsNeeded(st, replies);
      ghost var w, turns := First(st), Same(replies, n);
      hide Turns, TurnCalls, Valid, WellFormed, Same, TickPermitted;
      var alarm := BeginWalk();
      calls := WalkToHead(alarm, replies, w, turns);
    }

    /** The loop of alt_tick, from where w stands. */
    method WalkToHead(alarm: Alarm, replies: map<Alarm, Reply<Alarm>>,
                      ghost w: Walker<Alarm>, ghost turns: seq<map<Alarm, Reply<Alarm>>>)
      returns (ghost calls: seq<Alarm>)
      requires Valid() && tickRate != 0 && InPool(replies)
      requires Standing(w) && st == w.st && alarm == Entry(w.at)
      requires Underway(w, turns, [], w, turns) && Turns(w, turns).at == AtHead
      requires forall r | r in turns :: r == replies
      modifies this`st, head, pool
      ensures Valid() && Walker(st, AtHead) == Turns(w, turns) && calls == TurnCalls(w, turns)
    {
      var at := alarm;
      ghost var w', left := w, turns;
      calls := [];
      assert forall i | 0 <= i < |left| :: left[i] in left;
      hide Underway, Turn, Turns, TurnCalls, TurnLawful, Calls, Standing, Valid, InPool;
      while at != head
        invariant Valid() && Standing(w') && st == w'.st && at == Entry(w'.at)
        invariant Underway(w, turns, calls, w', left) && forall i | 0 <= i < |left| :: left[i] == replies
        decreases |left|
      {
        HeadReached(w'.at);
        if left == [] {
          TurnsTaken(w, turns, calls, w', left);
        }
        TakeTurn(w, turns, calls, w', left);
        w', left := Turn(w', ReplyOf(replies, at)), left[1..];
        at, calls := NextTurn(at, replies, calls);
      }
      HeadReached(w'.at);
      TurnsTaken(w, turns, calls, w', left);
    }

    /** Callbacks work on the program's alarms. */
    predicate InPool(replies: map<Alarm, Reply<Alarm>>)
    {
      forall a, op | a in replies && op in replies[a].ops :: op.alarm in pool
    }

    /** One turn of the loop, and the calls made so far. */
    method NextTurn(alarm: Alarm, replies: map<Alarm, Reply<Alarm>>, ghost calls: seq<Alarm>)
      returns (next: Alarm, ghost calls': seq<Alarm>)
      requires Valid() && tickRate != 0 && Standing(Walker(st, At(alarm)))
      requires TurnLawful(Walker(st, At(alarm)), ReplyOf(replies, alarm))
      requires InPool(replies)
      modifies this`st, head, pool
      ensures Valid()
      ensures var w := old(Walker(st, At(alarm)));
              var w' := Turn(w, ReplyOf(replies, alarm));
              && Standing(w') && st == w'.st && next == Entry(w'.at)
              && calls' == calls + if Calls(w) then [alarm] else []
    {
      ghost var w := Walker(st, At(alarm));
      TurnList(w, ReplyOf(replies, alarm));
      hide Turn, Standing, TurnLawful, Calls, Valid;
      var called;
      next, called := VisitAlarm(alarm, replies);
      calls' := calls + if called then [alarm] else [];
    }

    /** alt_tick for any lawful callbacks, for as many turns as `turns` has entries; `alarm` is
        where the loop stands then. */
    method AltTickFor(turns: seq<map<Alarm, Reply<Alarm>>>) returns (alarm: Alarm, ghost calls: seq<Alarm>)
      requires Valid() && tickRate != 0 && TickLawful(st, turns)
      requires forall r | r in turns :: InPool(r)
      modifies this`st, this`nticks, head, pool
      ensures Valid() && TickLawful(old(st), turns)
      ensures var w := Turns(First(old(st)), turns); st == w.st && alarm == Entry(w.at)
      ensures calls == TurnCalls(First(old(st)), turns)
    {
      ghost var w := First(st);
      assert Underway(w, turns, [], w, turns);
      hide Underway, Turns, TurnCalls, TurnLawful, TurnsLawful, Valid, WellFormed, InPool;
      alarm := BeginWalk();
      alarm, calls := WalkOn(alarm, turns, w);
    }

    /** The loop of alt_tick for at most |turns| turns, from where w stands. */
    method WalkOn(start: Alarm, turns: seq<map<Alarm, Reply<Alarm>>>, ghost w: Walker<Alarm>)
      returns (alarm: Alarm, ghost calls: seq<Alarm>)
      requires Valid() && tickRate != 0 && (forall r | r in turns :: InPool(r))
      requires Standing(w) && st == w.st && start == Entry(w.at) && Underway(w, turns, [], w, turns)
      modifies this`st, head, pool
      ensures Valid()
      ensures var w' := Turns(w, turns); st == w'.st && alarm == Entry(w'.at)
      ensures calls == TurnCalls(w, turns)
    {
      ghost var w' := w;
      var left := turns;
      alarm, calls := start, [];
      hide Underway, Turn, Turns, TurnCalls, TurnLawful, Calls, Standing, Valid, InPool;
      while alarm != head && left != []
        invariant Valid() && Standing(w') && st == w'.st && alarm == Entry(w'.at)
        invariant Underway(w, turns, calls, w', left) && forall r | r in left :: InPool(r)
        decreases |left|
      {
        HeadReached(w'.at);
        TakeTurn(w, turns, calls, w', left);
        assert left[0] in left;
        w' := Turn(w', ReplyOf(left[0], alarm));
        alarm, calls := NextTurn(alarm, left[0], calls);
        left := left[1..];
      }
      HeadReached(w'.at);
      TurnsTaken(w, turns, calls, w', left);
    }
  }
}
