/** When a tick ends, for callbacks that may do anything lawful to the list: exactly if its loop
    is never caught on an alarm off the list. */
module AlarmEnds {
  import opened AlarmSpec
  import opened AlarmRuns
  import opened AlarmWalk

  /** What a's timer reads once the loop has stood on it. */
  function AgedTimer<T>(st: State<T>, a: T): Timer
    requires a in st.timers
  {
    Age(st.timers[a], st.now)
  }

  /** x is on the list, or stood on. */
  predicate Present<T(==)>(w: Walker<T>, x: T)
  {
    Listed(w.st, x) || w.at == At(x)
  }

  /** The alarms that the loop can still call. */
  function DueHere<T>(w: Walker<T>): set<T>
  {
    set x | x in w.st.timers && Present(w, x) && Due(AgedTimer(w.st, x), w.st.now)
  }

  /** No due alarm is overdue. */
  ghost predicate Punctual<T>(w: Walker<T>)
  {
    && !w.st.ideal && WellFormed(w.st) && Standing(w)
    && forall x | x in DueHere(w) :: AgedTimer(w.st, x) == Wrapped(w.st.now % WRAP, false)
  }

  predicate AllTimely<T(==)>(replies: map<T, Reply<T>>)
  {
    forall a | a in replies :: TimelyReply(a, replies[a])
  }

  /** The loop is not caught: it stands on the list or is about to call an alarm back onto it. */
  predicate OnCourse<T(==)>(w: Walker<T>, r: Reply<T>)
    requires Standing(w) && w.at.At?
  {
    Listed(w.st, w.at.alarm) || (Calls(w) && Revives(w.at.alarm, r))
  }

  // ----- what a turn does to the timers -----

  lemma NotDueYet(t: Timer, at: nat, now: nat)
    requires Represents(t, at, now)
    ensures !Due(Age(t, now), now)
  {
  }

  lemma ArmedNotDue(now: nat, nticks: nat)
    requires nticks < WRAP - 1
    ensures !Due(Age(Arm(false, now, nticks), now), now)
  {
    ArmRepresents(now, nticks);
    NotDueYet(Arm(false, now, nticks), now + nticks + 1, now);
  }

  predicate Started<T(==)>(ops: seq<Op<T>>, x: T)
  {
    exists op | op in ops :: op.Start? && op.alarm == x
  }

  /** After a callback's operations a timer is as it was, or set by the last start. */
  lemma {:induction false} TimerAfter<T>(st: State<T>, ops: seq<Op<T>>, x: T)
    returns (restarted: bool, nticks: nat)
    requires !st.ideal && x in ApplyAll(st, ops).timers
    ensures if restarted then Start(x, nticks) in ops && ApplyAll(st, ops).timers[x] == Arm(false, st.now, nticks)
            else x in st.timers && ApplyAll(st, ops).timers[x] == st.timers[x]
    ensures Listed(ApplyAll(st, ops), x) ==> restarted || Listed(st, x)
    ensures Started(ops, x) ==> restarted
    decreases |ops|
  {
    restarted, nticks := false, 0;
    if ops != [] {
      var st1 := Apply(st, ops[0]);
      restarted, nticks := TimerAfter(st1, ops[1..], x);
      if !restarted && ops[0].Start? && ops[0].alarm == x {
        restarted, nticks := true, ops[0].nticks;
      }
    }
  }

  /** The alarm just called: it is due no more, unless it has answered 0 and is off the list. */
  lemma CalledTimer<T>(st: State<T>, a: T, r: Reply<T>)
    requires !st.ideal && a in st.timers && st.timers[a] == Wrapped(st.now % WRAP, false)
    requires TimelyReply(a, r) && r.next < WRAP
    ensures var st' := Conclude(ApplyAll(st, r.ops), a, r.next);
            && a in st'.timers
            && (Due(AgedTimer(st', a), st.now) ==> r.next == 0 && st'.timers[a] == st.timers[a])
            && (r.next == 0 ==> !Listed(st', a))
  {
    var restarted, nticks := TimerAfter(st, r.ops, a);
    if restarted {
      ArmedNotDue(st.now, nticks);
      if r.next > 0 {
        RearmAfterRestart(st.now, nticks, r.next);
        NotDueYet(Rearm(Arm(false, st.now, nticks), st.now, r.next), st.now + nticks + 1 + r.next, st.now);
      }
    } else if r.next > 0 {
      RearmRepresents(st.now, r.next);
      NotDueYet(Rearm(Wrapped(st.now % WRAP, false), st.now, r.next), st.now + r.next, st.now);
    }
  }

  /** The timers after a turn. */
  lemma TurnTimers<T>(w: Walker<T>, r: Reply<T>)
    requires Standing(w) && w.at.At?
    ensures var (w', st2) := (Turn(w, r), Serve(Onto(w), w.at.alarm, r));
            && w'.st.timers == st2.timers && w'.st.now == w.st.now && w'.st.ideal == w.st.ideal
            && forall x :: Listed(w'.st, x) <==> Listed(st2, x)
  {
    ResumeList(Serve(Onto(w), w.at.alarm, r), Saved(w));
  }

  /** A turn makes no alarm due, and the one it calls is due afterwards only if the loop is
      caught on it. */
  lemma TurnDue<T>(w: Walker<T>, r: Reply<T>, x: T)
    requires Punctual(w) && w.at.At? && TurnLawful(w, r) && TimelyReply(w.at.alarm, r)
    ensures var w' := Turn(w, r);
            && Standing(w')
            && (x in DueHere(w') ==>
                  && x in DueHere(w) && AgedTimer(w'.st, x) == Wrapped(w.st.now % WRAP, false)
                  && (Calls(w) && x == w.at.alarm ==> Stray(w', x)))
  {
    var a, w' := w.at.alarm, Turn(w, r);
    TurnList(w, r);
    TurnTimers(w, r);
    if x in DueHere(w') {
      if !Calls(w) {
        QuietTurn(w, r, x);
      } else if x == a {
        assert a in DueHere(w);
        CalledTimer(Onto(w), a, r);
        assert !Listed(w'.st, a);
      } else {
        OtherTimer(w, r, x);
      }
    }
  }

  lemma QuietTurn<T>(w: Walker<T>, r: Reply<T>, x: T)
    requires Punctual(w) && w.at.At? && !Calls(w) && Standing(Turn(w, r))
    requires x in DueHere(Turn(w, r))
    ensures x in DueHere(w) && AgedTimer(Turn(w, r).st, x) == AgedTimer(w.st, x)
  {
    TurnTimers(w, r);
    assert Serve(Onto(w), w.at.alarm, r) == Onto(w);
    assert Onto(w).behind + Onto(w).ahead == w.st.behind + w.st.ahead;
  }

  lemma OtherTimer<T>(w: Walker<T>, r: Reply<T>, x: T)
    requires Punctual(w) && w.at.At? && Calls(w) && TimelyReply(w.at.alarm, r) && x != w.at.alarm
    requires Standing(Turn(w, r)) && x in DueHere(Turn(w, r))
    ensures x in DueHere(w) && AgedTimer(Turn(w, r).st, x) == AgedTimer(w.st, x)
  {
    TurnTimers(w, r);
    assert Onto(w).behind + Onto(w).ahead == w.st.behind + w.st.ahead;
    var restarted, nticks := TimerAfter(Onto(w), r.ops, x);
    if restarted {
      ArmedNotDue(w.st.now, nticks);
    }
  }

  lemma TurnPunctual<T>(w: Walker<T>, r: Reply<T>)
    requires Punctual(w) && w.at.At? && TurnLawful(w, r) && TimelyReply(w.at.alarm, r)
    ensures Punctual(Turn(w, r)) && DueHere(Turn(w, r)) <= DueHere(w)
    ensures Calls(w) && w.at.alarm in DueHere(Turn(w, r)) ==> Stray(Turn(w, r), w.at.alarm)
  {
    var w' := Turn(w, r);
    OntoWellFormed(w);
    ServeWellFormed(Onto(w), w.at.alarm, r);
    ResumeWellFormed(Serve(Onto(w), w.at.alarm, r), Saved(w));
    TurnTimers(w, r);
    TurnList(w, r);
    hide Turn, WellFormed, DueHere, TurnLawful, TimelyReply, Calls;
    forall x | x in DueHere(w')
      ensures x in DueHere(w) && AgedTimer(w'.st, x) == Wrapped(w.st.now % WRAP, false)
      ensures Calls(w) && x == w.at.alarm ==> Stray(w', x)
    {
      TurnDue(w, r, x);
    }
  }

  // ----- how long a tick can last -----

  lemma {:induction false} Fewer<T>(a: set<T>, b: set<T>)
    requires a <= b
    ensures |a| <= |b| && (a != b ==> |a| < |b|)
  {
    if a != {} {
      var x :| x in a;
      Fewer(a - {x}, b - {x});
    }
  }

  /** A turn of a loop on its course leaves fewer alarms to be called, or a shorter way to go. */
  lemma TurnShrinks<T>(w: Walker<T>, r: Reply<T>)
    requires Punctual(w) && w.at.At? && TurnLawful(w, r) && TimelyReply(w.at.alarm, r) && OnCourse(w, r)
    ensures var w' := Turn(w, r);
            && Punctual(w')
            && (|DueHere(w')| < |DueHere(w)|
                || (|DueHere(w')| == |DueHere(w)| && |w'.st.ahead| < |w.st.ahead|))
  {
    var a, w' := w.at.alarm, Turn(w, r);
    TurnPunctual(w, r);
    Fewer(DueHere(w'), DueHere(w));
    if Calls(w) {
      assert a in DueHere(w);
      if a in DueHere(w') {
        CaughtOn(w, r);
      }
    } else {
      OntoWellFormed(w);
      ResumeNext(Onto(w));
    }
  }

  lemma CaughtOn<T>(w: Walker<T>, r: Reply<T>)
    requires Standing(w) && WellFormed(w.st) && w.at.At? && Calls(w) && Stray(Turn(w, r), w.at.alarm)
    ensures !OnCourse(w, r)
  {
    if Listed(w.st, w.at.alarm) {
      VisitedOnce(w.st);
    } else {
      StrayTurn(w, w.at.alarm, r);
    }
  }

  /** The loop, taken a turn at a time, is never caught before it is at the head, and no callback
      does anything unlawful. */
  ghost predicate FindsHead<T>(w: Walker<T>, replies: map<T, Reply<T>>)
    requires Punctual(w) && AllTimely(replies)
    decreases |DueHere(w)|, |w.st.ahead|
  {
    w.at.AtHead? ||
    var r := ReplyOf(replies, w.at.alarm);
    TurnLawful(w, r) && OnCourse(w, r) &&
    (TurnShrinks(w, r); FindsHead(Turn(w, r), replies))
  }

  lemma {:induction false} FoundIsReached<T>(w: Walker<T>, replies: map<T, Reply<T>>) returns (n: nat)
    requires Punctual(w) && AllTimely(replies) && FindsHead(w, replies)
    ensures TurnsLawful(w, Same(replies, n)) && Turns(w, Same(replies, n)).at == AtHead
    decreases |DueHere(w)|, |w.st.ahead|
  {
    n := 0;
    if w.at.At? {
      var r := ReplyOf(replies, w.at.alarm);
      TurnShrinks(w, r);
      n := FoundIsReached(Turn(w, r), replies);
      n := n + 1;
      SameOnce(w, replies, n);
    }
  }

  lemma {:induction false} ReachedIsFound<T>(w: Walker<T>, replies: map<T, Reply<T>>, n: nat)
    requires Punctual(w) && AllTimely(replies)
    requires TurnsLawful(w, Same(replies, n)) && Turns(w, Same(replies, n)).at == AtHead
    ensures FindsHead(w, replies)
    decreases n
  {
    if w.at.At? {
      var a, r := w.at.alarm, ReplyOf(replies, w.at.alarm);
      if n == 0 {
        assert false;
      }
      SameOnce(w, replies, n);
      if !OnCourse(w, r) {
        StrayForever(w, a, Same(replies, n));
        assert false;
      }
      TurnShrinks(w, r);
      ReachedIsFound(Turn(w, r), replies, n - 1);
    }
  }

  /** The timer keeps a deadline that is still to come after the tick `now`. */
  ghost predicate Coming(t: Timer, now: nat)
  {
    exists at: nat :: Represents(t, at, now)
  }

  /** Every alarm on the list has its deadline still to come. */
  ghost predicate UpToDate<T>(st: State<T>)
  {
    && !st.ideal && WellFormed(st) && st.ahead == []
    && forall a | a in st.behind :: Coming(st.timers[a], st.now)
  }

  lemma FirstPunctual<T>(st: State<T>)
    requires UpToDate(st)
    ensures Punctual(First(st))
  {
    BeginWellFormed(st);
    NextStanding(Begin(st));
    var w := First(st);
    forall x | x in DueHere(w)
      ensures AgedTimer(w.st, x) == Wrapped(w.st.now % WRAP, false)
    {
      assert x in st.behind && Coming(st.timers[x], st.now);
      var at: nat :| Represents(st.timers[x], at, st.now);
      TickExact(st.timers[x], at, st.now);
    }
  }

  /** A tick gets back to the head of the list if and only if its loop is never caught: it never
      stands on an alarm off the list that is not due or that its own callback does not put
      back. */
  lemma TickEndsExact<T>(st: State<T>, replies: map<T, Reply<T>>)
    requires UpToDate(st) && AllTimely(replies)
    ensures Punctual(First(st))
    ensures Ends(First(st), replies) <==> FindsHead(First(st), replies)
  {
    FirstPunctual(st);
    var w := First(st);
    if Ends(w, replies) {
      var n: nat :| TurnsLawful(w, Same(replies, n)) && Turns(w, Same(replies, n)).at == AtHead;
      ReachedIsFound(w, replies, n);
    }
    if FindsHead(w, replies) {
      var n := FoundIsReached(w, replies);
    }
  }

  /** So it does if no callback stops the saved successor. */
  lemma PermittedFindsHead<T>(st: State<T>, replies: map<T, Reply<T>>)
    requires UpToDate(st) && AllTimely(replies) && TickPermitted(st, replies)
    ensures Punctual(First(st)) && FindsHead(First(st), replies)
  {
    FirstPunctual(st);
    BeginWellFormed(st);
    PermittedEnds(Begin(st), replies, |st.behind|);
    ReachedIsFound(First(st), replies, |st.behind|);
  }

  // ----- what a tick that ends leaves -----

  /** The alarms before b. */
  function Before<T(==)>(list: seq<T>, b: T): seq<T>
  {
    if list == [] || list[0] == b then [] else [list[0]] + Before(list[1..], b)
  }

  lemma {:induction false} BeforeIndex<T>(list: seq<T>, b: T)
    requires b in list
    ensures Before(list, b) == list[..IndexOf(list, b)]
  {
    if list[0] != b {
      BeforeIndex(list[1..], b);
    }
  }

  lemma {:induction false} BeforeWithout<T>(list: seq<T>, c: T, b: T, x: T)
    requires b in Without(list, c) && x in Before(Without(list, c), b)
    ensures x in Before(list, b)
  {
    if list[0] == c {
      BeforeWithout(list[1..], c, b, x);
    } else if x != list[0] {
      assert Without(list, c)[1..] == Without(list[1..], c);
      BeforeWithout(list[1..], c, b, x);
    }
  }

  /** Only alarms started by the operations can get in front of b. */
  lemma {:induction false} EditBefore<T>(list: seq<T>, ops: seq<Op<T>>, b: T, x: T)
    requires b in Edit(list, ops) && x in Before(Edit(list, ops), b)
    ensures Started(ops, x) || (b in list && x in Before(list, b))
    decreases |ops|
  {
    if ops != [] {
      match ops[0]
      case Start(c, _) =>
        EditBefore([c] + list, ops[1..], b, x);
        assert ([c] + list)[1..] == list;
        assert ops[0] in ops;
      case Stop(c) =>
        EditBefore(Without(list, c), ops[1..], b, x);
        if !Started(ops[1..], x) {
          BeforeWithout(list, c, b, x);
        }
    }
  }

  /** What the loop has passed is up to date; what it has yet to reach was so before this tick. */
  ghost predicate Current<T>(w: Walker<T>)
  {
    && Punctual(w) && w.st.now > 0
    && (forall x | x in w.st.timers && Present(w, x) ::
          Coming(w.st.timers[x], w.st.now) || Coming(w.st.timers[x], w.st.now - 1))
    && (w.at.At? ==> Listed(w.st, w.at.alarm) ==> forall x | x in w.st.behind :: Coming(w.st.timers[x], w.st.now))
    && (w.at.AtHead? ==> forall x | x in w.st.behind :: Coming(w.st.timers[x], w.st.now))
  }

  lemma ComingStays(t: Timer, now: nat)
    requires Coming(t, now)
    ensures Age(t, now) == t
  {
    var at: nat :| Represents(t, at, now);
    NotDueYet(t, at, now);
  }

  /** An alarm stood on but not due has its deadline still to come. */
  lemma PassedOver(t: Timer, now: nat)
    requires now > 0 && (Coming(t, now) || Coming(t, now - 1)) && !Due(Age(t, now), now)
    ensures Coming(Age(t, now), now)
  {
    if Coming(t, now) {
      ComingStays(t, now);
    } else {
      var at: nat :| Represents(t, at, now - 1);
      TickExact(t, at, now - 1);
      assert Represents(Age(t, now), at, now);
    }
  }

  /** The timer of an alarm on the list after a turn: still to come, or as it was and not
      started meanwhile. */
  lemma ListedTimer<T>(w: Walker<T>, r: Reply<T>, x: T)
    requires Current(w) && w.at.At? && TurnLawful(w, r) && TimelyReply(w.at.alarm, r)
    requires Standing(Turn(w, r)) && Listed(Turn(w, r).st, x)
    ensures x in Turn(w, r).st.timers
    ensures var t := Turn(w, r).st.timers[x];
            || Coming(t, w.st.now)
            || (x != w.at.alarm && Listed(w.st, x) && t == w.st.timers[x] && !(Calls(w) && Started(r.ops, x)))
  {
    var a, st1 := w.at.alarm, Onto(w);
    TurnTimers(w, r);
    assert st1.behind + st1.ahead == w.st.behind + w.st.ahead;
    assert forall y | y in st1.behind + st1.ahead :: y in st1.timers;
    assert Calls(w) ==> st1.timers[a] == Wrapped(w.st.now % WRAP, false) by {
      assert Calls(w) ==> a in DueHere(w);
    }
    assert Listed(w.st, x) ==> x in w.st.timers;
    assert !Calls(w) ==> Serve(st1, a, r) == st1;
    hide Standing, WellFormed, DueHere, Turn, ApplyAll, Conclude, Onto, Coming, Started, Age, Punctual;
    if !Calls(w) {
      QuietComing(w, x);
    } else if x == a {
      CalledComing(st1, a, r);
    } else {
      OtherComing(st1, a, r, x);
    }
  }

  lemma QuietComing<T>(w: Walker<T>, x: T)
    requires Current(w) && w.at.At? && !Calls(w) && Listed(w.st, x)
    ensures x in Onto(w).timers && x in w.st.timers
    ensures Coming(Onto(w).timers[x], w.st.now) || (x != w.at.alarm && Onto(w).timers[x] == w.st.timers[x])
  {
    hide Coming;
    if x == w.at.alarm {
      PassedOver(w.st.timers[x], w.st.now);
    }
  }

  lemma OtherComing<T>(st: State<T>, a: T, r: Reply<T>, x: T)
    requires !st.ideal && a in st.timers && x != a && TimelyReply(a, r)
    requires forall y | y in st.behind + st.ahead :: y in st.timers
    requires Listed(Conclude(ApplyAll(st, r.ops), a, r.next), x)
    ensures var st' := Conclude(ApplyAll(st, r.ops), a, r.next);
            && x in st'.timers
            && (Coming(st'.timers[x], st.now)
                || (Listed(st, x) && st'.timers[x] == st.timers[x] && !Started(r.ops, x)))
  {
    assert Listed(ApplyAll(st, r.ops), x);
    OpsKeepTimers(st, r.ops);
    var restarted, nticks := TimerAfter(st, r.ops, x);
    if restarted {
      ArmRepresents(st.now, nticks);
    }
  }

  /** What stands before the place the loop goes on at: alarms it has passed, or that were started
      in this turn. */
  lemma PassedBefore<T>(w: Walker<T>, r: Reply<T>, x: T)
    requires Standing(w) && WellFormed(w.st) && w.at.At? && OnCourse(w, r)
    requires Standing(Turn(w, r)) && WellFormed(Turn(w, r).st) && x in Turn(w, r).st.behind
    requires Turn(w, r).at.At? ==> Listed(Turn(w, r).st, Turn(w, r).at.alarm)
    ensures x == w.at.alarm || (Listed(w.st, w.at.alarm) && x in w.st.behind) || (Calls(w) && Started(r.ops, x))
  {
    var a, w' := w.at.alarm, Turn(w, r);
    var list, list' := w.st.behind + w.st.ahead, w'.st.behind + w'.st.ahead;
    TurnList(w, r);
    if w'.at.AtHead? {
      assert x in list';
      if Calls(w) {
        EditListed(list, OpsOf(a, r), x);
        if !Started(r.ops, x) { StaysOff(OpsOf(a, r), x, x in list); }
      }
    } else {
      var b := w'.at.alarm;
      BehindIsBefore(w', b);
      assert x in Before(list', b);
      if Calls(w) {
        EditBefore(list, OpsOf(a, r), b, x);
      }
      if b in list && x in Before(list, b) {
        BeforeSaved(w, b, x);
      }
    }
  }

  lemma BehindIsBefore<T>(w: Walker<T>, b: T)
    requires Standing(w) && WellFormed(w.st) && w.at == At(b) && Listed(w.st, b)
    ensures Before(w.st.behind + w.st.ahead, b) == w.st.behind
  {
    var list := w.st.behind + w.st.ahead;
    assert list[|w.st.behind|] == b;
    IndexAt(list, |w.st.behind|);
    BeforeIndex(list, b);
  }

  lemma BeforeSaved<T>(w: Walker<T>, b: T, x: T)
    requires Standing(w) && WellFormed(w.st) && w.at.At? && Saved(w) == At(b)
    requires b in w.st.behind + w.st.ahead && x in Before(w.st.behind + w.st.ahead, b)
    ensures Listed(w.st, w.at.alarm) && (x == w.at.alarm || x in w.st.behind)
  {
    var list, k := w.st.behind + w.st.ahead, |w.st.behind| + 1;
    assert list[k] == b;
    IndexAt(list, k);
    BeforeIndex(list, b);
    assert list[..k] == w.st.behind + [w.at.alarm];
  }

  /** The timer of a saved successor that the callback has stopped. */
  lemma StoodTimer<T>(w: Walker<T>, r: Reply<T>, x: T)
    requires Current(w) && w.at.At? && TurnLawful(w, r) && TimelyReply(w.at.alarm, r) && OnCourse(w, r)
    requires Stray(Turn(w, r), x)
    ensures var t := Turn(w, r).st.timers[x]; Coming(t, w.st.now) || Coming(t, w.st.now - 1)
  {
    TurnTimers(w, r);
    TurnList(w, r);
    if !Listed(w.st, w.at.alarm) {
      StrayTurn(w, w.at.alarm, r);
      assert false;
    }
    VisitedOnce(w.st);
    assert x in w.st.ahead[1..] && x != w.at.alarm;
    assert Calls(w);
    StoppedComing(Onto(w), w.at.alarm, r, x);
  }

  lemma StoppedComing<T>(st: State<T>, a: T, r: Reply<T>, x: T)
    requires !st.ideal && a in st.timers && x in st.timers && x != a && TimelyReply(a, r)
    ensures var st' := Conclude(ApplyAll(st, r.ops), a, r.next);
            x in st'.timers && (Coming(st'.timers[x], st.now) || st'.timers[x] == st.timers[x])
  {
    var restarted, nticks := TimerAfter(st, r.ops, x);
    if restarted {
      ArmRepresents(st.now, nticks);
    }
  }

  /** A turn of a loop on its course keeps what it passes up to date. */
  lemma TurnCurrent<T>(w: Walker<T>, r: Reply<T>)
    requires Current(w) && w.at.At? && TurnLawful(w, r) && TimelyReply(w.at.alarm, r) && OnCourse(w, r)
    ensures Current(Turn(w, r))
  {
    var w' := Turn(w, r);
    TurnPunctual(w, r);
    TurnTimers(w, r);
    TurnList(w, r);
    forall x | x in w'.st.timers && Present(w', x)
      ensures Coming(w'.st.timers[x], w.st.now) || Coming(w'.st.timers[x], w.st.now - 1)
    {
      if Listed(w'.st, x) {
        ListedTimer(w, r, x);
      } else {
        StoodTimer(w, r, x);
      }
    }
    if w'.at.At? ==> Listed(w'.st, w'.at.alarm) {
      forall x | x in w'.st.behind
        ensures x in w'.st.timers && Coming(w'.st.timers[x], w.st.now)
      {
        ListedTimer(w, r, x);
        PassedBefore(w, r, x);
      }
    }
  }

  lemma {:induction false} StaysOff<T>(ops: seq<Op<T>>, x: T, on: bool)
    requires !Started(ops, x)
    ensures OnAfter(ops, x, on) ==> on
    decreases |ops|
  {
    if ops != [] {
      assert ops[0] in ops;
      StaysOff(ops[1..], x, if ops[0].alarm == x then ops[0].Start? else on);
    }
  }

  lemma CalledComing<T>(st: State<T>, a: T, r: Reply<T>)
    requires !st.ideal && a in st.timers && st.timers[a] == Wrapped(st.now % WRAP, false)
    requires TimelyReply(a, r) && r.next < WRAP
    ensures var st' := Conclude(ApplyAll(st, r.ops), a, r.next);
            a in st'.timers && (Listed(st', a) ==> Coming(st'.timers[a], st.now))
  {
    var restarted, nticks := TimerAfter(st, r.ops, a);
    if r.next > 0 {
      if restarted {
        RearmAfterRestart(st.now, nticks, r.next);
      } else {
        RearmRepresents(st.now, r.next);
      }
    }
  }

  lemma {:induction false} EndsCurrent<T>(w: Walker<T>, replies: map<T, Reply<T>>, n: nat)
    requires Current(w) && AllTimely(replies)
    requires TurnsLawful(w, Same(replies, n)) && Turns(w, Same(replies, n)).at == AtHead
    ensures Current(Turns(w, Same(replies, n))) && Turns(w, Same(replies, n)).st.now == w.st.now
    decreases n
  {
    hide Turn;
    if w.at.At? && n > 0 {
      var a, r := w.at.alarm, ReplyOf(replies, w.at.alarm);
      SameOnce(w, replies, n);
      if !OnCourse(w, r) {
        StrayForever(w, a, Same(replies, n));
        assert false;
      }
      TurnCurrent(w, r);
      TurnList(w, r);
      EndsCurrent(Turn(w, r), replies, n - 1);
    }
  }

  /** A tick that ends, even past stopped successors, has missed no due alarm: every alarm it
      leaves on the list has its deadline still to come. */
  lemma EndedTickUpToDate<T>(st: State<T>, replies: map<T, Reply<T>>, n: nat)
    requires UpToDate(st) && AllTimely(replies)
    requires TickLawful(st, Same(replies, n)) && Turns(First(st), Same(replies, n)).at == AtHead
    ensures UpToDate(Turns(First(st), Same(replies, n)).st)
    ensures Turns(First(st), Same(replies, n)).st.now == st.now + 1
  {
    FirstPunctual(st);
    EndsCurrent(First(st), replies, n);
  }

  lemma {:induction false} RunRests<T>(st: State<T>, events: seq<Event<T>>)
    requires st.ahead == [] && RunPossible(st, events)
    ensures Run(st, events).ahead == []
    decreases |events|
  {
    if events != [] {
      RunRests(After(st, events[0]), events[1..]);
    }
  }

  /** Every timely run leaves the service up to date. */
  lemma RunUpToDate<T>(events: seq<Event<T>>)
    requires RunPossible(Reset<T>(false), events) && forall e | e in events :: Timely(e)
    ensures UpToDate(Run(Reset<T>(false), events))
  {
    SimRun(Reset(false), Reset(true), events);
    RunRests(Reset<T>(false), events);
    var c, i := Run(Reset<T>(false), events), Run(Reset<T>(true), events);
    forall a | a in c.behind
      ensures Coming(c.timers[a], c.now)
    {
      assert Represents(c.timers[a], i.timers[a].at, c.now);
    }
  }

  // ----- a tick caught on the second alarm it loses -----

  const DUE: Timer := Wrapped(1, false)
  const NEXT: Timer := Wrapped(2, false)
  const LATER: Timer := Wrapped(8, false)

  /** Four alarms, all due on the first tick. */
  datatype Cast<!T> = Cast(a: T, b: T, c: T, d: T)

  predicate Differ<T(==)>(x: Cast<T>)
  {
    x.a != x.b && x.a != x.c && x.a != x.d && x.b != x.c && x.b != x.d && x.c != x.d
  }

  /** a stops b, which starts itself again; then c stops d. */
  function Script<T>(x: Cast<T>): map<T, Reply<T>>
  {
    map[x.a := Reply([Stop(x.b)], 1), x.b := Reply([Start(x.b, 5)], 1), x.c := Reply([Stop(x.d)], 0)]
  }

  function Four<T>(x: Cast<T>, behind: seq<T>, ahead: seq<T>, a: Timer, b: Timer): State<T>
  {
    State(behind, ahead, map[x.a := a, x.b := b, x.c := DUE, x.d := DUE], 1, false)
  }

  /** The five turns of this tick until it is caught for the second time. */
  function Stage<T>(x: Cast<T>, k: nat): Walker<T>
    requires k <= 5
  {
    if k == 0 then Walker(Four(x, [], [x.a, x.b, x.c, x.d], DUE, DUE), At(x.a))
    else if k == 1 then Walker(Four(x, [x.a, x.c, x.d], [], NEXT, DUE), At(x.b))
    else if k == 2 then Walker(Four(x, [], [x.b, x.a, x.c, x.d], NEXT, LATER), At(x.b))
    else if k == 3 then Walker(Four(x, [x.b], [x.a, x.c, x.d], NEXT, LATER), At(x.a))
    else if k == 4 then Walker(Four(x, [x.b, x.a], [x.c, x.d], NEXT, LATER), At(x.c))
    else Walker(Four(x, [x.b, x.a], [], NEXT, LATER), At(x.d))
  }

  lemma Stands<T>(x: Cast<T>, k: nat)
    requires k <= 5 && Differ(x)
    ensures Standing(Stage(x, k))
  {
  }

  lemma OneStart<T>(st: State<T>, a: T, rest: seq<Event<T>>)
    requires st.ahead == [] && a !in st.behind && RunPossible(Apply(st, Start(a, 0)), rest)
    ensures var events: seq<Event<T>> := [Thread(Start(a, 0))] + rest;
            RunPossible(st, events) && Run(st, events) == Run(Apply(st, Start(a, 0)), rest)
  {
    var events: seq<Event<T>> := [Thread(Start(a, 0))] + rest;
    assert events[0] == Thread(Start(a, 0)) && events[1..] == rest;
  }

  /** The events that start the alarms, the last of the list first. */
  function Starts<T>(list: seq<T>): seq<Event<T>>
  {
    if list == [] then [] else [Thread(Start(list[|list| - 1], 0))] + Starts(list[..|list| - 1])
  }

  function Armed<T>(timers: map<T, Timer>, list: seq<T>, now: nat): map<T, Timer>
    decreases |list|
  {
    if list == [] then timers
    else Armed(timers[list[|list| - 1] := Arm(false, now, 0)], list[..|list| - 1], now)
  }

  /** Starting alarms one after another puts them all on the list. */
  lemma {:induction false} StartsRun<T>(st: State<T>, list: seq<T>)
    requires st.ahead == [] && !st.ideal && Distinct(list) && forall a | a in list :: a !in st.behind
    ensures RunPossible(st, Starts(list))
    ensures Run(st, Starts(list)) == State(list + st.behind, [], Armed(st.timers, list, st.now), st.now, false)
    decreases |list|
  {
    if list == [] {
      assert list + st.behind == st.behind;
    } else {
      var a, rest := list[|list| - 1], list[..|list| - 1];
      assert list == rest + [a];
      assert a !in rest;
      StartsRun(Apply(st, Start(a, 0)), rest);
      OneStart(st, a, Starts(rest));
      assert rest + ([a] + st.behind) == list + st.behind;
    }
  }

  lemma ArmedLast<T>(timers: map<T, Timer>, list: seq<T>, a: T, now: nat)
    ensures Armed(timers, list + [a], now) == Armed(timers[a := Arm(false, now, 0)], list, now)
  {
    assert (list + [a])[..|list|] == list;
  }

  /** The tick is the first after four calls of alt_alarm_start. */
  lemma CastReached<T>(x: Cast<T>)
    requires Differ(x)
    ensures var events := Starts([x.a, x.b, x.c, x.d]);
            && RunPossible(Reset(false), events)
            && Run(Reset(false), events).ahead == [] && First(Run(Reset(false), events)) == Stage(x, 0)
  {
    var list := [x.a, x.b, x.c, x.d];
    StartsRun(Reset(false), list);
    var t := Arm(false, 0, 0);
    assert t == DUE;
    ArmedLast(map[], [x.a, x.b, x.c], x.d, 0);
    ArmedLast(map[x.d := t], [x.a, x.b], x.c, 0);
    ArmedLast(map[x.d := t, x.c := t], [x.a], x.b, 0);
    ArmedLast(map[x.d := t, x.c := t, x.b := t], [], x.a, 0);
    hide RunPossible, Run, Starts, Armed;
    assert [x.a, x.b, x.c] + [x.d] == list && [x.a, x.b] + [x.c] == [x.a, x.b, x.c];
    assert [x.a] + [x.b] == [x.a, x.b] && [] + [x.a] == [x.a];
    NoneLeft(map[x.d := t, x.c := t, x.b := t, x.a := t], 0);
  }

  lemma NoneLeft<T>(timers: map<T, Timer>, now: nat)
    ensures Armed(timers, [], now) == timers
  {
  }

  /** A turn from its parts. */
  lemma TurnIs<T>(w: Walker<T>, r: Reply<T>, st: State<T>, w': Walker<T>)
    requires Standing(w) && w.at.At? && Serve(Onto(w), w.at.alarm, r) == st
    requires Saved(w) == w'.at && Resume(st, w'.at) == w'.st
    ensures Turn(w, r) == w'
  {
  }

  lemma StopSecond<T>(st: State<T>, x: Cast<T>)
    requires Differ(x) && st.behind == [x.a] && st.ahead == [x.b, x.c, x.d]
    ensures ApplyAll(st, [Stop(x.b)]) == st.(ahead := [x.c, x.d])
  {
    WithoutAbsent([x.c, x.d], x.b);
    WithoutAbsent([x.a], x.b);
    assert st.ahead[1..] == [x.c, x.d];
  }

  lemma FirstTurn<T>(x: Cast<T>)
    requires Differ(x)
    ensures Standing(Stage(x, 0)) && Turn(Stage(x, 0), Script(x)[x.a]) == Stage(x, 1)
  {
    var st, st', r := Four(x, [x.a], [x.b, x.c, x.d], DUE, DUE), Stage(x, 1).st, Reply([Stop(x.b)], 1);
    Stands(x, 0);
    assert Onto(Stage(x, 0)) == st;
    StopSecond(st, x);
    hide ApplyAll, Without, Apply, Onto, Standing;
    var rearmed := Four(x, [x.a], [x.c, x.d], NEXT, DUE);
    assert Conclude(st.(ahead := [x.c, x.d]), x.a, 1) == rearmed;
    assert Resume(rearmed, At(x.b)) == st';
    hide Resume;
    TurnIs(Stage(x, 0), r, rearmed, Stage(x, 1));
  }

  lemma SecondTurn<T>(x: Cast<T>)
    requires Differ(x)
    ensures Standing(Stage(x, 1)) && Turn(Stage(x, 1), Script(x)[x.b]) == Stage(x, 2)
  {
    var st, r := Four(x, [x.a, x.c, x.d], [], NEXT, DUE), Reply([Start(x.b, 5)], 1);
    var restarted := Four(x, [x.b, x.a, x.c, x.d], [], NEXT, LATER);
    assert Onto(Stage(x, 1)) == st;
    assert Apply(st, Start(x.b, 5)) == Four(x, [x.b, x.a, x.c, x.d], [], NEXT, Wrapped(7, false));
    assert ApplyAll(st, r.ops) == Apply(st, r.ops[0]);
    assert Serve(st, x.b, r) == restarted;
    assert Resume(restarted, At(x.b)) == Stage(x, 2).st;
  }

  /** b and a are no longer due. */
  lemma ThirdTurn<T>(x: Cast<T>, r: Reply<T>)
    requires Differ(x)
    ensures Standing(Stage(x, 2)) && Turn(Stage(x, 2), r) == Stage(x, 3)
  {
    Stands(x, 2);
    var w, w' := Stage(x, 2), Stage(x, 3);
    assert Onto(w) == w'.st;
    assert Serve(w'.st, w.at.alarm, r) == w'.st;
    assert Resume(w'.st, w'.at) == w'.st;
    hide Onto, Serve, Resume, Standing;
    TurnIs(w, r, w'.st, w');
  }

  lemma FourthTurn<T>(x: Cast<T>, r: Reply<T>)
    requires Differ(x)
    ensures Standing(Stage(x, 3)) && Turn(Stage(x, 3), r) == Stage(x, 4)
  {
    Stands(x, 3);
    var w, w' := Stage(x, 3), Stage(x, 4);
    assert Onto(w) == w'.st;
    assert Serve(w'.st, w.at.alarm, r) == w'.st;
    assert Resume(w'.st, w'.at) == w'.st;
    hide Onto, Serve, Resume, Standing;
    TurnIs(w, r, w'.st, w');
  }

  lemma FifthTurn<T>(x: Cast<T>)
    requires Differ(x)
    ensures Standing(Stage(x, 4)) && Turn(Stage(x, 4), Script(x)[x.c]) == Stage(x, 5)
  {
    var st, r := Four(x, [x.b, x.a, x.c], [x.d], NEXT, LATER), Reply([Stop(x.d)], 0);
    var stopped := Four(x, [x.b, x.a, x.c], [], NEXT, LATER);
    Stands(x, 4);
    assert Onto(Stage(x, 4)) == st;
    assert ApplyAll(st, r.ops) == stopped by {
      WithoutAbsent([x.b, x.a, x.c], x.d);
      assert st.ahead[1..] == [];
    }
    assert Apply(stopped, Stop(x.c)) == Stage(x, 5).st by {
      assert [x.b, x.a, x.c] == [x.b, x.a] + [x.c];
      WithoutSplits([x.b, x.a], [x.c], x.c);
      WithoutAbsent([x.b, x.a], x.c);
    }
    hide ApplyAll, Without, Apply, Onto, Standing;
    assert Serve(st, x.c, r) == Stage(x, 5).st;
    assert Resume(Stage(x, 5).st, At(x.d)) == Stage(x, 5).st;
    hide Serve, Resume;
    TurnIs(Stage(x, 4), r, Stage(x, 5).st, Stage(x, 5));
  }

  lemma StageLawful<T>(x: Cast<T>, k: nat)
    requires Differ(x) && k < 5
    ensures Standing(Stage(x, k)) && Stage(x, k).at.At?
    ensures TurnLawful(Stage(x, k), ReplyOf(Script(x), Stage(x, k).at.alarm))
  {
    Stands(x, k);
  }

  lemma StageTurn<T>(x: Cast<T>, k: nat)
    requires Differ(x) && k < 5
    ensures Standing(Stage(x, k)) && Stage(x, k).at.At?
    ensures Turn(Stage(x, k), ReplyOf(Script(x), Stage(x, k).at.alarm)) == Stage(x, k + 1)
    ensures TurnLawful(Stage(x, k), ReplyOf(Script(x), Stage(x, k).at.alarm))
  {
    hide Turn, Standing;
    StageLawful(x, k);
    if k == 0 {
      FirstTurn(x);
    } else if k == 1 {
      SecondTurn(x);
    } else if k == 2 {
      ThirdTurn(x, Script(x)[x.b]);
    } else if k == 3 {
      FourthTurn(x, Script(x)[x.a]);
    } else {
      FifthTurn(x);
    }
  }

  lemma {:induction false} ToStage<T>(x: Cast<T>, k: nat, n: nat)
    requires Differ(x) && k <= 5 && k <= n
    ensures Standing(Stage(x, 0)) && Standing(Stage(x, k))
    ensures Turns(Stage(x, 0), Same(Script(x), n)) == Turns(Stage(x, k), Same(Script(x), n - k))
    ensures TurnsLawful(Stage(x, 0), Same(Script(x), n)) <==> TurnsLawful(Stage(x, k), Same(Script(x), n - k))
    decreases k
  {
    Stands(x, 0);
    Stands(x, k);
    hide Stage, Turn, Turns, TurnCalls, TurnLawful, TurnsLawful, Standing, Same, Script, ReplyOf, Calls;
    if k > 0 {
      ToStage(x, k - 1, n);
      StageTurn(x, k - 1);
      SameOnce(Stage(x, k - 1), Script(x), n - k + 1);
    }
  }

  /** After one turn the loop stands on alarm b, off the list, which is due and puts itself back. */
  lemma CaughtOnce<T>(x: Cast<T>)
    requires Differ(x)
    ensures Standing(Stage(x, 0)) && Turn(Stage(x, 0), Script(x)[x.a]) == Stage(x, 1)
    ensures Stray(Stage(x, 1), x.b) && OnCourse(Stage(x, 1), Script(x)[x.b])
  {
    FirstTurn(x);
    hide Turn;
    var r: Reply<T> := Reply([Start(x.b, 5)], 1);
    assert OpsOf(x.b, r) == [Start(x.b, 5)] && OpsOf(x.b, r)[1..] == [];
    assert OnAfter(OpsOf(x.b, r)[1..], x.b, true);
  }

  lemma NeverBack<T>(b: T)
    ensures !Revives(b, Reply([], 0))
  {
    assert OpsOf(b, Reply([], 0))[1..] == [];
    assert !OnAfter(OpsOf(b, Reply([], 0))[1..], b, false);
  }

  lemma {:induction false} IdleLawful<T>(w: Walker<T>, b: T, replies: map<T, Reply<T>>, n: nat)
    requires Stray(w, b) && ReplyOf(replies, b) == Reply([], 0)
    ensures TurnsLawful(w, Same(replies, n))
    decreases n
  {
    if n > 0 {
      StrayTurn(w, b, Reply([], 0));
      NeverBack(b);
      SameOnce(w, replies, n);
      IdleLawful(Turn(w, Reply([], 0)), b, replies, n - 1);
    }
  }

  /** Yet that tick never ends, lawful and timely as it is, for the loop is caught again on alarm
      d. */
  lemma CaughtAgain<T>(x: Cast<T>, n: nat)
    requires Differ(x) && n >= 5
    ensures Standing(Stage(x, 0)) && Stray(Turns(Stage(x, 0), Same(Script(x), n)), x.d)
    ensures TurnsLawful(Stage(x, 0), Same(Script(x), n)) && AllTimely(Script(x))
  {
    Stands(x, 5);
    assert Stray(Stage(x, 5), x.d);
    assert ReplyOf(Script(x), x.d) == Reply([], 0) && AllTimely(Script(x));
    hide AllTimely, TurnsLawful, Standing, Same, Turns, Stage, Stray, Script, ReplyOf, Revives;
    ToStage(x, 5, n);
    NeverBack(x.d);
    IdleLawful(Stage(x, 5), x.d, Script(x), n - 5);
    StrayForever(Stage(x, 5), x.d, Same(Script(x), n - 5));
  }

  // ----- a tick that is never caught and never ends -----

  const LONGEST: nat := WRAP - 1

  /** x is due, y is behind it. */
  function Flip<T>(x: T, y: T, t: Timer): Walker<T>
  {
    Walker(State([], [x, y], map[x := DUE, y := t], 1, false), At(x))
  }

  /** Each of two alarms stops the other and starts it again for the longest interval, which
      makes it due at once. */
  function Duel<T>(a: T, b: T): map<T, Reply<T>>
  {
    map[a := Reply([Stop(b), Start(b, LONGEST)], 1), b := Reply([Stop(a), Start(a, LONGEST)], 1)]
  }

  lemma FlipOps<T>(st: State<T>, x: T, y: T, t: Timer)
    requires x != y && st == State([x], [y], map[x := DUE, y := t], 1, false)
    ensures var ops := [Stop(y), Start(y, LONGEST)];
            AllLawful(st, ops) && ApplyAll(st, ops) == State([y, x], [], map[x := DUE, y := DUE], 1, false)
  {
    var ops := [Stop(y), Start(y, LONGEST)];
    assert ops[1..] == [Start(y, LONGEST)] && ops[1..][1..] == [];
    var st1 := Apply(st, Stop(y));
    WithoutAbsent([x], y);
    assert Without([y], y) == [];
    assert st1 == State([x], [], map[x := DUE, y := t], 1, false);
    var st2 := Apply(st1, Start(y, LONGEST));
    assert st2 == State([y, x], [], map[x := DUE, y := DUE], 1, false);
    assert AllLawful(st2, []) && ApplyAll(st2, []) == st2;
    assert AllLawful(st1, ops[1..]) && ApplyAll(st1, ops[1..]) == st2;
  }

  lemma FlipTurn<T>(x: T, y: T, t: Timer)
    requires x != y
    ensures var r := Reply([Stop(y), Start(y, LONGEST)], 1);
            && Standing(Flip(x, y, t)) && TurnLawful(Flip(x, y, t), r)
            && Turn(Flip(x, y, t), r) == Flip(y, x, NEXT)
  {
    var w, r := Flip(x, y, t), Reply([Stop(y), Start(y, LONGEST)], 1);
    assert Onto(w) == State([x], [y], map[x := DUE, y := t], 1, false);
    FlipOps(Onto(w), x, y, t);
    var st := State([y, x], [], map[x := NEXT, y := DUE], 1, false);
    hide ApplyAll, AllLawful, Without;
    assert Serve(Onto(w), x, r) == st;
    assert Resume(st, At(y)) == Flip(y, x, NEXT).st;
    hide Serve, Resume, Onto;
    TurnIs(w, r, st, Flip(y, x, NEXT));
  }

  /** The tick is the first after two calls of alt_alarm_start. */
  lemma FlipReached<T>(a: T, b: T)
    requires a != b
    ensures RunPossible(Reset(false), Starts([a, b]))
    ensures Run(Reset(false), Starts([a, b])).ahead == []
    ensures First(Run(Reset(false), Starts([a, b]))) == Flip(a, b, DUE)
  {
    StartsRun(Reset(false), [a, b]);
    ArmedLast(map[], [a], b, 0);
    ArmedLast(map[b := DUE], [], a, 0);
    assert [a] + [b] == [a, b] && [] + [a] == [a];
    NoneLeft(map[b := DUE, a := DUE], 0);
    hide RunPossible, Run, Starts, Armed;
  }

  /** The loop is always on the list and every turn is lawful, yet the tick never ends: the
      longest interval, which is not timely, lets every call make another alarm due. */
  lemma {:induction false} NeverCaughtNeverEnds<T>(a: T, b: T, t: Timer, n: nat)
    requires a != b
    ensures Standing(Flip(a, b, t)) && TurnsLawful(Flip(a, b, t), Same(Duel(a, b), n))
    ensures var w := Turns(Flip(a, b, t), Same(Duel(a, b), n)); w.at.At? && Listed(w.st, w.at.alarm)
    decreases n
  {
    FlipTurn(a, b, t);
    hide Turn, TurnLawful, Same;
    if n > 0 {
      assert Duel(a, b) == Duel(b, a);
      SameOnce(Flip(a, b, t), Duel(a, b), n);
      NeverCaughtNeverEnds(b, a, NEXT, n - 1);
    }
  }
}
