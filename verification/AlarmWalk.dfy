/** The loop of a tick, turn by turn, for callbacks that may do anything to the list, stopping
    the saved successor included: how the loop comes to stand on an alarm off the list, and
    whether it stays there. */
module AlarmWalk {
  import opened AlarmSpec
  import opened AlarmRuns

  datatype Place<!T> = AtHead | At(alarm: T)

  /** The loop stands at `at`: the head, the alarm ahead[0] of the list, or one off the list. */
  datatype Walker<!T> = Walker(st: State<T>, at: Place<T>)

  predicate Listed<T(==)>(st: State<T>, a: T)
  {
    a in st.behind + st.ahead
  }

  /** Every alarm on the list has a timer. */
  predicate Known<T(==)>(st: State<T>)
  {
    (forall x | x in st.behind :: x in st.timers) && (forall x | x in st.ahead :: x in st.timers)
  }

  predicate Standing<T(==)>(w: Walker<T>)
  {
    && Known(w.st)
    && match w.at
       case AtHead => w.st.ahead == []
       case At(a) =>
         a in w.st.timers && if Listed(w.st, a) then w.st.ahead != [] && w.st.ahead[0] == a else w.st.ahead == []
  }

  /** The loop stands on b, which is off the list. */
  predicate Stray<T(==)>(w: Walker<T>, b: T)
  {
    Standing(w) && w.at == At(b) && !Listed(w.st, b)
  }

  /** The place the loop reads from the alarm it stands on, before anything else: an alarm off
      the list is linked to itself. */
  function Saved<T(==)>(w: Walker<T>): Place<T>
    requires Standing(w) && w.at.At?
  {
    if !Listed(w.st, w.at.alarm) then w.at
    else if |w.st.ahead| == 1 then AtHead
    else At(w.st.ahead[1])
  }

  function Aged<T>(st: State<T>, a: T): State<T>
    requires a in st.timers
  {
    st.(timers := st.timers[a := Age(st.timers[a], st.now)])
  }

  function Onto<T(==)>(w: Walker<T>): (st: State<T>)
    requires Standing(w) && w.at.At?
    ensures w.at.alarm in st.timers && st.timers[w.at.alarm] == Age(w.st.timers[w.at.alarm], w.st.now)
    ensures st.now == w.st.now
  {
    if Listed(w.st, w.at.alarm) then Advance(w.st) else Aged(w.st, w.at.alarm)
  }

  /** Divide the list where the loop goes on. */
  function Resume<T(==)>(st: State<T>, at: Place<T>): State<T>
  {
    var list := st.behind + st.ahead;
    if at.At? && at.alarm in list then
      var k := IndexOf(list, at.alarm);
      st.(behind := list[..k], ahead := list[k..])
    else st.(behind := list, ahead := [])
  }

  /** Whether the alarm the loop stands on is called. */
  predicate Calls<T(==)>(w: Walker<T>)
    requires Standing(w) && w.at.At?
  {
    Due(Age(w.st.timers[w.at.alarm], w.st.now), w.st.now)
  }

  predicate TurnLawful<T(==)>(w: Walker<T>, r: Reply<T>)
    requires Standing(w) && w.at.At?
  {
    Calls(w) ==> AllLawful(Onto(w), r.ops) && r.next < WRAP
  }

  /** One turn of the loop. */
  function Turn<T(==)>(w: Walker<T>, r: Reply<T>): Walker<T>
    requires Standing(w) && w.at.At?
  {
    Walker(Resume(Serve(Onto(w), w.at.alarm, r), Saved(w)), Saved(w))
  }

  lemma {:induction false} OpsKeepTimers<T>(st: State<T>, ops: seq<Op<T>>)
    requires Known(st)
    ensures Known(ApplyAll(st, ops))
    decreases |ops|
  {
    if ops != [] {
      OpsKeepTimers(Apply(st, ops[0]), ops[1..]);
    }
  }

  lemma ResumeList<T>(st: State<T>, at: Place<T>)
    ensures var st' := Resume(st, at);
            && st'.behind + st'.ahead == st.behind + st.ahead && st'.timers == st.timers
            && st'.now == st.now && st'.ideal == st.ideal
            && (if at.At? && Listed(st, at.alarm) then st'.ahead != [] && st'.ahead[0] == at.alarm
                else st'.ahead == [])
  {
  }

  lemma SameMembers<T>(st: State<T>, st': State<T>)
    requires st'.behind + st'.ahead == st.behind + st.ahead && st'.timers == st.timers
    ensures forall x | x in st.behind || x in st.ahead :: x in st'.behind || x in st'.ahead
    ensures Known(st) ==> Known(st')
  {
    forall x
      ensures x in st.behind || x in st.ahead <==> x in st'.behind || x in st'.ahead
    {
      assert x in st.behind + st.ahead <==> x in st'.behind + st'.ahead;
    }
  }

  /** The list after a turn. */
  lemma TurnList<T>(w: Walker<T>, r: Reply<T>)
    requires Standing(w) && w.at.At?
    ensures var w' := Turn(w, r);
            && Standing(w') && w'.at == Saved(w) && w'.st.now == w.st.now
            && w'.st.behind + w'.st.ahead ==
               if Calls(w) then Edit(w.st.behind + w.st.ahead, OpsOf(w.at.alarm, r)) else w.st.behind + w.st.ahead
  {
    var a, st1 := w.at.alarm, Onto(w);
    var st2 := Serve(st1, a, r);
    assert st1.behind + st1.ahead == w.st.behind + w.st.ahead;
    OpsKeepTimers(st1, r.ops);
    ServeEdits(st1, a, r);
    assert Known(st2);
    ResumeList(st2, Saved(w));
    SameMembers(st2, Resume(st2, Saved(w)));
  }

  // ----- which alarms a callback leaves on the list -----

  /** Whether x is on the list after the operations, if `on` says whether it was before. */
  predicate OnAfter<T(==)>(ops: seq<Op<T>>, x: T, on: bool)
  {
    if ops == [] then on else OnAfter(ops[1..], x, if ops[0].alarm == x then ops[0].Start? else on)
  }

  lemma {:induction false} EditListed<T>(list: seq<T>, ops: seq<Op<T>>, x: T)
    ensures x in Edit(list, ops) <==> OnAfter(ops, x, x in list)
    decreases |ops|
  {
    if ops != [] {
      EditListed(match ops[0] case Start(a, _) => [a] + list case Stop(a) => Without(list, a), ops[1..], x);
    }
  }

  /** Calling b when it is off the list puts it back for good. */
  predicate Revives<T(==)>(b: T, r: Reply<T>)
  {
    OnAfter(OpsOf(b, r), b, false)
  }

  /** A turn taken on an alarm off the list stands on it again, whatever its callback does, and
      puts it back on the list exactly if it calls it and the callback starts it for good. */
  lemma StrayTurn<T>(w: Walker<T>, b: T, r: Reply<T>)
    requires Stray(w, b)
    ensures Turn(w, r).at == At(b) && Standing(Turn(w, r))
    ensures Stray(Turn(w, r), b) <==> !(Calls(w) && Revives(b, r))
  {
    TurnList(w, r);
    EditListed(w.st.behind + w.st.ahead, OpsOf(b, r), b);
  }

  /** A turn loses its way exactly if its callback stops the saved successor for good. */
  lemma TurnStrays<T>(w: Walker<T>, r: Reply<T>)
    requires Standing(w) && w.at.At? && Listed(w.st, w.at.alarm) && Saved(w).At?
    ensures var b := Saved(w).alarm;
            Stray(Turn(w, r), b) <==> Calls(w) && !OnAfter(OpsOf(w.at.alarm, r), b, true)
  {
    var b := Saved(w).alarm;
    TurnList(w, r);
    EditListed(w.st.behind + w.st.ahead, OpsOf(w.at.alarm, r), b);
    assert b in w.st.behind + w.st.ahead;
  }

  // ----- many turns -----

  /** Up to |turns| turns of the loop; turns[i] is what each callback would do in turn i. */
  function Turns<T(==)>(w: Walker<T>, turns: seq<map<T, Reply<T>>>): (w': Walker<T>)
    requires Standing(w)
    ensures Standing(w')
    decreases |turns|
  {
    if turns == [] || w.at.AtHead? then w else
    var r := ReplyOf(turns[0], w.at.alarm);
    TurnList(w, r);
    Turns(Turn(w, r), turns[1..])
  }

  predicate TurnsLawful<T(==)>(w: Walker<T>, turns: seq<map<T, Reply<T>>>)
    requires Standing(w)
    decreases |turns|
  {
    turns == [] || w.at.AtHead? ||
    var r := ReplyOf(turns[0], w.at.alarm);
    TurnList(w, r);
    TurnLawful(w, r) && TurnsLawful(Turn(w, r), turns[1..])
  }

  /** The alarms called in these turns, in order. */
  function TurnCalls<T(==)>(w: Walker<T>, turns: seq<map<T, Reply<T>>>): seq<T>
    requires Standing(w)
    decreases |turns|
  {
    if turns == [] || w.at.AtHead? then [] else
    var r := ReplyOf(turns[0], w.at.alarm);
    TurnList(w, r);
    (if Calls(w) then [w.at.alarm] else []) + TurnCalls(Turn(w, r), turns[1..])
  }

  lemma TurnOnce<T>(w: Walker<T>, turns: seq<map<T, Reply<T>>>)
    requires Standing(w) && w.at.At? && turns != []
    ensures var w' := Turn(w, ReplyOf(turns[0], w.at.alarm));
            && Standing(w') && Turns(w, turns) == Turns(w', turns[1..])
            && (TurnsLawful(w, turns) <==>
                  TurnLawful(w, ReplyOf(turns[0], w.at.alarm)) && TurnsLawful(w', turns[1..]))
  {
    TurnList(w, ReplyOf(turns[0], w.at.alarm));
  }

  lemma CallOnce<T>(w: Walker<T>, turns: seq<map<T, Reply<T>>>)
    requires Standing(w) && w.at.At? && turns != []
    ensures var w' := Turn(w, ReplyOf(turns[0], w.at.alarm));
            && Standing(w')
            && TurnCalls(w, turns) == (if Calls(w) then [w.at.alarm] else []) + TurnCalls(w', turns[1..])
  {
    TurnList(w, ReplyOf(turns[0], w.at.alarm));
  }

  lemma TurnsOver<T>(w: Walker<T>, turns: seq<map<T, Reply<T>>>)
    requires Standing(w) && (turns == [] || w.at == AtHead)
    ensures Turns(w, turns) == w && TurnsLawful(w, turns) && TurnCalls(w, turns) == []
  {
  }

  /** A turn that does not call the alarm off the list does not make it due either. */
  lemma StaysQuiet<T>(w: Walker<T>, b: T, r: Reply<T>)
    requires Stray(w, b) && !Calls(w)
    ensures Stray(Turn(w, r), b) && !Calls(Turn(w, r))
  {
    StrayTurn(w, b, r);
    ResumeList(Onto(w), Saved(w));
  }

  /** The walk stands on an alarm off the list that is not due, or whose replies never start it
      for good: however many turns it takes, it stands there still. */
  lemma {:induction false} StrayForever<T>(w: Walker<T>, b: T, turns: seq<map<T, Reply<T>>>)
    requires Stray(w, b)
    requires Calls(w) ==> forall replies | replies in turns :: !Revives(b, ReplyOf(replies, b))
    ensures Stray(Turns(w, turns), b)
    decreases |turns|
  {
    if turns != [] {
      var r := ReplyOf(turns[0], b);
      TurnOnce(w, turns);
      StrayTurn(w, b, r);
      if Calls(w) {
        assert turns[0] in turns;
      } else {
        StaysQuiet(w, b, r);
      }
      StrayForever(Turn(w, r), b, turns[1..]);
    }
  }

  /** n turns in which every callback would do the same. */
  function Same<T>(replies: map<T, Reply<T>>, n: nat): (turns: seq<map<T, Reply<T>>>)
    ensures |turns| == n && forall r | r in turns :: r == replies
  {
    if n == 0 then [] else [replies] + Same(replies, n - 1)
  }

  lemma SameOnce<T>(w: Walker<T>, replies: map<T, Reply<T>>, n: nat)
    requires Standing(w) && w.at.At? && n > 0
    ensures var w' := Turn(w, ReplyOf(replies, w.at.alarm));
            && Standing(w') && Turns(w, Same(replies, n)) == Turns(w', Same(replies, n - 1))
            && (TurnsLawful(w, Same(replies, n)) <==>
                  TurnLawful(w, ReplyOf(replies, w.at.alarm)) && TurnsLawful(w', Same(replies, n - 1)))
  {
    TurnOnce(w, Same(replies, n));
    assert Same(replies, n)[0] == replies && Same(replies, n)[1..] == Same(replies, n - 1);
  }

  lemma SameCallOnce<T>(w: Walker<T>, replies: map<T, Reply<T>>, n: nat)
    requires Standing(w) && w.at.At? && n > 0
    ensures var w' := Turn(w, ReplyOf(replies, w.at.alarm));
            && Standing(w')
            && TurnCalls(w, Same(replies, n)) == (if Calls(w) then [w.at.alarm] else [])
                                                 + TurnCalls(w', Same(replies, n - 1))
  {
    CallOnce(w, Same(replies, n));
    assert Same(replies, n)[0] == replies && Same(replies, n)[1..] == Same(replies, n - 1);
  }

  /** The loop stays for ever on an alarm off the list that it stands on, if and only if that
      alarm is not due or its callback does not start it for good. */
  lemma EndlessExact<T>(w: Walker<T>, b: T, replies: map<T, Reply<T>>)
    requires Stray(w, b)
    ensures (forall n: nat :: Stray(Turns(w, Same(replies, n)), b))
            <==> !(Calls(w) && Revives(b, ReplyOf(replies, b)))
  {
    if Calls(w) && Revives(b, ReplyOf(replies, b)) {
      StrayTurn(w, b, ReplyOf(replies, b));
      SameOnce(w, replies, 1);
      assert !Stray(Turns(w, Same(replies, 1)), b);
    } else {
      forall n: nat
        ensures Stray(Turns(w, Same(replies, n)), b)
      {
        StrayForever(w, b, Same(replies, n));
      }
    }
  }

  // ----- the walk with permitted callbacks -----

  /** A permitted callback leaves the saved successor where it is. */
  lemma {:induction false} SuccessorStays<T>(st: State<T>, ops: seq<Op<T>>)
    requires AllPermitted(st, ops)
    ensures ApplyAll(st, ops).ahead == [] <==> st.ahead == []
    ensures st.ahead != [] ==> ApplyAll(st, ops).ahead[0] == st.ahead[0]
    ensures forall x | x in ApplyAll(st, ops).ahead :: x in st.ahead
    decreases |ops|
  {
    if ops != [] {
      SuccessorStays(Apply(st, ops[0]), ops[1..]);
    }
  }

  function Next<T>(st: State<T>): Place<T>
  {
    if st.ahead == [] then AtHead else At(st.ahead[0])
  }

  lemma NextStanding<T>(st: State<T>)
    requires WellFormed(st)
    ensures Standing(Walker(st, Next(st)))
  {
  }

  /** The state and place in which a tick's loop starts. */
  function First<T>(st: State<T>): Walker<T>
    requires st.ahead == []
  {
    Walker(Begin(st), Next(Begin(st)))
  }

  predicate TickLawful<T(==)>(st: State<T>, turns: seq<map<T, Reply<T>>>)
  {
    st.ahead == [] && Standing(First(st)) && TurnsLawful(First(st), turns)
  }

  ghost predicate TickEnds<T>(st: State<T>, replies: map<T, Reply<T>>)
  {
    st.ahead == [] && Standing(First(st)) && Ends(First(st), replies)
  }

  lemma OntoWellFormed<T>(w: Walker<T>)
    requires Standing(w) && w.at.At? && WellFormed(w.st)
    ensures WellFormed(Onto(w)) && Onto(w).behind + Onto(w).ahead == w.st.behind + w.st.ahead
  {
    assert Onto(w).behind + Onto(w).ahead == w.st.behind + w.st.ahead;
  }

  lemma ResumeWellFormed<T>(st: State<T>, at: Place<T>)
    requires WellFormed(st)
    ensures WellFormed(Resume(st, at))
  {
    ResumeList(st, at);
    SameMembers(st, Resume(st, at));
  }

  lemma IndexAt<T>(s: seq<T>, k: nat)
    requires k < |s| && Distinct(s)
    ensures s[k] in s && IndexOf(s, s[k]) == k
  {
    var i := IndexOf(s, s[k]);
    assert s[i] == s[k];
  }

  lemma ResumeNext<T>(st: State<T>)
    requires WellFormed(st)
    ensures Resume(st, Next(st)) == st
  {
    var list := st.behind + st.ahead;
    if st.ahead != [] {
      assert list[|st.behind|] == st.ahead[0];
      IndexAt(list, |st.behind|);
    }
  }

  /** While callbacks leave the saved successor alone, a turn is a visit. */
  lemma TurnIsVisit<T>(st: State<T>, replies: map<T, Reply<T>>)
    requires WellFormed(st) && CanVisit(st, replies)
    ensures var w, r := Walker(st, Next(st)), ReplyOf(replies, st.ahead[0]);
            && Standing(w) && TurnLawful(w, r)
            && Turn(w, r) == Walker(Visit(st, replies), Next(Visit(st, replies)))
            && (Calls(w) <==> Due(Advance(st).timers[st.ahead[0]], st.now))
  {
    NextStanding(st);
    VisitWellFormed(st, replies);
    VisitedOnce(st);
    var w, r := Walker(st, Next(st)), ReplyOf(replies, st.ahead[0]);
    if Calls(w) {
      PermittedLawful(Advance(st), r.ops);
      SuccessorStays(Advance(st), r.ops);
      WithoutAbsent(ApplyAll(Advance(st), r.ops).ahead, st.ahead[0]);
    }
    assert Saved(w) == Next(Visit(st, replies));
    ResumeNext(Visit(st, replies));
  }

  lemma VisitsOn<T>(st: State<T>, replies: map<T, Reply<T>>, n: nat)
    requires WellFormed(st) && WalkPermitted(st, replies) && st.ahead != [] && n > 0
    ensures CanVisit(st, replies) && Standing(Walker(st, Next(st)))
    ensures var st' := Visit(st, replies);
            && WellFormed(st') && WalkPermitted(st', replies) && Standing(Walker(st', Next(st')))
            && Walk(st, replies) == Walk(st', replies)
            && Turns(Walker(st, Next(st)), Same(replies, n)) == Turns(Walker(st', Next(st')), Same(replies, n - 1))
            && (TurnsLawful(Walker(st, Next(st)), Same(replies, n)) <==>
                  TurnsLawful(Walker(st', Next(st')), Same(replies, n - 1)))
            && (TurnCalls(Walker(st', Next(st')), Same(replies, n - 1)) == Called(st', replies) ==>
                  TurnCalls(Walker(st, Next(st)), Same(replies, n)) == Called(st, replies))
  {
    NextStanding(st);
    WalkStep(st, replies);
    VisitWellFormed(st, replies);
    TurnIsVisit(st, replies);
    hide Turn, TurnLawful, Visit, CanVisit, Walk, WalkPermitted, WellFormed, Standing, Turns, TurnsLawful, TurnCalls,
      Same;
    SameOnce(Walker(st, Next(st)), replies, n);
    SameCallOnce(Walker(st, Next(st)), replies, n);
  }

  /** So a permitted tick ends, after one turn for each alarm it visits. */
  lemma {:induction false} PermittedEnds<T>(st: State<T>, replies: map<T, Reply<T>>, n: nat)
    requires WellFormed(st) && WalkPermitted(st, replies) && n >= |st.ahead|
    ensures Standing(Walker(st, Next(st)))
    ensures Turns(Walker(st, Next(st)), Same(replies, n)) == Walker(Walk(st, replies), AtHead)
    ensures TurnsLawful(Walker(st, Next(st)), Same(replies, n))
    ensures TurnCalls(Walker(st, Next(st)), Same(replies, n)) == Called(st, replies)
    decreases |st.ahead|
  {
    NextStanding(st);
    hide WellFormed, Standing, Turns, TurnsLawful, TurnCalls, Called, Same, Walk, WalkPermitted, CanVisit, Visit;
    if st.ahead == [] {
      WalkDone(st, replies);
      TurnsOver(Walker(st, Next(st)), Same(replies, n));
    } else {
      VisitsOn(st, replies, n);
      PermittedEnds(Visit(st, replies), replies, n - 1);
    }
  }

  /** Some number of turns, all lawful, gets the loop to the head. */
  ghost predicate Ends<T>(w: Walker<T>, replies: map<T, Reply<T>>)
    requires Standing(w)
  {
    exists n: nat :: TurnsLawful(w, Same(replies, n)) && Turns(w, Same(replies, n)).at == AtHead
  }

  /** A loop that began at w0, has made `calls` and stands as w, with `left` of its turns to go. */
  ghost predicate Underway<T>(w0: Walker<T>, turns: seq<map<T, Reply<T>>>, calls: seq<T>,
                              w: Walker<T>, left: seq<map<T, Reply<T>>>)
  {
    && Standing(w0) && Standing(w)
    && TurnsLawful(w, left) && Turns(w, left) == Turns(w0, turns)
    && calls + TurnCalls(w, left) == TurnCalls(w0, turns)
  }

  lemma TakeTurn<T>(w0: Walker<T>, turns: seq<map<T, Reply<T>>>, calls: seq<T>,
                    w: Walker<T>, left: seq<map<T, Reply<T>>>)
    requires Underway(w0, turns, calls, w, left) && w.at.At? && left != []
    ensures Standing(w) && TurnLawful(w, ReplyOf(left[0], w.at.alarm))
    ensures Underway(w0, turns, calls + (if Calls(w) then [w.at.alarm] else []),
                     Turn(w, ReplyOf(left[0], w.at.alarm)), left[1..])
  {
    hide Turn, Turns, TurnsLawful, TurnCalls;
    TurnOnce(w, left);
    CallOnce(w, left);
  }

  lemma TurnsTaken<T>(w0: Walker<T>, turns: seq<map<T, Reply<T>>>, calls: seq<T>,
                      w: Walker<T>, left: seq<map<T, Reply<T>>>)
    requires Underway(w0, turns, calls, w, left) && (w.at == AtHead || left == [])
    ensures Standing(w0) && Turns(w0, turns) == w && TurnCalls(w0, turns) == calls
  {
    TurnsOver(w, left);
  }

  /** Once at the head, the loop takes no more turns. */
  lemma {:induction false} StaysAtHead<T>(w: Walker<T>, replies: map<T, Reply<T>>, n: nat, m: nat)
    requires Standing(w) && n <= m && Turns(w, Same(replies, n)).at == AtHead
    ensures Turns(w, Same(replies, m)) == Turns(w, Same(replies, n))
    ensures TurnCalls(w, Same(replies, m)) == TurnCalls(w, Same(replies, n))
    decreases n
  {
    hide Turn;
    if w.at.AtHead? {
      TurnsOver(w, Same(replies, n));
      TurnsOver(w, Same(replies, m));
    } else if n == 0 {
      assert false;
    } else {
      SameOnce(w, replies, n);
      SameOnce(w, replies, m);
      SameCallOnce(w, replies, n);
      SameCallOnce(w, replies, m);
      StaysAtHead(Turn(w, ReplyOf(replies, w.at.alarm)), replies, n - 1, m - 1);
    }
  }

  /** However many turns a permitted tick is given to end in, it does what AlarmSpec.Tick says. */
  lemma PermittedTick<T>(st: State<T>, replies: map<T, Reply<T>>, n: nat)
    requires WellFormed(st) && TickPermitted(st, replies)
    requires Standing(First(st)) && Turns(First(st), Same(replies, n)).at == AtHead
    ensures Turns(First(st), Same(replies, n)) == Walker(Tick(st, replies), AtHead)
    ensures TurnCalls(First(st), Same(replies, n)) == TickCalls(st, replies)
  {
    BeginWellFormed(st);
    hide Turns, TurnCalls, Same, WellFormed, Standing, WalkPermitted;
    var m := if n >= |st.behind| then n else |st.behind|;
    PermittedEnds(Begin(st), replies, m);
    StaysAtHead(First(st), replies, n, m);
  }

  /** Every permitted tick ends. */
  lemma PermittedTickEnds<T>(st: State<T>, replies: map<T, Reply<T>>)
    requires WellFormed(st) && TickPermitted(st, replies)
    ensures TickEnds(st, replies)
  {
    BeginWellFormed(st);
    PermittedEnds(Begin(st), replies, |st.behind|);
  }

  /** A number of turns in which a tick that ends does so. */
  lemma TurnsNeeded<T>(st: State<T>, replies: map<T, Reply<T>>) returns (n: nat)
    requires WellFormed(st) && TickEnds(st, replies)
    ensures Underway(First(st), Same(replies, n), [], First(st), Same(replies, n))
    ensures Turns(First(st), Same(replies, n)).at == AtHead
    ensures TickPermitted(st, replies) ==>
              && Turns(First(st), Same(replies, n)) == Walker(Tick(st, replies), AtHead)
              && TurnCalls(First(st), Same(replies, n)) == TickCalls(st, replies)
  {
    n :| TurnsLawful(First(st), Same(replies, n)) && Turns(First(st), Same(replies, n)).at == AtHead;
    if TickPermitted(st, replies) {
      PermittedTick(st, replies, n);
    }
  }

  // ----- a walk that loses its way -----

  /** Two alarms, 0 before 1, both due on the first tick. */
  const TWO: State<nat> := State([], [0, 1], map[1 := Wrapped(1, false), 0 := Wrapped(1, false)], 1, false)

  const STOPS_NEXT: Reply<nat> := Reply([Stop(1)], 0)
  const RESTARTS: Reply<nat> := Reply([Start(1, 5)], 1)

  lemma TwoReached()
    ensures var events: seq<Event<nat>> := [Thread(Start(1, 0)), Thread(Start(0, 0))];
            && RunPossible(Reset<nat>(false), events)
            && Run(Reset<nat>(false), events).ahead == []
            && Begin(Run(Reset<nat>(false), events)) == TWO
  {
    var first, second: Event<nat> := Thread(Start(1, 0)), Thread(Start(0, 0));
    var st1 := Apply(Reset<nat>(false), first.op);
    var st2 := Apply(st1, second.op);
    assert st1 == State([1], [], map[1 := Wrapped(1, false)], 0, false);
    assert [first, second][1..] == [second] && [second][1..] == [];
    assert RunPossible(st2, []) && Run(st2, []) == st2;
    assert RunPossible(st1, [second]) && Run(st1, [second]) == st2;
  }

  /** Alarm 0's callback stops alarm 1, the saved successor. */
  lemma LosesItsWay()
    ensures var w := Walker(TWO, At(0));
            && Standing(w) && TurnLawful(w, STOPS_NEXT)
            && Turn(w, STOPS_NEXT) == Walker(State([], [], TWO.timers, 1, false), At(1))
  {
  }

  /** The tick never ends if alarm 1's callback leaves it at that. */
  lemma NeverEnds(n: nat)
    requires n > 0
    ensures Standing(Walker(TWO, At(0)))
    ensures Stray(Turns(Walker(TWO, At(0)), Same(map[0 := STOPS_NEXT], n)), 1)
  {
    LosesItsWay();
    hide Turn;
    SameOnce(Walker(TWO, At(0)), map[0 := STOPS_NEXT], n);
    EndlessExact(Walker(State([], [], TWO.timers, 1, false), At(1)), 1, map[0 := STOPS_NEXT]);
  }

  /** It ends if alarm 1's callback starts alarm 1 again. */
  lemma EndsAfterAll()
    ensures Standing(Walker(TWO, At(0)))
    ensures Turns(Walker(TWO, At(0)), Same(map[0 := STOPS_NEXT, 1 := RESTARTS], 3)).at == AtHead
  {
    var replies := map[0 := STOPS_NEXT, 1 := RESTARTS];
    var lost := Walker(State([], [], TWO.timers, 1, false), At(1));
    LosesItsWay();
    var back := BackOnList(lost);
    hide Turn, OnAfter;
    SameOnce(Walker(TWO, At(0)), replies, 3);
    SameOnce(lost, replies, 2);
    SameOnce(back, replies, 1);
  }

  lemma BackOnList(lost: Walker<nat>) returns (back: Walker<nat>)
    requires lost == Walker(State([], [], TWO.timers, 1, false), At(1))
    ensures Standing(lost) && Turn(lost, RESTARTS) == back
    ensures Standing(back) && back.at == At(1) && Turn(back, RESTARTS).at == AtHead
  {
    back := Turn(lost, RESTARTS);
    var st1 := Apply(Onto(lost), Start(1, 5));
    assert ApplyAll(Onto(lost), RESTARTS.ops) == st1;
    assert st1.behind == [1] && st1.ahead == [];
    assert back.st.behind == [] && back.st.ahead == [1];
  }
}
