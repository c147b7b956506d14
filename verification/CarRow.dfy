/** Four cars in lockstep: their starts, their spacing for ever, and the row's collision signal. */
module CarRow {
  import opened Car

  const CARS: nat := 4

  /** The start of car k: all sums fit the 11-bit port. */
  function StartX(gap: nat, k: nat): Reg
    requires gap < 256 && k < CARS
  {
    gap * k + WIDTH * k
  }

  /** Gaps for which every car starts on the grid. */
  predicate OnGrid(gap: nat)
  {
    gap % STEP == 0 && 3 * (gap + WIDTH) <= 640
  }

  type Row = seq<CarState>

  function Start(gap: nat): (r: Row)
    requires gap < 256 && OnGrid(gap)
    ensures |r| == CARS
  {
    seq(CARS, k requires 0 <= k < CARS => CarState((StartX(gap, k) + WIDTH) / STEP, true, 0))
  }

  function RowFrame(r: Row, i: Inputs): (r': Row)
    ensures |r'| == |r|
  {
    seq(|r|, k requires 0 <= k < |r| => Frame(r[k], i))
  }

  function Run(r: Row, frames: seq<Inputs>): (r': Row)
    ensures |r'| == |r|
    decreases |frames|
  {
    if frames == [] then r else Run(RowFrame(r, frames[0]), frames[1..])
  }

  /** How far round the cycle b is ahead of a. */
  function Ahead(a: nat, b: nat): nat { (b - a) % PLACES }

  /** Two cars' boxes share screen columns. */
  predicate Overlap(a: nat, b: nat)
  {
    ScreenX(a) < ScreenX(b) + WIDTH && ScreenX(b) < ScreenX(a) + WIDTH
  }

  ghost predicate Lockstep(r: Row)
  {
    && (forall k :: 0 <= k < |r| ==> r[k].place < PLACES)
    && (forall j, k :: 0 <= j < |r| && 0 <= k < |r| ==> r[j].moving == r[k].moving && r[j].waited == r[k].waited)
  }

  lemma AheadCases(a: nat, b: nat)
    requires a < PLACES && b < PLACES
    ensures Ahead(a, b) == if a <= b then b - a else b - a + PLACES
  {
  }

  lemma AheadShift(a: nat, b: nat, right: bool)
    requires a < PLACES && b < PLACES
    ensures Ahead(Neighbour(a, right), Neighbour(b, right)) == Ahead(a, b)
  {
    NeighbourCases(a, right);
    NeighbourCases(b, right);
    AheadCases(a, b);
    AheadCases(Neighbour(a, right), Neighbour(b, right));
    hide Ahead, Neighbour;
  }

  lemma FrameKeeps(r: Row, i: Inputs)
    requires Lockstep(r)
    ensures Lockstep(RowFrame(r, i))
    ensures forall j, k :: 0 <= j < |r| && 0 <= k < |r| ==>
              Ahead(RowFrame(r, i)[j].place, RowFrame(r, i)[k].place) == Ahead(r[j].place, r[k].place)
  {
    forall j, k | 0 <= j < |r| && 0 <= k < |r|
      ensures Ahead(RowFrame(r, i)[j].place, RowFrame(r, i)[k].place) == Ahead(r[j].place, r[k].place)
    {
      AheadShift(r[j].place, r[k].place, i.right);
    }
  }

  /** Cars that start together keep their cyclic distances for ever, whatever the direction,
      speed and game state do from frame to frame. */
  lemma {:induction false} SpacingForever(r: Row, frames: seq<Inputs>)
    requires Lockstep(r)
    ensures Lockstep(Run(r, frames))
    ensures forall j, k :: 0 <= j < |r| && 0 <= k < |r| ==>
              Ahead(Run(r, frames)[j].place, Run(r, frames)[k].place) == Ahead(r[j].place, r[k].place)
    decreases |frames|
  {
    if frames != [] {
      FrameKeeps(r, frames[0]);
      SpacingForever(RowFrame(r, frames[0]), frames[1..]);
    }
  }

  lemma FarApart(a: nat, b: nat)
    requires a < PLACES && b < PLACES
    ensures Overlap(a, b) <==> -16 < b - a < 16
    ensures 16 <= Ahead(a, b) <= PLACES - 16 ==> !Overlap(a, b)
  {
    AheadCases(a, b);
  }

  /** Where the cars start: 16 places in, one pitch of (gap + 80) / 5 places apart. */
  lemma StartPlaces(gap: nat)
    requires gap < 256 && OnGrid(gap)
    ensures Lockstep(Start(gap)) && AllMoving(Start(gap))
    ensures var g := gap / STEP;
            && Start(gap)[0].place == 16 && Start(gap)[1].place == 32 + g
            && Start(gap)[2].place == 48 + 2 * g && Start(gap)[3].place == 64 + 3 * g
            && 64 + 3 * g < PLACES
  {
    var g := gap / STEP;
    assert gap == 5 * g;
    assert StartX(gap, 2) == 2 * gap + 160 && StartX(gap, 3) == 3 * gap + 240;
    assert (2 * gap + 240) / STEP == 48 + 2 * g && (3 * gap + 320) / STEP == 64 + 3 * g;
    assert (gap + 160) / STEP == 32 + g;
  }

  lemma StartSpacing(gap: nat, j: nat, k: nat)
    requires gap < 256 && OnGrid(gap) && j < k < CARS
    ensures 16 <= Ahead(Start(gap)[j].place, Start(gap)[k].place) <= PLACES - 16
  {
    StartPlaces(gap);
    AheadCases(Start(gap)[j].place, Start(gap)[k].place);
    hide Start, Ahead;
  }

  /** A row reset with a gap that fits the screen never shows two cars over each other. */
  lemma RowNeverOverlaps(gap: nat, frames: seq<Inputs>, j: nat, k: nat)
    requires gap < 256 && OnGrid(gap) && j < k < CARS
    ensures !Overlap(Run(Start(gap), frames)[j].place, Run(Start(gap), frames)[k].place)
  {
    StartPlaces(gap);
    StartSpacing(gap, j, k);
    SpacingForever(Start(gap), frames);
    hide Start, Ahead, Run, Overlap, OnGrid;
    FarApart(Run(Start(gap), frames)[j].place, Run(Start(gap), frames)[k].place);
  }

  // ----- when a car moves -----

  /** Speed s throughout, and the game is on. */
  ghost predicate Steady(frames: seq<Inputs>, s: nat)
  {
    forall i | 0 <= i < |frames| :: frames[i].speed == s && !frames[i].win && !frames[i].lose
  }

  /** Frames until a waiting car is ready to move: its 11-bit count has to meet the speed. */
  function Delay(c: CarState, s: nat): nat
  {
    (s - c.waited) % REG + 1
  }

  /** A waiting car keeps its place, and is ready after just its delay. */
  lemma {:induction false} WaitExact(r: Row, frames: seq<Inputs>, k: nat, s: nat)
    requires k < |r| && !r[k].moving && r[k].waited < REG && s < REG
    requires Steady(frames, s) && |frames| <= Delay(r[k], s)
    ensures Run(r, frames)[k].place == r[k].place
    ensures Run(r, frames)[k].moving <==> |frames| == Delay(r[k], s)
    decreases |frames|
  {
    if frames != [] {
      var r1 := RowFrame(r, frames[0]);
      assert frames[0].speed == s && !frames[0].win && !frames[0].lose;
      DelayStep(r[k], s);
      if r[k].waited == s {
        assert frames[1..] == [];
        assert Run(r1, []) == r1;
      } else {
        assert Steady(frames[1..], s);
        WaitExact(r1, frames[1..], k, s);
      }
    }
  }

  lemma DelayStep(c: CarState, s: nat)
    requires c.waited < REG && s < REG
    ensures c.waited == s <==> Delay(c, s) == 1
    ensures c.waited != s ==> Delay(c.(waited := (c.waited + 1) % REG), s) == Delay(c, s) - 1
    ensures c.waited <= s ==> Delay(c, s) == s - c.waited + 1
    ensures c.waited > s ==> Delay(c, s) == s - c.waited + REG + 1
  {
    assert (c.waited + 1) % REG == if c.waited + 1 == REG then 0 else c.waited + 1;
    assert (s - c.waited) % REG == if c.waited <= s then s - c.waited else s - c.waited + REG;
  }

  lemma {:induction false} RunSplits(r: Row, a: seq<Inputs>, b: seq<Inputs>)
    ensures Run(r, a + b) == Run(Run(r, a), b)
    decreases |a|
  {
    if a == [] {
      assert a + b == b;
    } else {
      assert (a + b)[1..] == a[1..] + b;
      RunSplits(RowFrame(r, a[0]), a[1..], b);
    }
  }

  /** At speed s a car moves one place, the way the first frame says, and is ready for its next
      move s + 2 frames later and not before. */
  lemma MovesOnce(r: Row, frames: seq<Inputs>, k: nat, s: nat)
    requires k < |r| && r[k].moving && r[k].place < PLACES && s < REG
    requires Steady(frames, s) && 0 < |frames| <= s + 2
    ensures Run(r, frames)[k].place == Neighbour(r[k].place, frames[0].right)
    ensures Run(r, frames)[k].moving <==> |frames| == s + 2
  {
    var r1 := RowFrame(r, frames[0]);
    MoveExact(r[k], frames[0]);
    DelayStep(r1[k], s);
    assert Steady(frames[1..], s);
    hide Delay;
    WaitExact(r1, frames[1..], k, s);
  }

  function Same(i: Inputs, n: nat): (frames: seq<Inputs>)
    ensures |frames| == n && forall j | 0 <= j < n :: frames[j] == i
  {
    seq(n, j => i)
  }

  lemma NextPlace(place: nat, n: nat)
    requires place < PLACES
    ensures Neighbour((place + n) % PLACES, true) == (place + n + 1) % PLACES
  {
    NeighbourCases((place + n) % PLACES, true);
    assert (place + n + 1) % PLACES == if (place + n) % PLACES == PLACES - 1 then 0 else (place + n) % PLACES + 1;
  }

  /** The pace of a car going right: n places in n times s + 2 frames. */
  lemma {:induction false} Pace(r: Row, i: Inputs, k: nat, n: nat)
    requires k < |r| && r[k].moving && r[k].place < PLACES
    requires i.right && i.speed < REG && !i.win && !i.lose
    ensures var c := Run(r, Same(i, n * (i.speed + 2)))[k];
            c.moving && c.place == (r[k].place + n) % PLACES
    decreases n
  {
    if n == 0 {
      assert Same(i, 0) == [] && Run(r, []) == r;
    } else {
      var before, last := Same(i, (n - 1) * (i.speed + 2)), Same(i, i.speed + 2);
      Pace(r, i, k, n - 1);
      assert n * (i.speed + 2) == (n - 1) * (i.speed + 2) + (i.speed + 2);
      assert Same(i, n * (i.speed + 2)) == before + last;
      RunSplits(r, before, last);
      NextPlace(r[k].place, n - 1);
      hide Run, Neighbour;
      MovesOnce(Run(r, before), last, k, i.speed);
    }
  }

  /** Once the game is won or lost, a waiting car stays where it is for as long as that lasts,
      and only its count goes on. */
  lemma {:induction false} ParkedWhenOver(r: Row, frames: seq<Inputs>, k: nat)
    requires k < |r| && !r[k].moving && r[k].waited < REG
    requires forall i | 0 <= i < |frames| :: frames[i].win || frames[i].lose
    ensures Run(r, frames)[k] == CarState(r[k].place, false, (r[k].waited + |frames|) % REG)
    decreases |frames|
  {
    if frames != [] {
      var r1 := RowFrame(r, frames[0]);
      ParkedWhenOver(r1, frames[1..], k);
      assert ((r[k].waited + 1) % REG + (|frames| - 1)) % REG == (r[k].waited + |frames|) % REG;
    }
  }

  /** A pause that takes the count past the speed by one costs the whole round of the 11-bit
      counter: the car stands still for 2048 frames after the game goes on. */
  lemma LongPause(r: Row, k: nat, s: nat, over: seq<Inputs>, on: seq<Inputs>)
    requires k < |r| && !r[k].moving && r[k].waited <= s && s + 1 < REG && |over| == s + 1 - r[k].waited
    requires forall i | 0 <= i < |over| :: over[i].win || over[i].lose
    requires Steady(on, s) && |on| <= REG
    ensures Run(r, over + on)[k].place == r[k].place
    ensures Run(r, over + on)[k].moving <==> |on| == REG
  {
    hide Run, Delay;
    RunSplits(r, over, on);
    ParkedWhenOver(r, over, k);
    PastSpeed(r[k].waited + |over|, s);
    hide Steady;
    DelayStep(Run(r, over)[k], s);
    WaitExact(Run(r, over), on, k, s);
  }

  lemma PastSpeed(count: nat, s: nat)
    requires count == s + 1 < REG
    ensures count % REG == s + 1
  {
  }

  // ----- the spacing that is needed -----

  const DRIVE: Inputs := Inputs(true, 0, false, false)

  /** n moves to the right at full speed: a frame to move and a frame to wait, n times. */
  function Drive(n: nat): seq<Inputs>
  {
    if n == 0 then [] else [DRIVE, DRIVE] + Drive(n - 1)
  }

  ghost predicate AllMoving(r: Row)
  {
    forall k :: 0 <= k < |r| ==> r[k].moving
  }

  lemma TwoFrames(r: Row, rest: seq<Inputs>)
    ensures Run(r, [DRIVE, DRIVE] + rest) == Run(RowFrame(RowFrame(r, DRIVE), DRIVE), rest)
  {
    var all := [DRIVE, DRIVE] + rest;
    assert all[1..][1..] == rest;
    assert all[0] == all[1] == all[1..][0] == DRIVE;
  }

  lemma {:induction false} DriveMoves(r: Row, n: nat, k: nat)
    requires Lockstep(r) && AllMoving(r) && k < |r|
    ensures Run(r, Drive(n))[k].place == (r[k].place + n) % PLACES
    decreases n
  {
    if n == 0 {
      assert Run(r, Drive(0)) == r;
    } else {
      var r2 := RowFrame(RowFrame(r, DRIVE), DRIVE);
      TwoFrames(r, Drive(n - 1));
      assert forall j :: 0 <= j < |r| ==> r2[j] == CarState(Neighbour(r[j].place, true), true, 1);
      DriveMoves(r2, n - 1, k);
    }
  }

  /** Two cars of a freshly reset row never overlap, whatever happens, exactly when each is
      at least 16 places ahead of the other round the cycle. */
  lemma NeverOverlapExact(r: Row, j: nat, k: nat)
    requires Lockstep(r) && AllMoving(r) && j < |r| && k < |r|
    ensures (forall frames :: !Overlap(Run(r, frames)[j].place, Run(r, frames)[k].place))
            <==> 16 <= Ahead(r[j].place, r[k].place) <= PLACES - 16
  {
    if 16 <= Ahead(r[j].place, r[k].place) <= PLACES - 16 {
      forall frames
        ensures !Overlap(Run(r, frames)[j].place, Run(r, frames)[k].place)
      {
        SpacingForever(r, frames);
        FarApart(Run(r, frames)[j].place, Run(r, frames)[k].place);
      }
    } else {
      var frames := Collide(r, j, k);
    }
  }

  /** Drive the car that is behind by less than 16 places to place 0: the other is within 16. */
  lemma Collide(r: Row, j: nat, k: nat) returns (frames: seq<Inputs>)
    requires Lockstep(r) && AllMoving(r) && j < |r| && k < |r|
    requires !(16 <= Ahead(r[j].place, r[k].place) <= PLACES - 16)
    ensures Overlap(Run(r, frames)[j].place, Run(r, frames)[k].place)
  {
    var a, b := r[j].place, r[k].place;
    AheadCases(a, b);
    var n := PLACES - (if Ahead(a, b) < 16 then a else b);
    frames := Drive(n);
    DriveMoves(r, n, j);
    DriveMoves(r, n, k);
    hide Run, Drive, Lockstep, AllMoving, Ahead;
    assert (a + n) % PLACES == if a + n >= PLACES then a + n - PLACES else a + n;
    assert (b + n) % PLACES == if b + n >= PLACES then b + n - PLACES else b + n;
  }

  // ----- the row's collision signal -----

  /** car_row's Car_Collision over the four cars' own signals; numberCars is a 3-bit input. */
  predicate RowCollision(hits: seq<bool>, numberCars: nat)
    requires |hits| == CARS
  {
    || (hits[0] && numberCars >= 1)
    || (hits[1] && numberCars >= 2)
    || (hits[2] && numberCars >= 3)
    || (hits[3] && numberCars == 4)
  }

  /** The four cars' own signals. */
  function Hits(r: Row, y: Reg, frogX: Reg, frogY: Reg): (hits: seq<bool>)
    ensures |hits| == |r|
  {
    seq(|r|, k requires 0 <= k < |r| => Collision(Encode(r[k].place), y, frogX, frogY))
  }

  /** The row's signal says whether an active car that is wholly right of the left edge has its
      box meet the frog's; told of more than its four cars, the row leaves out the fourth. */
  lemma RowCollisionExact(r: Row, numberCars: nat, y: Reg, frogX: Reg, frogY: Reg)
    requires Lockstep(r) && |r| == CARS && y + HEIGHT < REG
    requires frogX + 30 < 1968 && frogY + 30 < REG
    ensures RowCollision(Hits(r, y, frogX, frogY), numberCars)
            <==> exists k :: 0 <= k < (if numberCars > CARS then CARS - 1 else numberCars)
                             && ScreenX(r[k].place) >= 0 && Touches(r[k].place, y, frogX, frogY)
  {
    forall k | 0 <= k < CARS
      ensures Hits(r, y, frogX, frogY)[k] <==> ScreenX(r[k].place) >= 0 && Touches(r[k].place, y, frogX, frogY)
    {
      CollisionExact(r[k].place, y, frogX, frogY);
    }
    hide Hits, Touches, ScreenX;
  }
}
