/** One car of a row: its clocked registers in 11-bit arithmetic, the cyclic position they
    encode, and its collision test against the frog. */
module Car {
  const REG: nat := 2048        // 11-bit registers wrap here
  const STEP: nat := 5
  const WIDTH: nat := 80
  const HEIGHT: nat := 40
  const TOLERANCE: nat := 10
  const FROG_SIDE: nat := 40
  const PLACES: nat := 145      // grid places from just off the left edge to just off the right

  type Reg = r: int | 0 <= r < 2048

  function Add(a: Reg, b: Reg): Reg { (a + b) % REG }
  function Sub(a: Reg, b: Reg): Reg { (a - b) % REG }

  /** The inputs of one frame; speed is a 6-bit value. */
  datatype Inputs = Inputs(right: bool, speed: nat, win: bool, lose: bool)

  /** A car as the player sees it: a place on the cycle, about to move or waiting. */
  datatype CarState = CarState(place: nat, moving: bool, waited: nat)

  /** The left edge on screen, which may be off it: from -80 to 640 in steps of 5. */
  function ScreenX(place: nat): int { STEP * place - WIDTH }

  /** ... and the register holding it. */
  function Encode(place: nat): Reg { ScreenX(place) % REG }

  /** One frame: a moving car goes one place on round the cycle, a waiting car counts. */
  function Frame(c: CarState, i: Inputs): CarState
  {
    if c.moving then CarState(Neighbour(c.place, i.right), false, 0)
    else CarState(c.place, c.waited == i.speed && !i.win && !i.lose, (c.waited + 1) % REG)
  }

  lemma EncodeCases(place: nat)
    requires place < PLACES
    ensures Encode(place) == if ScreenX(place) >= 0 then ScreenX(place) else ScreenX(place) + REG
    ensures Add(Encode(place), WIDTH) == ScreenX(place) + WIDTH
  {
  }

  function Neighbour(place: nat, right: bool): nat
  {
    (place + if right then 1 else PLACES - 1) % PLACES
  }

  lemma NeighbourCases(a: nat, right: bool)
    requires a < PLACES
    ensures Neighbour(a, right) == if right then (if a == PLACES - 1 then 0 else a + 1)
                                   else (if a == 0 then PLACES - 1 else a - 1)
  {
  }

  lemma AddCases(a: Reg, b: Reg)
    ensures Add(a, b) == if a + b < REG then a + b else a + b - REG
  {
  }

  /** One place on round the cycle is one step of 5, or the jump across at an edge. */
  lemma NeighbourEncodes(place: nat, right: bool)
    requires place < PLACES
    ensures var x, next := Encode(place), Encode(Neighbour(place, right));
            if right then
              if x == 640 then next == 1968 else next == Add(x, STEP)
            else
              if Add(x, WIDTH) == 0 then next == 640 else next == Add(x, Sub(0, STEP))
  {
    EncodeCases(place);
    EncodeCases(Neighbour(place, right));
    NeighbourCases(place, right);
    AddCases(Encode(place), STEP);
    AddCases(Encode(place), REG - STEP);
    hide Encode, Neighbour, Add;
  }

  /** A move is 5 columns in the direction asked for, with the jump across at either edge, and is
      followed by a wait. */
  lemma MoveExact(c: CarState, i: Inputs)
    requires c.place < PLACES && c.moving
    ensures var c' := Frame(c, i);
            && !c'.moving && c'.waited == 0 && c'.place < PLACES
            && (i.right ==> ScreenX(c'.place) == if ScreenX(c.place) == 640 then -80 else ScreenX(c.place) + 5)
            && (!i.right ==> ScreenX(c'.place) == if ScreenX(c.place) == -80 then 640 else ScreenX(c.place) - 5)
  {
    NeighbourCases(c.place, i.right);
  }

  class CarRegisters {
    var moving: bool              // state == MOVE
    var timeCount: Reg
    var xMotion: Reg
    var x: Reg
    var y: Reg
    ghost var place: nat

    ghost predicate Valid()
      reads this
    {
      place < PLACES && x == Encode(place) && (moving ==> xMotion == 0)
    }

    ghost function View(): CarState
      reads this
    {
      CarState(place, moving, timeCount)
    }

    /** Asynchronous reset at a start position on the grid. */
    constructor (startX: Reg, startY: Reg)
      requires startX <= 640 && startX % STEP == 0
      ensures Valid() && View() == CarState((startX + WIDTH) / STEP, true, 0) && y == startY
    {
      moving, timeCount, xMotion, y, x := true, 0, 0, startY, startX;
      place := (startX + WIDTH) / STEP;
    }

    /** A clock edge. The edge wraps of the position are blocking assignments, so the
        position update that follows sees them together with the motion left over. */
    method Clock(i: Inputs)
      requires Valid()
      modifies this
      ensures Valid() && View() == Frame(old(View()), i) && y == old(y)
    {
      var nextMoving := if moving then false else timeCount == i.speed && !i.win && !i.lose;
      var nextCount: Reg := if moving then 0 else Add(timeCount, 1);
      NeighbourEncodes(place, i.right);
      hide Encode;
      if moving {
        if !i.right {
          if Add(x, WIDTH) == 0 {
            x := 640;
          } else {
            xMotion := Sub(0, STEP);
          }
        } else {
          if x == 640 {
            x := 1968;
          } else {
            xMotion := STEP;
          }
        }
        place := Neighbour(place, i.right);
      } else {
        xMotion := 0;
      }
      x := Add(x, xMotion);
      moving, timeCount := nextMoving, nextCount;
    }
  }

  // ----- collision -----

  /** The point (px, py) is in the car's box, all sums in 11 bits. */
  predicate Inside(px: Reg, py: Reg, x: Reg, y: Reg)
  {
    x <= px <= Add(x, WIDTH) && y <= py <= Add(y, HEIGHT)
  }

  /** Car_Collision: one of the four corners of the frog's inset box is in the car's. */
  predicate Collision(x: Reg, y: Reg, frogX: Reg, frogY: Reg)
  {
    var (left, top) := (Add(frogX, TOLERANCE), Add(frogY, TOLERANCE));
    var (right, bottom) := (Add(Sub(frogX, TOLERANCE), FROG_SIDE), Add(Sub(frogY, TOLERANCE), FROG_SIDE));
    || Inside(left, top, x, y)
    || Inside(left, bottom, x, y)
    || Inside(right, top, x, y)
    || Inside(right, bottom, x, y)
  }

  predicate Within(a: int, b: int, p: int) { a <= p <= b }

  /** Two closed intervals have a point in common. */
  ghost predicate Meet(a: int, b: int, c: int, d: int)
  {
    exists p :: Within(a, b, p) && Within(c, d, p)
  }

  /** A short interval meets a longer one at one of its own ends. */
  lemma MeetEnds(a: int, b: int, c: int, d: int)
    requires a <= b && b - a <= d - c
    ensures Meet(a, b, c, d) <==> c <= a <= d || c <= b <= d
  {
    if c <= a <= d {
      assert Within(a, b, a) && Within(c, d, a);
    }
    if c <= b <= d {
      assert Within(a, b, b) && Within(c, d, b);
    }
  }

  lemma FarCorner(frog: Reg)
    requires frog + 30 < REG
    ensures Add(frog, TOLERANCE) == frog + 10 && Add(Sub(frog, TOLERANCE), FROG_SIDE) == frog + 30
  {
  }

  /** The frog's 20 by 20 inset box and the car's box have a point in common. */
  ghost predicate Touches(place: nat, y: Reg, frogX: Reg, frogY: Reg)
  {
    && Meet(frogX + 10, frogX + 30, ScreenX(place), ScreenX(place) + WIDTH)
    && Meet(frogY + 10, frogY + 30, y, y + HEIGHT)
  }

  /** The corner test is exact for a car that is wholly right of the left edge. A car partly or
      wholly off the left edge never collides, however far it reaches onto the screen. */
  lemma CollisionExact(place: nat, y: Reg, frogX: Reg, frogY: Reg)
    requires place < PLACES && y + HEIGHT < REG
    requires frogX + 30 < 1968 && frogY + 30 < REG
    ensures Collision(Encode(place), y, frogX, frogY) <==> ScreenX(place) >= 0 && Touches(place, y, frogX, frogY)
  {
    EncodeCases(place);
    FarCorner(frogX);
    FarCorner(frogY);
    assert Add(y, HEIGHT) == y + HEIGHT;
    hide Encode, Add, Sub, Meet;
    MeetEnds(frogX + 10, frogX + 30, ScreenX(place), ScreenX(place) + WIDTH);
    MeetEnds(frogY + 10, frogY + 30, y, y + HEIGHT);
  }

  /** One move to the left of its start, a row's first car covers a frog at the left edge of its
      row and does not collide with it. */
  lemma CoversWithoutCollision(i: Inputs, y: Reg)
    requires !i.right && y + HEIGHT < REG
    ensures var c := Frame(CarState(16, true, 0), i);
            Touches(c.place, y, 0, y) && !Collision(Encode(c.place), y, 0, y)
  {
    NeighbourCases(16, false);
    CollisionExact(15, y, 0, y);
    MeetEnds(10, 30, ScreenX(15), ScreenX(15) + WIDTH);
    MeetEnds(y + 10, y + 30, y, y + HEIGHT);
  }
}
