/** The VGA controller: raster counters and registered sync pulses, their closed form in the
    number of pixel clocks since reset, and what one frame's worth of clocks contains. */
module Vga {
  const HPIXELS: nat := 799
  const VLINES: nat := 524
  const LINE: nat := 800
  const LINES: nat := 525
  const FRAME: nat := 420_000

  /** The closed form: the raster place t pixel clocks after reset. */
  function Column(t: nat): nat { t % LINE }
  function Line(t: nat): nat { (t / LINE) % LINES }

  datatype Signal = Display | HsLow | VsLow

  /** The signals t clocks after reset. The vertical pulse is registered from the line of the
      clock before, which the code compares one early: lines 489 and 490, one clock late. */
  predicate On(s: Signal, t: nat)
    requires t >= 1
  {
    match s
    case Display => Column(t) < 640 && Line(t) < 480
    case HsLow => 656 <= Column(t) < 752
    case VsLow => Line(t - 1) == 489 || Line(t - 1) == 490
  }

  lemma NextPlace(t: nat)
    ensures Column(t + 1) == if Column(t) == HPIXELS then 0 else Column(t) + 1
    ensures Line(t + 1) == if Column(t) != HPIXELS then Line(t) else if Line(t) == VLINES then 0 else Line(t) + 1
  {
    LineStep(t);
    LinesStep(t / LINE);
  }

  lemma LinesStep(q: nat)
    ensures (q + 1) % LINES == if q % LINES == VLINES then 0 else q % LINES + 1
  {
  }

  lemma LineStep(t: nat)
    ensures (t + 1) % LINE == if t % LINE == HPIXELS then 0 else t % LINE + 1
    ensures (t + 1) / LINE == if t % LINE == HPIXELS then t / LINE + 1 else t / LINE
  {
  }

  class Controller {
    var clkdiv: bool
    var hc: nat
    var vc: nat
    var hs: bool
    var vs: bool
    ghost var t: nat      // pixel clocks since reset

    /** The registers are the closed form; the sync registers start low. */
    ghost predicate Valid()
      reads this
    {
      && hc == Column(t) && vc == Line(t)
      && hs == (t >= 1 && !On(HsLow, t))
      && vs == (t >= 1 && !On(VsLow, t))
    }

    constructor Reset()
      ensures Valid() && t == 0 && !clkdiv
    {
      clkdiv, hc, vc, hs, vs, t := false, 0, 0, false, false, 0;
    }

    /** A rising edge of the 50 MHz clock: every second one is a pixel clock. */
    method Clk()
      requires Valid()
      modifies this
      ensures Valid() && clkdiv == !old(clkdiv)
      ensures t == if clkdiv then old(t) + 1 else old(t)
    {
      clkdiv := !clkdiv;
      if clkdiv {
        PixelClock();
      }
    }

    method PixelClock()
      requires Valid()
      modifies this`hc, this`vc, this`hs, this`vs, this`t
      ensures Valid() && t == old(t) + 1
      ensures hc == t % 800 && vc == t / 800 % 525
      ensures !hs <==> 656 <= hc < 752
      ensures !vs <==> 489 * 800 < t % 420_000 <= 491 * 800
    {
      VerticalPulse(t + 1);
      NextPlace(t);
      assert Column(t + 1) == (t + 1) % 800 && Line(t + 1) == (t + 1) / 800 % 525;
      hide Column, Line;
      var nextHs := !(hc + 1 >= 656 && hc + 1 < 752);
      var nextVs := !(vc + 1 == 490 || vc + 1 == 491);
      if hc == HPIXELS {
        hc := 0;
        vc := if vc == VLINES then 0 else vc + 1;
      } else {
        hc := hc + 1;
      }
      hs, vs, t := nextHs, nextVs, t + 1;
    }

    /** The blank output. */
    method Blank() returns (display: bool)
      requires Valid()
      ensures t >= 1 ==> display == On(Display, t)
      ensures display <==> hc < 640 && vc < 480
    {
      display := !(hc >= 640 || vc >= 480);
    }
  }

  lemma FramePlace(t: nat)
    ensures Line(t) == (t % FRAME) / LINE && Column(t) == (t % FRAME) % LINE
  {
    var f, r := t / FRAME, t % FRAME;
    assert t == FRAME * f + r;
    assert t / LINE == LINES * f + r / LINE && t % LINE == r % LINE;
    assert (LINES * f + r / LINE) % LINES == r / LINE;
  }

  /** Where the vertical pulse really is: from the second clock of line 489 to the first of
      line 491, not on lines 490 and 491 as the source's comment has it. */
  lemma VerticalPulse(t: nat)
    requires t >= 1
    ensures On(VsLow, t) <==> LINE * 489 + 1 <= t % FRAME < LINE * 491 + 1
  {
    FramePlace(t - 1);
    FrameStep(t - 1);
    var r := (t - 1) % FRAME;
    hide Line, Column;
    assert r / LINE == 489 || r / LINE == 490 <==> LINE * 489 <= r < LINE * 491;
  }

  lemma FrameStep(t: nat)
    ensures (t + 1) % FRAME == if t % FRAME == FRAME - 1 then 0 else t % FRAME + 1
  {
  }

  // ----- one frame -----

  /** How many of the n clocks from `from` on have the signal. */
  function Count(s: Signal, from: nat, n: nat): nat
    requires from >= 1
    decreases n
  {
    if n == 0 then 0 else (if On(s, from) then 1 else 0) + Count(s, from + 1, n - 1)
  }

  lemma {:induction false} CountSplits(s: Signal, from: nat, m: nat, n: nat)
    requires from >= 1
    ensures Count(s, from, m + n) == Count(s, from, m) + Count(s, from + m, n)
    decreases m
  {
    if m > 0 {
      CountSplits(s, from + 1, m - 1, n);
    }
  }

  lemma {:induction false} CountConstant(s: Signal, from: nat, n: nat, on: bool)
    requires from >= 1 && forall t :: from <= t < from + n ==> On(s, t) == on
    ensures Count(s, from, n) == if on then n else 0
    decreases n
  {
    if n > 0 {
      CountConstant(s, from + 1, n - 1, on);
    }
  }

  lemma PlaceIn(l: nat, x: nat)
    requires x < LINE
    ensures Column(LINE * l + x) == x && Line(LINE * l + x) == l % LINES
  {
  }

  /** Where the window of line l starts: the vertical pulse lags by one clock. */
  function LineStart(s: Signal, l: nat): nat
  {
    LINE * l + if s == VsLow then 1 else 0
  }

  function PerLine(s: Signal, l: nat): nat
  {
    match s
    case Display => if l % LINES < 480 then 640 else 0
    case HsLow => 96
    case VsLow => if l % LINES == 489 || l % LINES == 490 then 800 else 0
  }

  /** Clocks x0 .. x1 of a line's window agree on the signal. */
  lemma Stretch(s: Signal, l: nat, x0: nat, x1: nat, on: bool)
    requires l >= 1 && x0 <= x1 <= LINE
    requires match s
             case Display => on == (x1 <= 640 && l % LINES < 480) && (x1 <= 640 || x0 >= 640)
             case HsLow => on == (656 <= x0 && x1 <= 752) && (x1 <= 656 || x0 >= 752 || on)
             case VsLow => on == (l % LINES == 489 || l % LINES == 490)
    ensures Count(s, LineStart(s, l) + x0, x1 - x0) == if on then x1 - x0 else 0
  {
    var a := LineStart(s, l);
    forall t | a + x0 <= t < a + x1
      ensures On(s, t) == on
    {
      PlaceIn(l, t - a);
    }
    CountConstant(s, a + x0, x1 - x0, on);
  }

  lemma LineCount(s: Signal, l: nat)
    requires l >= 1
    ensures Count(s, LineStart(s, l), LINE) == PerLine(s, l)
  {
    hide Count, On, Column, Line;
    var a := LineStart(s, l);
    match s
    case Display =>
      Stretch(s, l, 0, 640, l % LINES < 480);
      Stretch(s, l, 640, 800, false);
      CountSplits(s, a, 640, 160);
    case HsLow =>
      Stretch(s, l, 0, 656, false);
      Stretch(s, l, 656, 752, true);
      Stretch(s, l, 752, 800, false);
      CountSplits(s, a, 656, 144);
      CountSplits(s, a + 656, 96, 48);
    case VsLow =>
      Stretch(s, l, 0, 800, l % LINES == 489 || l % LINES == 490);
  }

  /** n lines with the same count each. */
  lemma {:induction false} BlockCount(s: Signal, l: nat, n: nat, each: nat)
    requires l >= 1 && forall k :: l <= k < l + n ==> PerLine(s, k) == each
    ensures Count(s, LineStart(s, l), LINE * n) == each * n
    decreases n
  {
    if n > 0 {
      hide On, Column, Line, PerLine;
      LineCount(s, l);
      BlockCount(s, l + 1, n - 1, each);
      CountSplits(s, LineStart(s, l), LINE, LINE * (n - 1));
      assert LineStart(s, l + 1) == LineStart(s, l) + LINE;
    }
  }

  function PerFrame(s: Signal): nat
  {
    match s
    case Display => 307_200
    case HsLow => 50_400
    case VsLow => 1_600
  }

  lemma FirstFrame(s: Signal)
    ensures Count(s, LineStart(s, LINES), FRAME) == PerFrame(s)
  {
    hide Count, On, Column, Line;
    var l := LINES;
    match s
    case Display =>
      BlockCount(s, l, 480, 640);
      BlockCount(s, l + 480, 45, 0);
      CountSplits(s, LineStart(s, l), LINE * 480, LINE * 45);
    case HsLow =>
      BlockCount(s, l, 525, 96);
    case VsLow =>
      BlockCount(s, l, 489, 0);
      BlockCount(s, l + 489, 2, 800);
      BlockCount(s, l + 491, 34, 0);
      CountSplits(s, LineStart(s, l), LINE * 489, LINE * 36);
      CountSplits(s, LineStart(s, l + 489), LINE * 2, LINE * 34);
  }

  lemma Periodic(s: Signal, t: nat)
    requires t >= 1
    ensures On(s, t + FRAME) == On(s, t)
  {
    PlaceRepeats(t);
    PlaceRepeats(t - 1);
  }

  lemma PlaceRepeats(t: nat)
    ensures Column(t + FRAME) == Column(t) && Line(t + FRAME) == Line(t)
  {
    var q := t / LINE;
    assert (t + FRAME) / LINE == q + LINES && (t + FRAME) % LINE == t % LINE;
    assert (q + LINES) % LINES == q % LINES;
  }

  lemma CountOne(s: Signal, t: nat)
    requires t >= 1
    ensures Count(s, t, 1) == if On(s, t) then 1 else 0
  {
    assert Count(s, t + 1, 0) == 0;
  }

  lemma WindowStep(s: Signal, from: nat, n: nat)
    requires from >= 1 && n == FRAME
    ensures Count(s, from, n) == Count(s, from + 1, n)
  {
    hide Column, Line, On, Count;
    Periodic(s, from);
    CountOne(s, from);
    CountOne(s, from + n);
    CountSplits(s, from, 1, n - 1);
    CountSplits(s, from + 1, n - 1, 1);
  }

  /** A window of one frame's length counts the same wherever it starts. */
  lemma {:induction false} WindowMoves(s: Signal, from: nat, shift: nat, n: nat)
    requires from >= 1 && n == FRAME
    ensures Count(s, from, n) == Count(s, from + shift, n)
    decreases shift
  {
    hide Count;
    if shift > 0 {
      WindowStep(s, from, n);
      WindowMoves(s, from + 1, shift - 1, n);
    }
  }

  /** Any 420000 consecutive pixel clocks after the first hold exactly one frame: 640 x 480
      display clocks, 525 horizontal pulses of 96 and a vertical pulse of two lines. */
  lemma FrameExact(s: Signal, from: nat)
    requires from >= 1
    ensures Count(s, from, FRAME) == PerFrame(s)
  {
    hide Count;
    FirstFrame(s);
    var base := LineStart(s, LINES);
    if from <= base {
      WindowMoves(s, from, base - from, FRAME);
    } else {
      WindowMoves(s, base, from - base, FRAME);
    }
  }
}
