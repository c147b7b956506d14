/** settimeofday and gettimeofday over the 32-bit tick counter, with 32-bit time fields. */
module TimeOfDay {
  import opened Arith

  const US: int := 1_000_000
  const WRAP: nat := 0x1_0000_0000

  /** What a 32-bit signed field keeps of a value. */
  function Signed32(x: int): (r: int)
    ensures -0x8000_0000 <= r < 0x8000_0000
    ensures -0x8000_0000 <= x < 0x8000_0000 ==> r == x
  {
    (x + 0x8000_0000) % WRAP - 0x8000_0000
  }

  datatype Time = Time(sec: int, usec: int)

  function Total(t: Time): int { t.sec * US + t.usec }

  predicate Normalised(t: Time) { 0 <= t.usec < US }

  /** Microseconds a tick lasts, as the code rounds it. */
  function TickUs(rate: nat): nat
    requires rate > 0
  {
    US / rate
  }

  function Micros(n: nat, rate: nat): nat
    requires rate > 0
  {
    n * TickUs(rate)
  }

  /** The reset time ALT_SETTIMEOFDAY stores: the product of its second line wraps at 32 bits. */
  function ResetTime(t: Time, nticks: nat, rate: nat): Time
    requires rate > 0
  {
    Time(Signed32(t.sec - nticks / rate), Signed32(t.usec - (Micros(nticks, rate) % WRAP) % US))
  }

  /** The time ALT_GETTIMEOFDAY starts from, before its loops: here the product has 64 bits. */
  function RawTime(reset: Time, nticks: nat, rate: nat): Time
    requires rate > 0
  {
    Time(Signed32(reset.sec + nticks / rate), Signed32(reset.usec + Micros(nticks, rate) % US))
  }

  /** What the loops and the clamp make of it. */
  function Shown(raw: Time): Time
  {
    if raw.usec < 0 && Total(raw) < 0 then Time(0, 0) else Time(Signed32(Total(raw) / US), Total(raw) % US)
  }

  /** The time ALT_GETTIMEOFDAY returns. */
  function Reading(reset: Time, nticks: nat, rate: nat): Time
    requires rate > 0
  {
    Shown(RawTime(reset, nticks, rate))
  }

  /** The first total, in microseconds, whose seconds a 32-bit field cannot hold. */
  const TOO_LATE: int := 0x8000_0000 * US

  class Clock {
    var reset: Time
    var nticks: nat
    var rate: nat

    constructor ()
      ensures reset == Time(0, 0) && nticks == 0 && rate == 0
    {
      reset, nticks, rate := Time(0, 0), 0, 0;
    }

    /** ALT_SETTIMEOFDAY; false is the ENOSYS of a system without a clock. The time set is the
        time a read on the same tick returns, exactly under a condition on the tick counter. */
    method SetTimeOfDay(t: Time) returns (ok: bool)
      modifies this`reset
      ensures ok == (rate > 0)
      ensures if ok then reset == ResetTime(t, nticks, rate) else reset == old(reset)
      ensures ok && Settable(t) && nticks < WRAP ==>
                (Reading(reset, nticks, rate) == t <==> ComesBack(t, nticks, rate))
    {
      if rate > 0 && Settable(t) && nticks < WRAP {
        ReadBack(t, nticks, rate);
      }
      hide Reading, ComesBack;
      ok := rate > 0;
      if ok {
        reset := Time(Signed32(t.sec - nticks / rate),
                      Signed32(t.usec - (Micros(nticks, rate) % WRAP) % US));
      }
    }

    /** ALT_GETTIMEOFDAY. The loops normalise without changing the total, unless that is
        negative with the microseconds below zero: then the clamp makes it zero. */
    method GetTimeOfDay() returns (ok: bool, t: Time)
      ensures ok == (rate > 0)
      ensures ok ==> var raw := RawTime(reset, nticks, rate);
                     if raw.usec < 0 && Total(raw) < 0 then t == Time(0, 0)
                     else Normalised(t) && (Total(t) == Total(raw) <==> Total(raw) < TOO_LATE)
      ensures ok ==> t == Reading(reset, nticks, rate)
    {
      ok, t := rate > 0, Time(0, 0);
      if ok {
        var sec := Signed32(reset.sec + nticks / rate);
        var usec := Signed32(reset.usec + Micros(nticks, rate) % US);
        ghost var raw, exact := Time(sec, usec), sec;
        while usec < 0
          invariant Total(Time(sec, usec)) == Total(raw)
          invariant usec != raw.usec ==> raw.usec < 0 && usec < US
          invariant usec == raw.usec || sec >= 0
          invariant -0x8000_0000 <= sec < 0x8000_0000
          decreases -usec
        {
          if sec <= 0 {
            sec, usec := 0, 0;
            return true, Time(0, 0);
          }
          sec, usec := sec - 1, usec + US;
        }
        exact := sec;
        while usec >= US
          invariant Total(Time(exact, usec)) == Total(raw) && usec >= 0 && sec == Signed32(exact)
          invariant exact >= -0x8000_0000 && (raw.usec < 0 ==> exact >= 0)
        {
          NextSecond(exact);
          sec, usec, exact := Signed32(sec + 1), usec - US, exact + 1;
        }
        t := Time(sec, usec);
        DivUnique(Total(raw), US, exact, usec);
        FieldKeeps(exact, usec);
      }
    }
  }

  // ----- arithmetic -----

  /** Counting a 32-bit field up is counting up and then cutting to 32 bits. */
  lemma NextSecond(sec: int)
    ensures Signed32(Signed32(sec) + 1) == Signed32(sec + 1)
  {
    SignedSum(sec, 1);
  }

  lemma FieldKeeps(sec: int, usec: int)
    requires sec >= -0x8000_0000 && 0 <= usec < US
    ensures Signed32(sec) == sec <==> sec * US + usec < TOO_LATE
  {
  }

  /** Adding in 32 bits twice is adding once. */
  lemma SignedSum(x: int, b: int)
    ensures Signed32(Signed32(x) + b) == Signed32(x + b)
  {
    var q := (x + 0x8000_0000) / WRAP;
    assert Signed32(x) == x - WRAP * q;
    var y := x + b + 0x8000_0000;
    DivUnique(y - WRAP * q, WRAP, y / WRAP - q, y % WRAP);
  }

  /** A tick rate that divides the microseconds of a second splits ticks exactly. */
  lemma TickSplit(n: nat, rate: nat)
    requires rate > 0 && rate * TickUs(rate) == US
    ensures (n / rate) * US + Micros(n, rate) % US == Micros(n, rate)
  {
    var us, a, b := TickUs(rate), n / rate, n % rate;
    assert n == rate * a + b;
    assert n * us == US * a + b * us by {
      assert (rate * a + b) * us == rate * a * us + b * us;
      assert rate * a * us == rate * us * a;
    }
    assert b * us < US by {
      assert b * us <= (rate - 1) * us;
      assert (rate - 1) * us == rate * us - us;
      assert us > 0;
    }
    assert b * us >= 0;
    DivUnique(n * us, US, a, b * us);
  }

  lemma MicrosAdd(n: nat, k: nat, rate: nat)
    requires rate > 0
    ensures Micros(n + k, rate) == Micros(n, rate) + Micros(k, rate)
  {
    assert (n + k) * TickUs(rate) == n * TickUs(rate) + k * TickUs(rate);
  }

  /** Cutting a product to 32 bits first is harmless modulo a million exactly when the number
      of whole 2^32s cut off is a multiple of 15625. */
  lemma CutHarmless(x: nat)
    ensures (x % WRAP) % US == x % US <==> (x / WRAP) % 15625 == 0
  {
    var q, r := x / WRAP, x % WRAP;
    assert x == WRAP * q + r;
    if q % 15625 == 0 {
      var j := q / 15625;
      assert x == US * (4294967296 * j / 64) + r by {
        assert q == 15625 * j;
        assert 4294967296 * j / 64 == 67108864 * j;
      }
      SameRemainder(x, r, 67108864 * j);
    }
    if r % US == x % US {
      var d := x / US - r / US;
      assert WRAP * q == US * d;
      assert 67108864 * q == 15625 * d;
      Cancel(q, d);
    }
  }

  lemma SameRemainder(x: nat, r: nat, k: nat)
    requires x == US * k + r
    ensures x % US == r % US
  {
    DivUnique(x, US, k + r / US, r % US);
  }

  /** 67108864 is invertible modulo 15625. */
  lemma Cancel(q: nat, d: int)
    requires 67108864 * q == 15625 * d
    ensures q % 15625 == 0
  {
    assert q == 15625 * (12659 * d - 54369991 * q);
  }

  // ----- what set and get mean to each other -----

  /** How far the set falls short of what it should subtract, in microseconds. */
  function CutError(nticks: nat, rate: nat): int
    requires rate > 0
  {
    Micros(nticks, rate) % US - (Micros(nticks, rate) % WRAP) % US
  }

  /** The set's 32-bit product loses nothing that matters. */
  predicate CutIsHarmless(nticks: nat, rate: nat)
    requires rate > 0
  {
    (Micros(nticks, rate) / WRAP) % 15625 == 0
  }

  lemma CutErrorExact(nticks: nat, rate: nat)
    requires rate > 0
    ensures CutError(nticks, rate) == 0 <==> CutIsHarmless(nticks, rate)
    ensures Micros(nticks, rate) < WRAP ==> CutIsHarmless(nticks, rate)
  {
    CutHarmless(Micros(nticks, rate));
  }

  lemma QuotientOrder(m: nat, a: nat, ra: nat, b: nat, rb: nat)
    requires m * a + ra <= m * b + rb && rb < m
    ensures a <= b
  {
    if b < a {
      MulOrder(m, b + 1, a);
    }
  }

  lemma DivOrder(x: nat, y: nat, m: nat)
    requires m > 0 && x <= y
    ensures 0 <= x / m <= y / m
  {
    QuotientOrder(m, x / m, x % m, y / m, y % m);
  }

  /** The seconds since the set fit the 32-bit field before normalisation. */
  predicate Fits(t: Time, nticks: nat, k: nat, rate: nat)
    requires rate > 0
  {
    t.sec + (nticks + k) / rate - nticks / rate < 0x8000_0000
  }

  predicate Settable(t: Time)
  {
    Normalised(t) && -0x8000_0000 <= t.sec < 0x8000_0000
  }

  /** The raw time read k ticks after a set: the seconds in 32 bits, the microseconds at face value. */
  lemma RawAfterSet(t: Time, nticks: nat, k: nat, rate: nat)
    requires rate > 0 && Settable(t)
    ensures var raw := RawTime(ResetTime(t, nticks, rate), nticks + k, rate);
            && raw.sec == Signed32(t.sec + (nticks + k) / rate - nticks / rate)
            && raw.usec == t.usec - (Micros(nticks, rate) % WRAP) % US + Micros(nticks + k, rate) % US
  {
    SignedSum(t.sec - nticks / rate, (nticks + k) / rate);
    hide Micros;
    var cut, later := (Micros(nticks, rate) % WRAP) % US, Micros(nticks + k, rate) % US;
    hide Signed32;
    assert Signed32(t.usec - cut) == t.usec - cut;
    assert Signed32(t.usec - cut + later) == t.usec - cut + later;
  }

  /** A set on this tick is read back on this tick: the cut is harmless, or the time set is
      zero and the clamp hides that the cut took too much. */
  predicate ComesBack(t: Time, nticks: nat, rate: nat)
    requires rate > 0
  {
    CutIsHarmless(nticks, rate) || (t == Time(0, 0) && CutError(nticks, rate) < 0)
  }

  function Max(a: int, b: int): int { if a >= b then a else b }

  /** A raw time that is not too late is shown with its own total, cut off at zero. */
  lemma ShownExact(raw: Time)
    requires -0x8000_0000 <= raw.sec && -US < raw.usec
    ensures Normalised(Shown(raw))
    ensures raw.sec >= 0 && Total(raw) < TOO_LATE ==> Total(Shown(raw)) == Max(0, Total(raw))
    ensures Shown(raw) == Time(0, 0) || (Total(Shown(raw)) == Total(raw) <==> Total(raw) < TOO_LATE)
    ensures Total(Shown(raw)) == Total(raw) || (raw.usec < 0 && Total(raw) < 0) || Total(raw) >= TOO_LATE
    ensures Total(Shown(raw)) < TOO_LATE
  {
    if !(raw.usec < 0 && Total(raw) < 0) {
      assert Total(raw) / US >= -0x8000_0000;
      FieldKeeps(Total(raw) / US, Total(raw) % US);
    }
  }

  lemma SameTotal(t: Time, u: Time)
    requires Normalised(t) && Normalised(u)
    ensures Total(t) == Total(u) <==> t == u
  {
  }

  /** A time read on the tick it was set shows the time set, whatever the tick rate, exactly
      when the 32-bit cut is harmless or hidden by the clamp; otherwise it is off by the cut. */
  lemma ReadBack(t: Time, nticks: nat, rate: nat)
    requires 0 < rate && Settable(t) && nticks < WRAP
    ensures var u := Reading(ResetTime(t, nticks, rate), nticks, rate);
            && Normalised(u)
            && (t.sec >= 0 && Total(t) + CutError(nticks, rate) < TOO_LATE ==>
                  Total(u) == Max(0, Total(t) + CutError(nticks, rate)))
            && (u == t <==> ComesBack(t, nticks, rate))
  {
    RawAfterSet(t, nticks, 0, rate);
    CutErrorExact(nticks, rate);
    hide RawTime, ResetTime, Micros, CutIsHarmless, Shown;
    var raw := RawTime(ResetTime(t, nticks, rate), nticks, rate);
    ShownExact(raw);
    SameTotal(t, Shown(raw));
  }

  lemma SumUp(t: Time, raw: Time, a: int, b: int, cut: int, split: int, later: int, n: int, k: int)
    requires raw.sec == t.sec + b - a && raw.usec == t.usec - cut + later
    requires a * US + split == n && b * US + later == n + k
    ensures Total(raw) == Total(t) + k + (split - cut)
  {
  }

  /** The raw time k ticks after a set, if the tick rate divides a million: off by a whole 2^32
      seconds if they do not fit. */
  lemma RawLater(t: Time, nticks: nat, k: nat, rate: nat)
    requires rate > 0 && rate * TickUs(rate) == US && Settable(t) && t.sec >= 0
    ensures var raw := RawTime(ResetTime(t, nticks, rate), nticks + k, rate);
            var exact := t.sec + (nticks + k) / rate - nticks / rate;
            && raw.sec == Signed32(exact) && exact >= 0 && -US < raw.usec
            && exact * US + raw.usec == Total(t) + Micros(k, rate) + CutError(nticks, rate)
  {
    RawAfterSet(t, nticks, k, rate);
    DivOrder(nticks, nticks + k, rate);
    TickSplit(nticks, rate);
    TickSplit(nticks + k, rate);
    MicrosAdd(nticks, k, rate);
    hide TickUs, Micros, RawTime, ResetTime, Signed32;
    var raw := RawTime(ResetTime(t, nticks, rate), nticks + k, rate);
    var n := Micros(nticks, rate);
    var exact := Time(t.sec + (nticks + k) / rate - nticks / rate, raw.usec);
    SumUp(t, exact, nticks / rate, (nticks + k) / rate, (n % WRAP) % US, n % US,
          Micros(nticks + k, rate) % US, n, Micros(k, rate));
  }

  lemma MicrosPositive(k: nat, rate: nat)
    requires rate > 0 && rate * TickUs(rate) == US
    ensures Micros(k, rate) == 0 <==> k == 0
  {
  }

  /** A total just too late for the field shows as a time before 1970. */
  lemma ShownTooLate(raw: Time)
    requires TOO_LATE <= Total(raw) < TOO_LATE + 2 * US
    ensures Total(Shown(raw)) < 0
  {
    assert 0x8000_0000 <= Total(raw) / US < 0x8000_0002;
  }

  /** What is shown if the seconds do not fit before normalisation: not what is due. */
  lemma ShownUnfit(raw: Time, exact: int, due: int)
    requires 0x8000_0000 <= exact < 0x1_8000_0000 && raw.sec == Signed32(exact)
    requires -US < raw.usec < 2 * US && -US < exact * US + raw.usec - due < US
    ensures Total(Shown(raw)) != due
  {
    assert raw.sec == exact - WRAP;
    hide Shown, Signed32;
    ShownExact(raw);
    if Total(raw) >= TOO_LATE {
      ShownTooLate(raw);
    }
  }

  /** What is shown if they do fit. */
  lemma ShownFit(raw: Time, due: int, err: int)
    requires 0 <= raw.sec < 0x8000_0000 && -US < raw.usec < 2 * US
    requires due >= 0 && -US < err < US && Total(raw) == due + err
    ensures Total(Shown(raw)) == due <==> due < TOO_LATE && (err == 0 || (due == 0 && err < 0))
  {
    hide Shown;
    ShownExact(raw);
    if Total(raw) >= TOO_LATE {
      ShownTooLate(raw);
    }
  }

  /** With a tick rate that divides a million, a clock set at one tick and read k ticks later
      returns the time set plus exactly k tick lengths, normalised, exactly when that time fits
      32-bit fields and the 32-bit cut at the set is harmless, as it is if the product fits 32
      bits; the clamp can hide a harmful cut only from a read of time zero on the same tick. */
  lemma SetThenGet(t: Time, nticks: nat, k: nat, rate: nat)
    requires rate > 0 && rate * TickUs(rate) == US && Settable(t) && t.sec >= 0 && nticks + k < WRAP
    ensures var u := Reading(ResetTime(t, nticks, rate), nticks + k, rate);
            var due := Total(t) + Micros(k, rate);
            && Normalised(u)
            && (Fits(t, nticks, k, rate) && due + CutError(nticks, rate) < TOO_LATE ==>
                  Total(u) == Max(0, due + CutError(nticks, rate)))
            && (Total(u) == due <==>
                  && Fits(t, nticks, k, rate) && due < TOO_LATE
                  && (CutIsHarmless(nticks, rate) || (t == Time(0, 0) && k == 0 && CutError(nticks, rate) < 0)))
    ensures Micros(nticks, rate) < WRAP ==> CutIsHarmless(nticks, rate)
  {
    RawLater(t, nticks, k, rate);
    RawAfterSet(t, nticks, k, rate);
    CutErrorExact(nticks, rate);
    MicrosPositive(k, rate);
    SameTotal(t, Time(0, 0));
    SecondsPassed(nticks, k, rate);
    var raw := RawTime(ResetTime(t, nticks, rate), nticks + k, rate);
    var exact := t.sec + (nticks + k) / rate - nticks / rate;
    var due, err := Total(t) + Micros(k, rate), CutError(nticks, rate);
    assert -US < err < US && -US < raw.usec < 2 * US;
    hide TickUs, Micros, RawTime, ResetTime, CutIsHarmless, CutError, Shown;
    ShownExact(raw);
    if Fits(t, nticks, k, rate) {
      ShownFit(raw, due, err);
    } else {
      ShownUnfit(raw, exact, due);
    }
  }

  lemma SecondsPassed(nticks: nat, k: nat, rate: nat)
    requires rate > 0 && nticks + k < WRAP
    ensures 0 <= (nticks + k) / rate - nticks / rate < WRAP
  {
    DivOrder(nticks, nticks + k, rate);
  }

  /** With a tick every millisecond, 72 minutes after reset, a clock set to 1000 s reads almost
      a second more at once; the clamp hides a like loss from a clock set to zero. */
  lemma TimeSetIsLost()
    ensures Reading(ResetTime(Time(1000, 0), 4294968, 1000), 4294968, 1000) == Time(1000, 967296)
    ensures Reading(ResetTime(Time(0, 0), 4295, 1), 4295, 1) == Time(0, 0) && !CutIsHarmless(4295, 1)
  {
    assert Micros(4294968, 1000) == 4294968000 && Micros(4295, 1) == 4295000000;
    assert 4294968000 % WRAP == 704 && 4295000000 % WRAP == 32704;
    hide Micros;
    assert ResetTime(Time(1000, 0), 4294968, 1000) == Time(-3294, -704);
    assert ResetTime(Time(0, 0), 4295, 1) == Time(-4295, -32704);
    hide ResetTime;
    assert RawTime(Time(-3294, -704), 4294968, 1000) == Time(1000, 967296);
    assert RawTime(Time(-4295, -32704), 4295, 1) == Time(0, -32704);
  }

  /** A millisecond after the last one that 32-bit seconds can hold, the clock reads 1901. */
  lemma TimeRunsOut()
    ensures Reading(ResetTime(Time(0x7FFF_FFFF, 999_999), 0, 1000), 1, 1000) == Time(-0x8000_0000, 999)
  {
  }

  // ----- does the clock ever run backwards? -----

  /** The microseconds the code sees pass in n ticks. */
  function Elapsed(n: nat, rate: nat): int
    requires rate > 0
  {
    (n / rate) * US + Micros(n, rate) % US
  }

  /** The time n ticks after reset fits the fields. */
  predicate InRange(reset: Time, n: nat, rate: nat)
    requires rate > 0
  {
    n < WRAP && Total(reset) + Elapsed(n, rate) < TOO_LATE
  }

  lemma ReadingElapsed(reset: Time, n: nat, rate: nat)
    requires rate > 0 && Normalised(reset) && reset.sec >= 0 && InRange(reset, n, rate)
    ensures Total(Reading(reset, n, rate)) == Total(reset) + Elapsed(n, rate)
  {
    var raw := RawTime(reset, n, rate);
    assert 0 <= Micros(n, rate) % US < US;
    DivOrder(0, n, rate);
    hide Micros, Shown;
    assert raw == Time(reset.sec + n / rate, reset.usec + Micros(n, rate) % US);
    ShownExact(raw);
  }

  /** A tick rate that divides a million, or exceeds it, makes time pass in order. */
  lemma ElapsedOrder(n: nat, m: nat, rate: nat)
    requires rate > 0 && n <= m && (rate > US || rate * TickUs(rate) == US)
    ensures Elapsed(n, rate) <= Elapsed(m, rate)
  {
    DivOrder(n, m, rate);
    if rate > US {
      assert TickUs(rate) == 0 && Micros(n, rate) == Micros(m, rate) == 0;
    } else {
      TickSplit(n, rate);
      TickSplit(m, rate);
      MicrosAdd(n, m - n, rate);
    }
  }

  /** j is the number of ticks past the first second after which its microseconds start anew. */
  lemma StartsAnew(rate: nat, us: nat, e: nat) returns (j: nat)
    requires us > 0 && 0 < e < rate
    ensures 0 < j < rate && (j - 1) * us < e <= j * us
  {
    j := (e + us - 1) / us;
    var r := (e + us - 1) % us;
    assert e + us - 1 == us * j + r;
    assert (j - 1) * us == j * us - us;
    assert e + us <= us * rate by {
      MulOrder(rate - 1, 1, us);
      assert us * rate == us * (rate - 1) + us;
    }
    if j >= rate {
      MulOrder(us, rate, j);
      assert false;
    }
  }

  /** Any other tick rate makes the clock jump back once it has gone past a second. */
  lemma Backwards(rate: nat) returns (n: nat)
    requires 0 < rate <= US && rate * TickUs(rate) != US
    ensures n < 2 * rate && Elapsed(n + 1, rate) < Elapsed(n, rate) < 2 * US
  {
    var us, e := TickUs(rate), US % rate;
    assert US == rate * us + e;
    assert us > 0 by {
      DivUnique(rate, rate, 1, 0);
      DivOrder(rate, US, rate);
    }
    var j := StartsAnew(rate, us, e);
    n := rate + j - 1;
    DivUnique(n, rate, 1, j - 1);
    DivUnique(n + 1, rate, 1, j);
    assert Micros(n, rate) == US - e + (j - 1) * us by {
      assert (rate + (j - 1)) * us == rate * us + (j - 1) * us;
    }
    assert Micros(n + 1, rate) == US - e + j * us by {
      assert (rate + j) * us == rate * us + j * us;
    }
    assert j * us == (j - 1) * us + us;
    assert us < US by {
      MulOrder(us, 2, rate);
    }
    assert (j - 1) * us >= 0;
    DivUnique(Micros(n, rate), US, 0, US - e + (j - 1) * us);
    DivUnique(Micros(n + 1, rate), US, 1, j * us - e);
  }

  predicate InOrder(reset: Time, rate: nat, n: nat, m: nat)
    requires rate > 0
  {
    n <= m && InRange(reset, n, rate) && InRange(reset, m, rate) ==>
      Total(Reading(reset, n, rate)) <= Total(Reading(reset, m, rate))
  }

  /** The clock never runs backwards while it is in range, exactly if the tick rate divides a
      million or exceeds it. */
  lemma NeverBackwardsExact(reset: Time, rate: nat)
    requires rate > 0 && Normalised(reset) && 0 <= reset.sec < 0x7FFF_FFFD
    ensures (forall n: nat, m: nat :: InOrder(reset, rate, n, m)) <==> rate > US || rate * TickUs(rate) == US
  {
    hide Elapsed, Reading, TickUs;
    if rate > US || rate * TickUs(rate) == US {
      forall n: nat, m: nat
        ensures InOrder(reset, rate, n, m)
      {
        if n <= m && InRange(reset, n, rate) && InRange(reset, m, rate) {
          ElapsedOrder(n, m, rate);
          ReadingElapsed(reset, n, rate);
          ReadingElapsed(reset, m, rate);
        }
      }
    } else {
      var n := Backwards(rate);
      ReadingElapsed(reset, n, rate);
      ReadingElapsed(reset, n + 1, rate);
      assert !InOrder(reset, rate, n, n + 1);
    }
  }

  /** Three ticks a second: the fourth tick reads two thirds of a second before the third. */
  lemma RunsBackwards()
    ensures Reading(Time(0, 0), 3, 3) == Time(1, 999_999) && Reading(Time(0, 0), 4, 3) == Time(1, 333_332)
  {
  }
}
