/** Integer conversions of alt_log_private_printf and the %x of alt_printf, and the proof that
    the text they print reads back as the number. */
module IntFormat {
  import opened Arith

  const WRAP: nat := 0x1_0000_0000
  const SIGN_BIT: nat := 0x8000_0000

  predicate IsBase(base: nat) { base == 8 || base == 10 || base == 16 }

  // ----- numerals -----

  /** Unsigned division by one of the three bases. */
  function Quot(v: nat, base: nat): (q: nat)
    requires IsBase(base)
    ensures q * base + Rem(v, base) == v
    ensures if v < base then q == 0 else 0 < q < v
  {
    if base == 8 then v / 8 else if base == 10 then v / 10 else v / 16
  }

  function Rem(v: nat, base: nat): (r: nat)
    requires IsBase(base)
    ensures r < base && (v < base ==> r == v)
  {
    if base == 8 then v % 8 else if base == 10 then v % 10 else v % 16
  }

  /** The digits of v, most significant first. */
  function Digits(v: nat, base: nat): (ds: seq<nat>)
    requires IsBase(base)
    ensures ds != [] && forall i :: 0 <= i < |ds| ==> ds[i] < base
    ensures ds[0] == 0 ==> v == 0 && ds == [0]
    decreases v
  {
    if v < base then [v] else Digits(Quot(v, base), base) + [Rem(v, base)]
  }

  /** What a digit sequence is worth. */
  function Value(ds: seq<nat>, base: nat): nat
  {
    if ds == [] then 0 else Value(ds[..|ds| - 1], base) * base + ds[|ds| - 1]
  }

  lemma {:induction false} DigitsValue(v: nat, base: nat)
    requires IsBase(base)
    ensures Value(Digits(v, base), base) == v
    decreases v
  {
    hide Quot, Rem;
    var ds := Digits(v, base);
    if v < base {
      assert ds[..0] == [];
      assert 0 * base == 0;
    } else {
      DigitsValue(Quot(v, base), base);
      assert ds[..|ds| - 1] == Digits(Quot(v, base), base);
    }
  }

  function DigitChar(d: nat, upper: bool): char
    requires d < 16
  {
    if d < 10 then ('0' as int + d) as char
    else ((if upper then 'A' else 'a') as int + d - 10) as char
  }

  /** The digit a character stands for, 16 for any other character. */
  function CharDigit(c: char): nat
  {
    if '0' <= c <= '9' then c as nat - '0' as nat
    else if 'a' <= c <= 'f' then c as nat - 'a' as nat + 10
    else if 'A' <= c <= 'F' then c as nat - 'A' as nat + 10
    else 16
  }

  function Text(ds: seq<nat>, upper: bool): (s: string)
    requires forall i :: 0 <= i < |ds| ==> ds[i] < 16
    ensures |s| == |ds|
  {
    seq(|ds|, i requires 0 <= i < |ds| => DigitChar(ds[i], upper))
  }

  function Repeat(c: char, n: int): (s: string)
    ensures |s| == if n > 0 then n else 0
    ensures forall i :: 0 <= i < |s| ==> s[i] == c
  {
    if n <= 0 then [] else Repeat(c, n - 1) + [c]
  }

  // ----- reading back -----

  /** A run of digit characters as a number. */
  function ReadNat(s: string, base: nat): nat
  {
    if s == [] then 0 else ReadNat(s[..|s| - 1], base) * base + CharDigit(s[|s| - 1])
  }

  /** Skip blanks, take a sign, read the digits. */
  function ReadInt(s: string, base: nat): int
  {
    if s == [] then 0
    else if s[0] == ' ' then ReadInt(s[1..], base)
    else if s[0] == '-' then -(ReadNat(s[1..], base) as int)
    else ReadNat(s, base)
  }

  lemma {:induction false} ReadText(ds: seq<nat>, base: nat, upper: bool)
    requires forall i :: 0 <= i < |ds| ==> ds[i] < 16
    ensures ReadNat(Text(ds, upper), base) == Value(ds, base)
    decreases |ds|
  {
    if ds != [] {
      ReadText(ds[..|ds| - 1], base, upper);
      assert Text(ds, upper)[..|ds| - 1] == Text(ds[..|ds| - 1], upper);
    }
  }

  lemma {:induction false} ReadOnlyZeros(n: int, base: nat)
    ensures ReadNat(Repeat('0', n), base) == 0
    decreases n
  {
    if n > 0 {
      assert Repeat('0', n)[..n - 1] == Repeat('0', n - 1);
      ReadOnlyZeros(n - 1, base);
      assert 0 * base == 0;
    }
  }

  lemma {:induction false} ReadZeros(n: int, s: string, base: nat)
    ensures ReadNat(Repeat('0', n) + s, base) == ReadNat(s, base)
    decreases |s|
  {
    hide Repeat;
    var t := Repeat('0', n) + s;
    if s == [] {
      ReadOnlyZeros(n, base);
      assert t == Repeat('0', n);
    } else {
      assert t[..|t| - 1] == Repeat('0', n) + s[..|s| - 1];
      ReadZeros(n, s[..|s| - 1], base);
    }
  }

  lemma {:induction false} ReadBlanks(n: int, s: string, base: nat)
    ensures ReadInt(Repeat(' ', n) + s, base) == ReadInt(s, base)
    decreases n
  {
    var t := Repeat(' ', n) + s;
    if n <= 0 {
      assert t == s;
    } else {
      assert t[1..] == Repeat(' ', n - 1) + s;
      ReadBlanks(n - 1, s, base);
    }
  }

  // ----- the conversion -----

  /** A conversion specification: %d or %i, %u, %o, %x, %X with flags and field width. */
  datatype Spec = Spec(base: nat, signed: bool, upper: bool, leadingZero: bool, width: Width)

  datatype Width = NoWidth | Width(n: nat)

  function Negative(v: nat, f: Spec): bool { f.signed && v >= SIGN_BIT }

  function Magnitude(v: nat, f: Spec): nat
    requires v < WRAP
  {
    if Negative(v, f) then WRAP - v else v
  }

  /** How many fill characters the field width asks for. */
  function Fill(v: nat, f: Spec): int
    requires v < WRAP && IsBase(f.base)
  {
    (if f.width.Width? then f.width.n else -1) - |Digits(Magnitude(v, f), f.base)| - (if Negative(v, f) then 1 else 0)
  }

  /** The printed text: sign and zeros, or blanks and sign, then the digits. */
  function Printed(v: nat, f: Spec): string
    requires v < WRAP && IsBase(f.base)
  {
    var sign := Sign(Negative(v, f));
    var digits := Text(Digits(Magnitude(v, f), f.base), f.upper);
    (if f.leadingZero then sign + Repeat('0', Fill(v, f)) else Repeat(' ', Fill(v, f)) + sign) + digits
  }

  function Max(a: int, b: int): int { if a >= b then a else b }

  lemma ReadUnsigned(s: string, base: nat)
    requires s != [] && s[0] != ' ' && s[0] != '-'
    ensures ReadInt(s, base) == ReadNat(s, base)
    ensures ReadInt("-" + s, base) == -(ReadNat(s, base) as int)
  {
    assert ("-" + s)[1..] == s;
  }

  lemma FirstDigit(ds: seq<nat>, upper: bool)
    requires ds != [] && forall i :: 0 <= i < |ds| ==> ds[i] < 16
    ensures Text(ds, upper)[0] != ' ' && Text(ds, upper)[0] != '-'
  {
  }

  function Sign(negative: bool): string { if negative then "-" else "" }

  function Signed(negative: bool, n: nat): int { if negative then -(n as int) else n }

  lemma ReadZeroPadded(negative: bool, zeros: int, digits: string, base: nat)
    requires digits != [] && digits[0] != ' ' && digits[0] != '-'
    ensures ReadInt(Sign(negative) + Repeat('0', zeros) + digits, base) == Signed(negative, ReadNat(digits, base))
  {
    hide ReadInt, ReadNat, Repeat;
    var padded := Repeat('0', zeros) + digits;
    ReadZeros(zeros, digits, base);
    assert padded[0] == if zeros > 0 then '0' else digits[0];
    ReadUnsigned(padded, base);
    assert Sign(negative) + Repeat('0', zeros) + digits == if negative then "-" + padded else padded;
  }

  lemma ReadBlankPadded(negative: bool, blanks: int, digits: string, base: nat)
    requires digits != [] && digits[0] != ' ' && digits[0] != '-'
    ensures ReadInt(Repeat(' ', blanks) + Sign(negative) + digits, base) == Signed(negative, ReadNat(digits, base))
  {
    hide ReadInt, ReadNat, Repeat;
    var signed := if negative then "-" + digits else digits;
    ReadUnsigned(digits, base);
    ReadBlanks(blanks, signed, base);
    assert Repeat(' ', blanks) + Sign(negative) + digits == Repeat(' ', blanks) + signed;
  }

  /** Round trip: the text reads back as the number, for every 32-bit value, base, flag and
      width; it is as long as the width asks, or just long enough; and its digits have no
      leading zero of their own. */
  lemma PrintedReadsBack(v: nat, f: Spec)
    requires v < WRAP && IsBase(f.base)
    ensures ReadInt(Printed(v, f), f.base) == if f.signed && v >= 0x8000_0000 then v - 0x1_0000_0000 else v
    ensures var ds := Digits(Magnitude(v, f), f.base);
            && |Printed(v, f)| == Max(if f.width.Width? then f.width.n else 0,
                                      |ds| + if Negative(v, f) then 1 else 0)
            && (ds[0] == 0 ==> Magnitude(v, f) == 0 && |ds| == 1)
  {
    var ds := Digits(Magnitude(v, f), f.base);
    DigitsValue(Magnitude(v, f), f.base);
    ReadText(ds, f.base, f.upper);
    FirstDigit(ds, f.upper);
    PrintedLength(v, f);
    hide Digits, Text, Value, ReadInt, ReadNat, Repeat, Sign, Fill;
    if f.leadingZero {
      ReadZeroPadded(Negative(v, f), Fill(v, f), Text(ds, f.upper), f.base);
    } else {
      ReadBlankPadded(Negative(v, f), Fill(v, f), Text(ds, f.upper), f.base);
    }
  }

  lemma PrintedLength(v: nat, f: Spec)
    requires v < WRAP && IsBase(f.base)
    ensures |Printed(v, f)| == Max(if f.width.Width? then f.width.n else 0,
                                   |Digits(Magnitude(v, f), f.base)| + if Negative(v, f) then 1 else 0)
  {
    hide Digits, Text, Repeat;
  }

  // ----- what the flags mean -----

  /** A character that may stand for a digit, in the letter case asked for. */
  predicate IsDigit(c: char, base: nat, upper: bool)
  {
    || ('0' <= c <= '9' && c as nat - '0' as nat < base)
    || (base == 16 && upper && 'A' <= c <= 'F')
    || (base == 16 && !upper && 'a' <= c <= 'f')
  }

  predicate AllDigits(s: string, base: nat, upper: bool)
  {
    forall i | 0 <= i < |s| :: IsDigit(s[i], base, upper)
  }

  lemma TextDigits(ds: seq<nat>, base: nat, upper: bool)
    requires IsBase(base) && forall i :: 0 <= i < |ds| ==> ds[i] < base
    ensures AllDigits(Text(ds, upper), base, upper)
  {
  }

  /** Before the digits stand blanks and then the sign, or with the zero flag the sign and then
      zeros; the digits after them are of the base, in the letter case asked for, and do not
      begin with a zero unless the number is zero. */
  lemma PrintedShape(v: nat, f: Spec) returns (fill: string, digits: string)
    requires v < WRAP && IsBase(f.base)
    ensures AllDigits(digits, f.base, f.upper) && digits != []
    ensures digits[0] == '0' ==> v == 0 && digits == "0"
    ensures Printed(v, f) == if f.leadingZero then Sign(Negative(v, f)) + fill + digits
                             else fill + Sign(Negative(v, f)) + digits
    ensures forall c | c in fill :: c == if f.leadingZero then '0' else ' '
    ensures fill != [] ==> f.width.Width? && |Printed(v, f)| == f.width.n
  {
    var ds := Digits(Magnitude(v, f), f.base);
    digits := Text(ds, f.upper);
    fill := Repeat(if f.leadingZero then '0' else ' ', Fill(v, f));
    TextDigits(ds, f.base, f.upper);
    assert ds[0] != 0 ==> digits[0] != '0';
    PrintedReadsBack(v, f);
  }

  /** So the zero flag leaves no blank in the text, and without it a fill begins with one. */
  lemma PaddingExact(v: nat, f: Spec)
    requires v < WRAP && IsBase(f.base)
    ensures f.leadingZero ==> ' ' !in Printed(v, f)
    ensures !f.leadingZero && Fill(v, f) > 0 ==> Printed(v, f)[0] == ' '
    ensures f.upper ==> forall c | c in Printed(v, f) :: !('a' <= c <= 'f')
    ensures !f.upper ==> forall c | c in Printed(v, f) :: !('A' <= c <= 'F')
    ensures '-' in Printed(v, f) <==> Negative(v, f)
  {
    var fill, digits := PrintedShape(v, f);
    hide Printed, Digits, Text, Magnitude;
    if !f.leadingZero && Fill(v, f) > 0 && fill == [] {
      PrintedReadsBack(v, f);
      assert false;
    }
  }

  // ----- the digit loops -----

  function Pow(base: nat, k: nat): nat
  {
    if k == 0 then 1 else Pow(base, k - 1) * base
  }

  /** The k low digits of v, zeros included, most significant first. */
  function Padded(v: nat, base: nat, k: nat): (ds: seq<nat>)
    requires IsBase(base)
    ensures |ds| == k && forall i :: 0 <= i < k ==> ds[i] < base
    decreases k
  {
    if k == 0 then [] else Padded(Quot(v, base), base, k - 1) + [Rem(v, base)]
  }

  lemma {:induction false} DigitsPadded(v: nat, base: nat)
    requires IsBase(base)
    ensures Digits(v, base) == Padded(v, base, |Digits(v, base)|)
    decreases v
  {
    hide Quot, Rem;
    if v < base {
      assert Padded(Quot(v, base), base, 0) == [];
    } else {
      DigitsPadded(Quot(v, base), base);
    }
  }

  lemma {:induction false} PowPositive(base: nat, k: nat)
    requires base >= 2
    ensures Pow(base, k) >= 1
    decreases k
  {
    if k > 0 {
      PowPositive(base, k - 1);
      assert Pow(base, k - 1) * base >= base;
    }
  }

  /** v has as many digits as the largest power of the base not above it says. */
  lemma {:induction false} LargestPlace(v: nat, base: nat)
    requires IsBase(base) && v > 0
    ensures Pow(base, |Digits(v, base)| - 1) <= v < Pow(base, |Digits(v, base)|)
    decreases v
  {
    hide Quot, Rem;
    if v < base {
      assert Pow(base, 0) == 1 && Pow(base, 1) == base;
    } else {
      var q, n := Quot(v, base), |Digits(Quot(v, base), base)|;
      LargestPlace(q, base);
      MulOrder(base, Pow(base, n - 1), q);
      MulOrder(base, q + 1, Pow(base, n));
      assert (q + 1) * base == q * base + base;
    }
  }

  /** Dividing by a higher place splits through the quotient by the base. */
  lemma PlaceSplit(v: nat, base: nat, p: nat)
    requires IsBase(base) && p > 0
    ensures p * base > 0 && v / (p * base) == Quot(v, base) / p
    ensures v % (p * base) == (Quot(v, base) % p) * base + Rem(v, base)
  {
    hide Quot, Rem;
    var q, r := Quot(v, base), Rem(v, base);
    var a, b := q / p, q % p;
    assert q == a * p + b;
    assert q * base == a * (p * base) + b * base;
    MulOrder(base, b + 1, p);
    assert (b + 1) * base == b * base + base;
    DivUnique(v, p * base, a, b * base + r);
  }

  lemma QuotUnique(v: nat, base: nat, q: nat, r: nat)
    requires IsBase(base) && v == q * base + r && r < base
    ensures Quot(v, base) == q && Rem(v, base) == r
  {
  }

  /** The printing loop's step: the top one of k + 1 digits is v / p, the rest are v mod p's. */
  lemma {:induction false} TopDigit(v: nat, base: nat, k: nat)
    requires IsBase(base) && v < Pow(base, k + 1)
    ensures Pow(base, k) > 0 && v / Pow(base, k) < base
    ensures Padded(v, base, k + 1) == [v / Pow(base, k)] + Padded(v % Pow(base, k), base, k)
    decreases k
  {
    hide Quot, Rem;
    PowPositive(base, k);
    if k == 0 {
      assert Pow(base, 1) == base;
      assert Padded(Quot(v, base), base, 0) == [];
    } else {
      var q, r, p := Quot(v, base), Rem(v, base), Pow(base, k - 1);
      PowPositive(base, k - 1);
      if q >= Pow(base, k) {
        MulOrder(base, Pow(base, k), q);
      }
      TopDigit(q, base, k - 1);
      PlaceSplit(v, base, p);
      QuotUnique(v % (p * base), base, q % p, r);
      assert Padded(v % Pow(base, k), base, k) == Padded(q % p, base, k - 1) + [r];
    }
  }

  lemma {:induction false} PowGrows(base: nat, i: nat, j: nat)
    requires base >= 2 && i <= j
    ensures Pow(base, i) <= Pow(base, j)
    decreases j
  {
    if i < j {
      PowGrows(base, i, j - 1);
      assert Pow(base, j - 1) * base >= Pow(base, j - 1);
    }
  }

  lemma PlaceDown(base: nat, k: nat)
    requires IsBase(base)
    ensures Quot(Pow(base, k), base) == if k == 0 then 0 else Pow(base, k - 1)
  {
    if k > 0 {
      QuotUnique(Pow(base, k), base, Pow(base, k - 1), 0);
    }
  }

  /** One turn of the printing loop. */
  lemma PlaceStep(v: nat, base: nat, k: nat)
    requires IsBase(base) && k > 0 && v < Pow(base, k)
    ensures var p := Pow(base, k - 1);
            && p > 0 && v / p < base && v % p < p
            && Padded(v, base, k) == [v / p] + Padded(v % p, base, k - 1)
            && Quot(p, base) == if k == 1 then 0 else Pow(base, k - 2)
  {
    TopDigit(v, base, k - 1);
    PlaceDown(base, k - 1);
  }

  lemma TextCons(d: nat, ds: seq<nat>, upper: bool)
    requires d < 16 && forall i :: 0 <= i < |ds| ==> ds[i] < 16
    ensures Text([d] + ds, upper) == [DigitChar(d, upper)] + Text(ds, upper)
  {
  }

  lemma LeadingPlace(v: nat, base: nat)
    requires IsBase(base)
    ensures v < Pow(base, |Digits(v, base)|)
  {
    if v > 0 {
      LargestPlace(v, base);
    } else {
      PowPositive(base, 1);
    }
  }

  lemma DigitCount(v: nat, base: nat, n: nat)
    requires IsBase(base) && n > 0 && Pow(base, n - 1) <= v < Pow(base, n) && v > 0
    ensures |Digits(v, base)| == n
  {
    LargestPlace(v, base);
    var m := |Digits(v, base)|;
    if m < n {
      PowGrows(base, m, n - 1);
    } else if n < m {
      PowGrows(base, n, m - 1);
    }
  }

  /** Hexadecimal digit k of v: (v & (0xF << 4k)) >> 4k. */
  function Nibble(v: nat, k: nat): nat
  {
    PowPositive(16, k);
    (v / Pow(16, k)) % 16
  }

  lemma SplitTwice(v: nat, p: nat)
    requires p > 0
    ensures p * 16 > 0
    ensures (v % (p * 16)) / p == (v / p) % 16
    ensures (v % (p * 16)) % p == v % p
  {
    var q, r := v / p, v % p;
    var a, b := q / 16, q % 16;
    assert q * p == a * (p * 16) + b * p;
    MulOrder(p, b + 1, 16);
    assert (b + 1) * p == b * p + p;
    DivUnique(v, p * 16, a, b * p + r);
    DivUnique(b * p + r, p, b, r);
  }

  /** Cutting v to its k + 1 low hexadecimal digits, the top one is digit k of v. */
  lemma NibbleTop(v: nat, k: nat)
    ensures Pow(16, k) > 0 && Pow(16, k + 1) > 0
    ensures (v % Pow(16, k + 1)) / Pow(16, k) == Nibble(v, k)
    ensures (v % Pow(16, k + 1)) % Pow(16, k) == v % Pow(16, k)
  {
    PowPositive(16, k);
    PowPositive(16, k + 1);
    SplitTwice(v, Pow(16, k));
  }

  // ----- the printing routines -----

  /** The character port; alt_log_txchar waits for it and alt_putchar is the same to us. */
  class Port {
    var text: string

    constructor ()
      ensures text == ""
    {
      text := "";
    }

    method PutChar(c: char)
      modifies this
      ensures text == old(text) + [c]
    {
      text := text + [c];
    }

    /** alt_log_repchar */
    method RepChar(c: char, r: int)
      modifies this
      ensures text == old(text) + Repeat(c, r)
    {
      var left := r;
      var done := 0;
      while left > 0
        invariant done == r - left && (r >= 0 ==> left >= 0) && (r < 0 ==> left == r)
        invariant text == old(text) + Repeat(c, done)
        decreases left
      {
        left := left - 1;
        done := done + 1;
        PutChar(c);
      }
      assert r < 0 ==> Repeat(c, r) == Repeat(c, 0);
    }

    /** The digit character as the code computes it, in an unsigned char. */
    method PutDigit(digit: nat, upper: bool)
      requires digit < 16
      modifies this
      ensures text == old(text) + [DigitChar(digit, upper)]
    {
      var d := digit + '0' as nat;
      if d > '9' as nat {
        d := d + (if upper then 'A' as nat else 'a' as nat) - '0' as nat - 10;
      }
      PutChar(d as char);
    }

    /** How long the numeral is and what its first digit counts for; the 32-bit product is exact. */
    method CountDigits(v: nat, base: nat) returns (digitCount: nat, p: nat)
      requires v < WRAP && IsBase(base)
      ensures digitCount == |Digits(v, base)| && p == Pow(base, digitCount - 1)
    {
      hide Quot, Rem;
      if v > 0 {
        LargestPlace(v, base);
      }
      var vShrink: nat := v;
      p, digitCount := 1, 1;
      assert Pow(base, 0) == 1;
      while Quot(vShrink, base) > 0
        invariant vShrink <= v && digitCount >= 1 && p == Pow(base, digitCount - 1)
        invariant |Digits(v, base)| == digitCount - 1 + |Digits(vShrink, base)|
        decreases vShrink
      {
        vShrink := Quot(vShrink, base);
        digitCount := digitCount + 1;
        PowGrows(base, digitCount - 1, |Digits(v, base)| - 1);
        p := (p * base) % WRAP;
      }
    }

    /** The numeral itself, from its first digit to its last. */
    method PutDigits(v0: nat, p0: nat, base: nat, upper: bool, ghost k0: nat)
      requires IsBase(base) && k0 > 0 && p0 == Pow(base, k0 - 1) && v0 < Pow(base, k0)
      modifies this
      ensures text == old(text) + Text(Padded(v0, base, k0), upper)
    {
      hide Quot, Rem, Padded, DigitChar, Pow, Text;
      var v: nat, p: nat := v0, p0;
      ghost var k: nat := k0;
      while p != 0
        invariant v < Pow(base, k) && p == (if k == 0 then 0 else Pow(base, k - 1))
        invariant old(text) + Text(Padded(v0, base, k0), upper) == text + Text(Padded(v, base, k), upper)
        decreases k
      {
        PlaceStep(v, base, k);
        TextCons(v / p, Padded(v % p, base, k - 1), upper);
        assert text + Text(Padded(v, base, k), upper)
               == text + [DigitChar(v / p, upper)] + Text(Padded(v % p, base, k - 1), upper);
        PutDigit(v / p, upper);
        v, p, k := v % p, Quot(p, base), k - 1;
      }
      if k > 0 {
        PowPositive(base, k - 1);
      }
      assert text + Text(Padded(v, base, 0), upper) == text;
    }

    /** What stands before the numeral: sign and zeros, or blanks and sign. */
    method PutLead(sign: bool, leadingZero: bool, room: int)
      modifies this
      ensures var fill := room - if sign then 1 else 0;
              text == old(text) + if leadingZero then Sign(sign) + Repeat('0', fill)
                                  else Repeat(' ', fill) + Sign(sign)
    {
      hide Repeat;
      var fmtBeforeDecimal := room;
      if leadingZero {
        if sign {
          PutChar('-');
          fmtBeforeDecimal := fmtBeforeDecimal - 1;
        }
        RepChar('0', fmtBeforeDecimal);
      } else {
        if sign {
          fmtBeforeDecimal := fmtBeforeDecimal - 1;
        }
        RepChar(' ', fmtBeforeDecimal);
        if sign {
          PutChar('-');
        }
      }
    }

    /** doIntegerPrint of alt_log_private_printf. */
    method PrintInteger(arg: nat, f: Spec)
      requires arg < WRAP && IsBase(f.base)
      modifies this
      ensures text == old(text) + Printed(arg, f)
    {
      hide Digits, Pow, Padded, Repeat, Text;
      var v: nat, sign := arg, false;
      if f.signed && v >= SIGN_BIT {
        v := (WRAP - v) % WRAP;
        sign := true;
      }
      var digitCount, p := CountDigits(v, f.base);
      DigitsPadded(v, f.base);
      LeadingPlace(v, f.base);
      PutLead(sign, f.leadingZero, (match f.width case NoWidth => -1 case Width(n) => n) - digitCount);
      PutDigits(v, p, f.base, f.upper, digitCount);
    }

    /** The %x of alt_printf: find the first non-zero hexadecimal digit, then print down;
        `k` stands for digit_shift / 4. */
    method PrintHex(v: nat)
      requires v < WRAP
      modifies this
      ensures text == old(text) + Printed(v, Spec(16, false, false, false, NoWidth))
    {
      ghost var hex := Text(Digits(v, 16), false);
      assert Printed(v, Spec(16, false, false, false, NoWidth)) == hex;
      if v == 0 {
        PutChar('0');
        assert hex == "0";
        return;
      }
      var top := FirstNibble(v);
      DigitsPadded(v, 16);
      PutNibbles(v, top);
    }

    method FirstNibble(v: nat) returns (k: nat)
      requires 0 < v < WRAP
      ensures Pow(16, k) <= v < Pow(16, k + 1) && |Digits(v, 16)| == k + 1
    {
      hide Digits;
      k := 7;
      PowEight();
      while Nibble(v, k) == 0
        invariant v < Pow(16, k + 1)
        decreases k
      {
        NibbleTop(v, k);
        Small(v, Pow(16, k), Pow(16, k + 1));
        k := k - 1;
      }
      NibbleTop(v, k);
      Small(v, Pow(16, k), Pow(16, k + 1));
      DigitCount(v, 16, k + 1);
    }

    method PutNibbles(v: nat, top: nat)
      requires v < Pow(16, top + 1)
      modifies this
      ensures text == old(text) + Text(Padded(v, 16, top + 1), false)
    {
      hide Padded, DigitChar, Nibble, Pow;
      PowPositive(16, top + 1);
      var k: int := top;
      Small(v, 1, Pow(16, top + 1));
      while k >= 0
        invariant -1 <= k <= top && Pow(16, k + 1) > 0
        invariant old(text) + Text(Padded(v, 16, top + 1), false)
                  == text + Text(Padded(v % Pow(16, k + 1), 16, k + 1), false)
      {
        NibbleTop(v, k);
        TopDigit(v % Pow(16, k + 1), 16, k);
        ghost var rest := Padded(v % Pow(16, k), 16, k);
        var digit := Nibble(v, k);
        assert Text([digit] + rest, false) == [DigitChar(digit, false)] + Text(rest, false);
        ghost var before := text;
        PutDigit(digit, false);
        assert before + ([DigitChar(digit, false)] + Text(rest, false)) == text + Text(rest, false);
        k := k - 1;
      }
      assert text + Text(Padded(v % Pow(16, 0), 16, 0), false) == text;
    }
  }

  lemma PowEight()
    ensures Pow(16, 8) == WRAP
  {
    assert Pow(16, 2) == 256;
    assert Pow(16, 4) == 65536;
    assert Pow(16, 6) == 16777216;
  }

  lemma Small(v: nat, p: nat, m: nat)
    requires p > 0 && v < m
    ensures v % m == v
    ensures v / p == 0 <==> v < p
  {
    if v < p {
      DivUnique(v, p, 0, v);
    }
    DivUnique(v, m, 0, v);
  }
}
