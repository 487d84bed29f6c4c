/** Which way the order of `Value` runs: types by their enumerators, null last, numbers by size, strings by
    their first difference. */
module ValueOrder {
  import opened Bytes
  import C = CharString
  import opened Value

  // ---------- Types, null and alternatives ----------

  /** Values of different types follow the enumerators, whatever they hold. */
  lemma TypesInOrder(a: Value, b: Value, i: nat, j: nat)
    requires i < 8 && j < 8
    requires var order := [UNDEFINED, INTEGER, FLOAT, VARCHAR, BOOLEAN, TIMESTAMP, CHAR, MAX_TYPE];
             a.type_ == order[i] && b.type_ == order[j] && a.type_ != b.type_
    ensures Less(a, b) <==> i < j
    ensures !Equal(a, b)
  {
  }

  /** Within a type null is greater than everything else and == to itself. */
  lemma NullIsLast(a: Value, b: Value)
    requires a.type_ == b.type_ && b.isNull
    ensures Less(a, b) <==> !a.isNull
    ensures !Less(b, a)
    ensures Equal(a, b) <==> a.isNull
  {
  }

  /** Two values that hold something of the same type. */
  predicate Alike(a: Value, b: Value) {
    a.type_ == b.type_ && !a.isNull && !b.isNull
  }

  /** Values of one type that hold different alternatives follow the order of the alternatives in the
      variant. */
  lemma AlternativesInOrder(a: Value, b: Value, i: nat, j: nat)
    requires Alike(a, b) && i < 6 && j < 6 && i != j
    requires var order := [a.data.IntData?, a.data.FloatData?, a.data.BoolData?, a.data.StringData?, a.data.LongData?,
                           a.data.CharData?]; order[i]
    requires var order := [b.data.IntData?, b.data.FloatData?, b.data.BoolData?, b.data.StringData?, b.data.LongData?,
                           b.data.CharData?]; order[j]
    ensures Less(a, b) <==> i < j
    ensures !Equal(a, b)
  {
  }

  lemma NumbersBySize(a: Value, b: Value)
    requires Alike(a, b)
    ensures a.data.IntData? && b.data.IntData? ==>
              (Less(a, b) <==> a.data.i < b.data.i) && (Equal(a, b) <==> a.data.i == b.data.i)
    ensures a.data.LongData? && b.data.LongData? ==>
              (Less(a, b) <==> a.data.l < b.data.l) && (Equal(a, b) <==> a.data.l == b.data.l)
    ensures a.data.BoolData? && b.data.BoolData? ==>
              (Less(a, b) <==> !a.data.b && b.data.b) && (Equal(a, b) <==> a.data.b == b.data.b)
  {
  }

  // ---------- Floats ----------

  function Pow2(n: nat): nat
    ensures Pow2(n) > 0
  {
    if n == 0 then 1 else 2 * Pow2(n - 1)
  }

  lemma {:induction false} Pow2Add(m: nat, n: nat)
    ensures Pow2(m + n) == Pow2(m) * Pow2(n)
  {
    if n > 0 {
      Pow2Add(m, n - 1);
      assert Pow2(m + n) == 2 * Pow2(m + (n - 1));
    }
  }

  lemma {:induction false} Pow2Monotone(m: nat, n: nat)
    requires m <= n
    ensures Pow2(m) <= Pow2(n)
  {
    if m < n {
      Pow2Monotone(m, n - 1);
    }
  }

  /** The eight bits of the exponent and the 23 of the fraction. */
  function Exponent(f: FloatBits): nat {
    f % 0x8000_0000 / 0x80_0000
  }

  function Fraction(f: FloatBits): nat {
    f % 0x80_0000
  }

  /** All ones in the exponent stand for no number: an infinity, or a NaN if the fraction is not zero. */
  predicate Finite(f: FloatBits) {
    Exponent(f) < 255
  }

  /** The magnitude in units of 2^-149: below the least exponent the fraction alone, else the fraction with
      a leading one, doubled with every step of the exponent. */
  function Units(f: FloatBits): nat {
    if Exponent(f) == 0 then Fraction(f) else (0x80_0000 + Fraction(f)) * Pow2(Exponent(f) - 1)
  }

  /** The number a finite bit pattern stands for (section 3.4 of IEEE 754-2008). */
  function Number(f: FloatBits): real {
    var magnitude := Units(f) as real / Pow2(149) as real;
    if f >= 0x8000_0000 then -magnitude else magnitude
  }

  const INFINITY: FloatBits := 0x7F80_0000
  const MINUS_INFINITY: FloatBits := 0xFF80_0000

  lemma PartsOf(f: FloatBits)
    ensures f % 0x8000_0000 == Exponent(f) * 0x80_0000 + Fraction(f)
    ensures Exponent(f) <= 255 && Fraction(f) < 0x80_0000
    ensures IsNaN(f) <==> Exponent(f) == 255 && Fraction(f) != 0
    ensures !IsNaN(f) && !Finite(f) <==> f == INFINITY || f == MINUS_INFINITY
  {
  }

  /** The bits below the sign, read as a number, grow with the magnitude. */
  lemma UnitsGrow(f: FloatBits, g: FloatBits)
    requires f % 0x8000_0000 < g % 0x8000_0000
    ensures Units(f) < Units(g)
  {
    PartsOf(f);
    PartsOf(g);
    var e, d := Exponent(f), Exponent(g);
    if e == d {
      if e > 0 {
        SameScale(0x80_0000 + Fraction(f), 0x80_0000 + Fraction(g), Pow2(e - 1));
      }
    } else {
      UnitsBelow(f);
      Pow2Monotone(e, d - 1);
      SameScale(0x80_0000, 0x80_0000 + Fraction(g), Pow2(d - 1));
      ScaleUp(0x80_0000, Pow2(e), Pow2(d - 1));
    }
  }

  lemma SameScale(a: nat, b: nat, scale: nat)
    requires scale > 0
    ensures a < b ==> a * scale < b * scale
    ensures a <= b ==> a * scale <= b * scale
  {
  }

  lemma ScaleUp(a: nat, low: nat, high: nat)
    requires low <= high
    ensures a * low <= a * high
  {
  }

  /** Below the least number with the next exponent. */
  lemma UnitsBelow(f: FloatBits)
    ensures Units(f) < 0x80_0000 * Pow2(Exponent(f))
  {
    PartsOf(f);
    var e := Exponent(f);
    if e > 0 {
      SameScale(0x80_0000 + Fraction(f), 0x100_0000, Pow2(e - 1));
      assert Pow2(e) == 2 * Pow2(e - 1);
    } else {
      assert Pow2(0) == 1;
    }
  }

  lemma Divide(a: nat, b: nat, unit: nat)
    requires unit > 0
    ensures a < b <==> a as real / unit as real < b as real / unit as real
    ensures a as real / unit as real >= 0.0
    ensures a == 0 ==> a as real / unit as real == 0.0
  {
  }

  lemma MagnitudesByBits(f: FloatBits, g: FloatBits)
    ensures f % 0x8000_0000 < g % 0x8000_0000 <==> Units(f) < Units(g)
    ensures f % 0x8000_0000 == 0 <==> Units(f) == 0
  {
    if f % 0x8000_0000 < g % 0x8000_0000 {
      UnitsGrow(f, g);
    } else if g % 0x8000_0000 < f % 0x8000_0000 {
      UnitsGrow(g, f);
    } else {
      PartsOf(f);
      PartsOf(g);
    }
    assert Units(0) == 0;
    if f % 0x8000_0000 == 0 {
      assert Exponent(f) == 0 && Fraction(f) == 0;
    } else {
      UnitsGrow(0, f);
    }
  }

  /** Numbers with a sign, given by magnitudes x and y that run as m and n do. */
  lemma WithSigns(m: int, n: int, x: real, y: real, minus: bool, minusToo: bool)
    requires m >= 0 && n >= 0 && x >= 0.0 && y >= 0.0
    requires (m < n <==> x < y) && (n < m <==> y < x)
    requires (m == 0 <==> x == 0.0) && (n == 0 <==> y == 0.0)
    ensures (if minus then -m else m) < (if minusToo then -n else n) <==>
            (if minus then -x else x) < (if minusToo then -y else y)
  {
  }

  lemma RankIs(f: FloatBits)
    ensures FloatRank(f) == if f >= 0x8000_0000 then -(f % 0x8000_0000) else f % 0x8000_0000
  {
  }

  /** The ranks run as the numbers do. */
  lemma RanksByNumber(f: FloatBits, g: FloatBits)
    ensures FloatRank(f) < FloatRank(g) <==> Number(f) < Number(g)
  {
    hide Units, Pow2, FloatRank;
    RankIs(f);
    RankIs(g);
    MagnitudesByBits(f, g);
    MagnitudesByBits(g, f);
    Divide(Units(f), Units(g), Pow2(149));
    Divide(Units(g), Units(f), Pow2(149));
    Divide(0, Units(f), Pow2(149));
    Divide(0, Units(g), Pow2(149));
    WithSigns(f % 0x8000_0000, g % 0x8000_0000, Units(f) as real / Pow2(149) as real,
              Units(g) as real / Pow2(149) as real, f >= 0x8000_0000, g >= 0x8000_0000);
  }

  /** Finite floats are ordered as the numbers they stand for; the infinities stand at the two ends; and a
      NaN is neither less than, greater than, nor == to anything. */
  lemma FloatsByNumber(a: Value, b: Value)
    requires Alike(a, b) && a.data.FloatData? && b.data.FloatData?
    ensures var f, g := a.data.f, b.data.f;
            && (Finite(f) && Finite(g) ==>
                  (Less(a, b) <==> Number(f) < Number(g)) && (Equal(a, b) <==> Number(f) == Number(g)))
            && (Finite(f) ==> (g == INFINITY ==> Less(a, b)) && (g == MINUS_INFINITY ==> Less(b, a)))
            && (f == MINUS_INFINITY && g == INFINITY ==> Less(a, b))
            && (f == g && (f == INFINITY || f == MINUS_INFINITY) ==> Equal(a, b) && !Less(a, b))
            && (!Finite(g) && g != INFINITY && g != MINUS_INFINITY ==> !Less(a, b) && !Less(b, a) && !Equal(a, b))
  {
    hide Number, FloatRank, Finite, IsNaN, Less, Equal, Alike;
    var f, g := a.data.f, b.data.f;
    FloatsByRank(a, b);
    NotNumbers(f);
    NotNumbers(g);
    RanksByNumber(f, g);
    RanksByNumber(g, f);
    Infinities(f);
  }

  lemma FloatsByRank(a: Value, b: Value)
    requires Alike(a, b) && a.data.FloatData? && b.data.FloatData?
    ensures var f, g := a.data.f, b.data.f;
            && (Less(a, b) <==> !IsNaN(f) && !IsNaN(g) && FloatRank(f) < FloatRank(g))
            && (Less(b, a) <==> !IsNaN(f) && !IsNaN(g) && FloatRank(g) < FloatRank(f))
            && (Equal(a, b) <==> !IsNaN(f) && !IsNaN(g) && FloatRank(f) == FloatRank(g))
  {
    hide IsNaN, FloatRank;
  }

  lemma NotNumbers(f: FloatBits)
    ensures IsNaN(f) <==> !Finite(f) && f != INFINITY && f != MINUS_INFINITY
    ensures !Finite(INFINITY) && !Finite(MINUS_INFINITY)
  {
    PartsOf(f);
  }

  lemma Infinities(f: FloatBits)
    ensures Finite(f) ==> FloatRank(MINUS_INFINITY) < FloatRank(f) < FloatRank(INFINITY)
    ensures FloatRank(MINUS_INFINITY) < FloatRank(INFINITY)
  {
    PartsOf(f);
  }

  lemma Scales()
    ensures 0x80_0000 * Pow2(126) == Pow2(149) && 0x80_0000 * Pow2(127) == 2 * Pow2(149)
  {
    Pow2Add(8, 8);
    Pow2Add(16, 7);
    assert Pow2(8) == 256 && Pow2(7) == 128;
    hide Pow2;
    Pow2Add(126, 23);
    Pow2Add(127, 23);
    Doubled(149);
  }

  lemma Doubled(n: nat)
    ensures Pow2(n + 1) == 2 * Pow2(n)
  {
  }

  lemma Share(n: nat, unit: nat)
    requires unit > 0
    ensures (n * unit) as real / unit as real == n as real
  {
    assert (n * unit) as real == n as real * unit as real;
  }

  /** 1.0, -2.0 and the least positive number. */
  lemma FloatExamples()
    ensures Number(0x3F80_0000) == 1.0 && Number(0xC000_0000) == -2.0 && Number(1) == 1.0 / Pow2(149) as real
  {
    Scales();
    hide Pow2;
    Share(1, Pow2(149));
    Share(2, Pow2(149));
    assert Units(0x3F80_0000) == 1 * Pow2(149) && Units(0xC000_0000) == 2 * Pow2(149) && Units(1) == 1;
  }

  // ---------- Strings ----------

  /** `a` comes first: it ends, or has the lower byte, at the first place n where the two differ. */
  predicate FirstAt(a: seq<Byte>, b: seq<Byte>, n: nat) {
    n <= |a| && n < |b| && a[..n] == b[..n] && (n == |a| || a[n] < b[n])
  }

  lemma {:induction false} LexByFirstDifference(a: seq<Byte>, b: seq<Byte>)
    ensures C.LexLess(a, b) <==> exists n: nat :: FirstAt(a, b, n)
  {
    if n: nat :| FirstAt(a, b, n) {
      C.LexAt(a, b, n);
    }
    if C.LexLess(a, b) {
      var n := Difference(a, b);
      C.LexAt(a, b, n);
      assert FirstAt(a, b, n);
    }
  }

  lemma Difference(a: seq<Byte>, b: seq<Byte>) returns (n: nat)
    ensures n <= |a| && n <= |b| && a[..n] == b[..n] && (n == |a| || n == |b| || a[n] != b[n])
  {
    n := 0;
    while n < |a| && n < |b| && a[n] == b[n]
      invariant n <= |a| && n <= |b| && a[..n] == b[..n]
    {
      n := n + 1;
    }
  }

  /** What is left of a string without the blanks (bytes 32) at its end. */
  predicate WithoutBlanks(s: seq<Byte>, t: seq<Byte>) {
    && t <= s && (forall i :: |t| <= i < |s| ==> s[i] == 32)
    && (t != [] ==> t[|t| - 1] != 32)
  }

  /** VARCHAR values follow the first difference of their bytes, and a longer one its beginning; CHAR values
      do so without the blanks at their ends. */
  lemma StringsByBytes(a: Value, b: Value, s: seq<Byte>, t: seq<Byte>)
    requires Alike(a, b)
    requires if a.data.StringData? then b.data.StringData? && s == a.data.s && t == b.data.s
             else a.data.CharData? && b.data.CharData?
                  && WithoutBlanks(a.data.c.data, s) && WithoutBlanks(b.data.c.data, t)
    ensures Less(a, b) <==> exists n: nat :: FirstAt(s, t, n)
    ensures Equal(a, b) <==> s == t
  {
    LexByFirstDifference(s, t);
    if a.data.CharData? {
      OnlyTrimmed(a.data.c.data, s);
      OnlyTrimmed(b.data.c.data, t);
    }
    hide FirstAt, C.LexLess;
  }

  lemma OnlyTrimmed(s: seq<Byte>, t: seq<Byte>)
    ensures WithoutBlanks(s, t) <==> t == C.Trimmed(s)
  {
    var u := C.Trimmed(s);
    assert WithoutBlanks(s, u);
    if WithoutBlanks(s, t) {
      assert u != [] ==> s[|u| - 1] != 32;
      assert t != [] ==> s[|t| - 1] != 32;
    }
  }

  // ---------- The derived operators ----------

  /** <= is less or ==; > and >= are the negations of <= and <, so both are true of a NaN. */
  lemma DerivedOperators(a: Value, b: Value)
    ensures LessOrEqual(a, b) <==> Less(a, b) || Equal(a, b)
    ensures Greater(a, b) <==> !Less(a, b) && !Equal(a, b)
    ensures GreaterOrEqual(a, b) <==> !Less(a, b)
    ensures Unordered(a, b) ==>
              !Less(a, b) && !LessOrEqual(a, b) && !Equal(a, b) && Greater(a, b) && GreaterOrEqual(a, b)
  {
  }
}
