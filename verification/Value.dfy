/** Column values and their order: src/dimserver/common/value.h and value.cpp (lines 5-39). */
module Value {
  import opened Bytes
  import opened CharString

  datatype Type = UNDEFINED | INTEGER | FLOAT | VARCHAR | BOOLEAN | TIMESTAMP | CHAR | MAX_TYPE
  {
    /** The number of the enumerator. */
    function Code(): int {
      match this
      case UNDEFINED => 0
      case INTEGER => 1
      case FLOAT => 2
      case VARCHAR => 3
      case BOOLEAN => 4
      case TIMESTAMP => 5
      case CHAR => 6
      case MAX_TYPE => 7
    }
  }

  /** The bit pattern of a 32-bit IEEE 754 float. */
  type FloatBits = x: int | 0 <= x < TWO_32

  /** Exponent all ones and a fraction that is not zero. */
  predicate IsNaN(f: FloatBits) {
    f % TWO_31 > 0x7F80_0000
  }

  /** Sign and magnitude as one number: the order of the floats that are not NaN; both zeros get 0. */
  function FloatRank(f: FloatBits): int {
    if f < TWO_31 then f else TWO_31 - f
  }

  /** The variant, in the order of its alternatives. */
  datatype Data =
    | IntData(i: Int32)
    | FloatData(f: FloatBits)
    | BoolData(b: bool)
    | StringData(s: seq<Byte>)
    | LongData(l: Int64)
    | CharData(c: CharString)
  {
    function Index(): int {
      match this
      case IntData(_) => 0
      case FloatData(_) => 1
      case BoolData(_) => 2
      case StringData(_) => 3
      case LongData(_) => 4
      case CharData(_) => 5
    }
  }

  datatype Value = Value(type_: Type, isNull: bool, data: Data)

  /** Value(): null, and the variant holds its first alternative. */
  const DEFAULT := Value(UNDEFINED, true, IntData(0))

  // ---------- The operators ----------

  predicate DataEqual(a: Data, b: Data) {
    match (a, b)
    case (IntData(i), IntData(j)) => i == j
    case (FloatData(f), FloatData(g)) => !IsNaN(f) && !IsNaN(g) && FloatRank(f) == FloatRank(g)
    case (BoolData(x), BoolData(y)) => x == y
    case (StringData(s), StringData(t)) => s == t
    case (LongData(l), LongData(m)) => l == m
    case (CharData(c), CharData(d)) => Trimmed(c.data) == Trimmed(d.data)
    case _ => false
  }

  /** Variants with different alternatives are ordered by the alternative. */
  predicate DataLess(a: Data, b: Data) {
    match (a, b)
    case (IntData(i), IntData(j)) => i < j
    case (FloatData(f), FloatData(g)) => !IsNaN(f) && !IsNaN(g) && FloatRank(f) < FloatRank(g)
    case (BoolData(x), BoolData(y)) => !x && y
    case (StringData(s), StringData(t)) => LexLess(s, t)
    case (LongData(l), LongData(m)) => l < m
    case (CharData(c), CharData(d)) => LexLess(Trimmed(c.data), Trimmed(d.data))
    case _ => a.Index() < b.Index()
  }

  predicate Equal(a: Value, b: Value) {
    if a.type_ != b.type_ || a.isNull != b.isNull then false
    else if a.isNull then true
    else DataEqual(a.data, b.data)
  }

  predicate Less(a: Value, b: Value) {
    if a.type_ != b.type_ then a.type_.Code() < b.type_.Code()
    else if a.isNull || b.isNull then !a.isNull && b.isNull
    else DataLess(a.data, b.data)
  }

  predicate LessOrEqual(a: Value, b: Value) {
    Less(a, b) || Equal(a, b)
  }

  predicate Greater(a: Value, b: Value) {
    !LessOrEqual(a, b)
  }

  predicate GreaterOrEqual(a: Value, b: Value) {
    !Less(a, b)
  }

  // ---------- Laws ----------

  predicate HoldsNaN(v: Value) {
    !v.isNull && v.data.FloatData? && IsNaN(v.data.f)
  }

  /** Both values are floats of the same type, and one of them is a NaN. */
  predicate Unordered(a: Value, b: Value) {
    && a.type_ == b.type_ && !a.isNull && !b.isNull && a.data.FloatData? && b.data.FloatData?
    && (IsNaN(a.data.f) || IsNaN(b.data.f))
  }

  lemma TypeCodesDiffer(a: Type, b: Type)
    ensures a.Code() == b.Code() <==> a == b
  {
  }

  lemma DataIrreflexive(a: Data)
    ensures !DataLess(a, a)
  {
    match a
    case StringData(s) => LexIrreflexive(s);
    case CharData(c) => LexIrreflexive(Trimmed(c.data));
    case _ =>
  }

  lemma DataTransitive(a: Data, b: Data, c: Data)
    requires DataLess(a, b) && DataLess(b, c)
    ensures DataLess(a, c)
  {
    if a.StringData? && b.StringData? && c.StringData? {
      LexTransitive(a.s, b.s, c.s);
    }
    if a.CharData? && b.CharData? && c.CharData? {
      LexTransitive(Trimmed(a.c.data), Trimmed(b.c.data), Trimmed(c.c.data));
    }
  }

  lemma DataTotal(a: Data, b: Data)
    requires !(a.FloatData? && b.FloatData? && (IsNaN(a.f) || IsNaN(b.f)))
    ensures DataLess(a, b) || DataLess(b, a) || DataEqual(a, b)
    ensures DataEqual(a, b) ==> !DataLess(a, b) && !DataLess(b, a)
  {
    if a.StringData? && b.StringData? {
      LexTotal(a.s, b.s);
      LexIrreflexive(a.s);
    }
    if a.CharData? && b.CharData? {
      LexTotal(Trimmed(a.c.data), Trimmed(b.c.data));
      LexIrreflexive(Trimmed(a.c.data));
    }
  }

  /** < is a strict order on all values, NaN included. */
  lemma LessIsStrictOrder(a: Value, b: Value, c: Value)
    ensures !Less(a, a)
    ensures Less(a, b) ==> !Less(b, a)
    ensures Less(a, b) && Less(b, c) ==> Less(a, c)
  {
    LessTransitive(a, b, c);
    LessTransitive(a, b, a);
    DataIrreflexive(a.data);
  }

  lemma LessTransitive(a: Value, b: Value, c: Value)
    ensures Less(a, b) && Less(b, c) ==> Less(a, c)
  {
    TypeCodesDiffer(a.type_, c.type_);
    if DataLess(a.data, b.data) && DataLess(b.data, c.data) {
      DataTransitive(a.data, b.data, c.data);
    }
  }

  /** Two values neither of which is less than the other are == exactly when they are no pair of floats
      with a NaN among them. */
  lemma EquivalenceIsEqualExactly(a: Value, b: Value)
    ensures (!Less(a, b) && !Less(b, a) <==> Equal(a, b)) <==> !Unordered(a, b)
  {
    TypeCodesDiffer(a.type_, b.type_);
    if !Unordered(a, b) && a.type_ == b.type_ && !a.isNull && !b.isNull {
      DataTotal(a.data, b.data);
    }
  }

  /** == is an equivalence; it is reflexive exactly where no NaN is held. */
  lemma EqualIsEquivalence(a: Value, b: Value, c: Value)
    ensures Equal(a, a) <==> !HoldsNaN(a)
    ensures Equal(a, b) ==> Equal(b, a)
    ensures Equal(a, b) && Equal(b, c) ==> Equal(a, c)
  {
  }

  predicate Incomparable(a: Value, b: Value) {
    !Less(a, b) && !Less(b, a)
  }

  predicate FloatIn(v: Value, t: Type) {
    v.type_ == t && !v.isNull && v.data.FloatData?
  }

  /** A NaN stands between two different numbers of its type. */
  predicate NaNBetween(a: Value, b: Value, c: Value) {
    && FloatIn(a, b.type_) && FloatIn(b, b.type_) && FloatIn(c, b.type_)
    && IsNaN(b.data.f) && !IsNaN(a.data.f) && !IsNaN(c.data.f)
    && FloatRank(a.data.f) != FloatRank(c.data.f)
  }

  /** Not being comparable is transitive, as a weak order needs it, exactly when no NaN stands between two
      different numbers. */
  lemma WeakOrderExactly(a: Value, b: Value, c: Value)
    ensures (Incomparable(a, b) && Incomparable(b, c) ==> Incomparable(a, c)) <==> !NaNBetween(a, b, c)
  {
    EquivalenceIsEqualExactly(a, b);
    EquivalenceIsEqualExactly(b, c);
    EquivalenceIsEqualExactly(a, c);
    EqualIsEquivalence(a, b, c);
    EqualIsEquivalence(b, a, c);
    EqualIsEquivalence(c, b, a);
    if Unordered(a, b) || Unordered(b, c) || Unordered(a, c) {
      NaNTriple(a, b, c);
    } else {
      hide Less, Equal;
    }
  }

  /** Among the three there is a NaN compared with a float of its type. */
  lemma NaNTriple(a: Value, b: Value, c: Value)
    requires Unordered(a, b) || Unordered(b, c) || Unordered(a, c)
    ensures (Incomparable(a, b) && Incomparable(b, c) ==> Incomparable(a, c)) <==> !NaNBetween(a, b, c)
  {
    TypeCodesDiffer(a.type_, b.type_);
    TypeCodesDiffer(b.type_, c.type_);
    hide LexLess, Trimmed;
  }

  /** < is a strict weak order on the values without NaN. */
  lemma LessIsWeakOrder(a: Value, b: Value, c: Value)
    requires !HoldsNaN(a) && !HoldsNaN(b) && !HoldsNaN(c)
    ensures Incomparable(a, b) && Incomparable(b, c) ==> Incomparable(a, c)
  {
    WeakOrderExactly(a, b, c);
    hide Incomparable;
  }

  /** With a NaN it is not: 1.0 and 2.0 are both incomparable to a NaN. */
  lemma NaNBreaksWeakOrder()
    ensures exists a, b, c :: Incomparable(a, b) && Incomparable(b, c) && !Incomparable(a, c)
  {
    var one, nan, two := FloatData(0x3F80_0000), FloatData(0x7FC0_0000), FloatData(0x4000_0000);
    var a, b, c := Value(FLOAT, false, one), Value(FLOAT, false, nan), Value(FLOAT, false, two);
    WeakOrderExactly(a, b, c);
    assert NaNBetween(a, b, c);
    hide Incomparable;
  }

  /** Values that are == cannot be told apart by <. */
  lemma EqualIsCongruent(a: Value, b: Value, c: Value)
    requires Equal(a, b)
    ensures Less(a, c) <==> Less(b, c)
    ensures Less(c, a) <==> Less(c, b)
  {
  }

  /** > and >= are the mirror images of < and <= exactly when no NaN is compared. */
  lemma GreaterMirrorsExactly(a: Value, b: Value)
    ensures ((Greater(a, b) <==> Less(b, a)) && (GreaterOrEqual(a, b) <==> LessOrEqual(b, a))) <==> !Unordered(a, b)
  {
    EquivalenceIsEqualExactly(a, b);
    LessIsStrictOrder(a, b, a);
    EqualIsEquivalence(a, b, a);
    if Equal(a, b) {
      assert !Unordered(a, b);
    }
  }

  /** Blanks at the end of a CHAR value, and so its declared length, have no influence on any
      comparison. */
  lemma {:induction false} TrailingBlanksIgnored(s: seq<Byte>, n: nat)
    ensures Trimmed(s + seq(n, _ => BLANK)) == Trimmed(s)
    decreases n
  {
    var t := s + seq(n, _ => BLANK);
    if n == 0 {
      assert t == s;
    } else {
      assert t[..|t| - 1] == s + seq(n - 1, _ => BLANK);
      TrailingBlanksIgnored(s, n - 1);
    }
  }
}
