/** The SQL value model: typed values, schemas and tables. */
module Values {
  import opened Bytes
  import opened OrderedMap

  datatype TypeId = TNull | TBoolean | TInteger | TReal | TText | TBlob

  /** The on-disk number of a type. */
  function Tag(t: TypeId): Byte {
    match t
    case TNull => 0
    case TBoolean => 1
    case TInteger => 2
    case TReal => 3
    case TText => 4
    case TBlob => 5
  }

  /** A REAL is kept as its 64-bit pattern. */
  datatype Value =
    | Null
    | Boolean(truth: bool)
    | Integer(number: I64)
    | Real(bits: U64)
    | Text(text: Bytes)
    | Blob(blob: Bytes)

  function TypeOf(v: Value): TypeId {
    match v
    case Null => TNull
    case Boolean(_) => TBoolean
    case Integer(_) => TInteger
    case Real(_) => TReal
    case Text(_) => TText
    case Blob(_) => TBlob
  }

  datatype Column = Column(name: Bytes, typ: TypeId, nullable: bool, primaryKey: bool, unique: bool)

  type Row = seq<Value>

  datatype Table = Table(schema: seq<Column>, rows: seq<Row>)

  type Tables = Entries<Table>

  /** Two's complement, and back. */
  function ToU64(i: I64): U64 {
    if i < 0 then i + 0x1_0000_0000_0000_0000 else i
  }

  function ToI64(u: U64): I64 {
    if u < 0x8000_0000_0000_0000 then u else u - 0x1_0000_0000_0000_0000
  }

  // ---- Comparison ----

  /** floor(log2(m)). */
  function Log2(m: nat): nat
    requires m > 0
  {
    if m == 1 then 0 else 1 + Log2(m / 2)
  }

  /** m / d rounded to the nearest integer, ties to even. */
  function RoundHalfEven(m: nat, d: nat): nat
    requires d > 0
  {
    var q, r := m / d, m % d;
    if 2 * r < d || (2 * r == d && q % 2 == 0) then q else q + 1
  }

  /** The 53-bit significand of m, whose leading bit is at e. */
  function Significand(m: nat, e: nat): nat {
    if e <= 52 then m * Pow2(52 - e) else RoundHalfEven(m, Pow2(e - 52))
  }

  /**
   * The place of a double among all doubles: its magnitude bits, negated for a negative sign.
   * Both zeros have place 0; two doubles that are not NaN compare as their places do.
   */
  function PlaceOfBits(bits: U64): Option<int> {
    var magnitude := bits % 0x8000_0000_0000_0000;
    if magnitude > 0x7FF0_0000_0000_0000 then None
    else Some(if bits >= 0x8000_0000_0000_0000 then -magnitude else magnitude)
  }

  function PlaceOfMagnitude(m: nat): int {
    if m == 0 then 0 else (1022 + Log2(m)) * 0x10_0000_0000_0000 + Significand(m, Log2(m))
  }

  /** The place of static_cast<double>(i), rounded to nearest even. */
  function PlaceOfInteger(i: int): int {
    if i < 0 then 0 - PlaceOfMagnitude(-i) else PlaceOfMagnitude(i)
  }

  function Place(v: Value): Option<int> {
    match v
    case Integer(i) => Some(PlaceOfInteger(i))
    case Real(bits) => PlaceOfBits(bits)
    case _ => None
  }

  predicate IsNumber(t: TypeId) {
    t == TInteger || t == TReal
  }

  function Sign(less: bool, greater: bool): int {
    (if greater then 1 else 0) - (if less then 1 else 0)
  }

  /** SQL comparison: None is UNKNOWN. */
  function Compare(a: Value, b: Value): Option<int> {
    if a.Null? || b.Null? then None
    else if IsNumber(TypeOf(a)) && IsNumber(TypeOf(b)) then
      if Place(a).None? || Place(b).None? then None
      else Some(Sign(Place(a).value < Place(b).value, Place(a).value > Place(b).value))
    else
      match (a, b)
      case (Boolean(x), Boolean(y)) => Some(Sign(!x && y, x && !y))
      case (Text(x), Text(y)) => Some(Sign(Less(x, y), Less(y, x)))
      case (Blob(x), Blob(y)) => Some(Sign(Less(x, y), Less(y, x)))
      case _ => None
  }

  /** operator==: NULL equals NULL, UNKNOWN is unequal. */
  predicate Equal(a: Value, b: Value) {
    if a.Null? || b.Null? then a.Null? && b.Null? else Compare(a, b) == Some(0)
  }

  /** A REAL whose bits are not a number. */
  predicate IsNaN(v: Value) {
    v.Real? && PlaceOfBits(v.bits).None?
  }

  /** Every value equals itself, except NaN. */
  lemma EqualItself(v: Value)
    ensures Equal(v, v) <==> !IsNaN(v)
  {
    hide Less;
    match v
    case Text(t) => LessIrreflexive(t);
    case Blob(b) => LessIrreflexive(b);
    case _ =>
  }

  lemma EqualSymmetric(a: Value, b: Value)
    ensures Equal(a, b) == Equal(b, a)
  {
  }

  lemma EqualTexts(a: Bytes, b: Bytes)
    ensures Equal(Text(a), Text(b)) <==> a == b
  {
    LessTotal(a, b);
    LessIrreflexive(a);
    if Less(a, b) {
      LessAsymmetric(a, b);
    }
    if Less(b, a) {
      LessAsymmetric(b, a);
    }
  }

  lemma {:induction false} Log2Bounds(m: nat)
    requires m > 0
    ensures Pow2(Log2(m)) <= m < 2 * Pow2(Log2(m))
  {
    if m > 1 {
      Log2Bounds(m / 2);
    }
  }

  lemma {:induction false} Pow2Sum(a: nat, b: nat)
    ensures Pow2(a) * Pow2(b) == Pow2(a + b)
  {
    if a > 0 {
      Pow2Sum(a - 1, b);
      assert Pow2(a) * Pow2(b) == 2 * (Pow2(a - 1) * Pow2(b));
    }
  }

  lemma {:induction false} Pow2Monotonic(a: nat, b: nat)
    requires a <= b
    ensures Pow2(a) <= Pow2(b)
    decreases b - a
  {
    if a < b {
      Pow2Monotonic(a + 1, b);
    }
  }

  const EXACT: nat := 0x20_0000_0000_0000  // 2^53

  lemma ScaledBounds(low: nat, m: nat, p: nat)
    requires p > 0 && low <= m < 2 * low
    ensures low * p <= m * p < 2 * (low * p)
  {
    assert m * p < 2 * low * p;
  }

  lemma ExactSignificand(m: nat)
    requires 0 < m < EXACT
    ensures Log2(m) <= 52
    ensures Significand(m, Log2(m)) == m * Pow2(52 - Log2(m))
    ensures EXACT / 2 <= Significand(m, Log2(m)) < EXACT
  {
    hide Log2, Pow2, RoundHalfEven;
    var e := Log2(m);
    Log2Bounds(m);
    Pow2At53();
    if e > 52 {
      Pow2Monotonic(53, e);
    } else {
      Pow2Sum(e, 52 - e);
      ScaledBounds(Pow2(e), m, Pow2(52 - e));
    }
  }

  lemma Pow2At53()
    ensures Pow2(52) == EXACT / 2 && Pow2(53) == EXACT
  {
    Pow2Values();
    Pow2Sum(20, 32);
    assert Pow2(20) == 0x10_0000;
  }

  lemma ScaledStrict(a: nat, b: nat, p: nat)
    requires p > 0 && a < b
    ensures a * p < b * p
  {
  }

  lemma Pow2Doubles(n: nat)
    ensures Pow2(n + 1) == 2 * Pow2(n)
  {
  }

  // ---- Rounding keeps the order ----

  lemma RoundMonotonic(m: nat, n: nat, d: nat)
    requires d > 0 && m <= n
    ensures RoundHalfEven(m, d) <= RoundHalfEven(n, d)
  {
    QuotientMonotonic(m, n, d);
    if m / d == n / d {
      assert m % d <= n % d by { SplitByQuotient(m, d); SplitByQuotient(n, d); }
    }
  }

  lemma SplitByQuotient(m: nat, d: nat)
    requires d > 0
    ensures m == d * (m / d) + m % d
  {
  }

  lemma QuotientMonotonic(m: nat, n: nat, d: nat)
    requires d > 0 && m <= n
    ensures m / d <= n / d
  {
    SplitByQuotient(m, d);
    SplitByQuotient(n, d);
    NextMultiple(n / d, m / d, d);
  }

  lemma NextMultiple(p: nat, q: nat, d: nat)
    ensures p < q ==> d * p + d <= d * q
  {
    if p < q {
      assert d * (p + 1) <= d * q;
    }
  }

  lemma RoundExact(q: nat, d: nat)
    requires d > 0
    ensures RoundHalfEven(q * d, d) == q
  {
    SplitByQuotient(q * d, d);
    var k := q * d / d;
    NextMultiple(k, q, d);
    NextMultiple(q, k, d);
  }

  lemma RoundBounds(h: nat, m: nat, d: nat)
    requires d > 0 && h * d <= m <= 2 * (h * d)
    ensures h <= RoundHalfEven(m, d) <= 2 * h
  {
    hide RoundHalfEven;
    RoundExact(h, d);
    RoundExact(2 * h, d);
    RoundMonotonic(h * d, m, d);
    assert 2 * (h * d) == 2 * h * d;
    RoundMonotonic(m, 2 * h * d, d);
  }

  lemma SignificandMonotonic(a: nat, b: nat, e: nat)
    requires a <= b
    ensures Significand(a, e) <= Significand(b, e)
  {
    hide Pow2, RoundHalfEven;
    if e <= 52 {
      assert a * Pow2(52 - e) <= b * Pow2(52 - e);
    } else {
      RoundMonotonic(a, b, Pow2(e - 52));
    }
  }

  lemma SignificandBounds(m: nat)
    requires m > 0
    ensures EXACT / 2 <= Significand(m, Log2(m)) <= EXACT
  {
    hide Log2, Pow2, RoundHalfEven;
    var e := Log2(m);
    Log2Bounds(m);
    Pow2At53();
    if e <= 52 {
      Pow2Sum(e, 52 - e);
      ScaledBounds(Pow2(e), m, Pow2(52 - e));
    } else {
      Pow2Sum(52, e - 52);
      RoundBounds(Pow2(52), m, Pow2(e - 52));
    }
  }

  lemma PlaceMonotonic(a: nat, b: nat)
    requires a <= b
    ensures PlaceOfMagnitude(a) <= PlaceOfMagnitude(b)
  {
    hide Log2, Significand, Pow2;
    if a > 0 {
      SignificandBounds(a);
      SignificandBounds(b);
      Log2Bounds(a);
      Log2Bounds(b);
      var e, f := Log2(a), Log2(b);
      if e == f {
        SignificandMonotonic(a, b, e);
      } else if e > f {
        Pow2Monotonic(f + 1, e);
        Pow2Doubles(f);
      }
    } else if b > 0 {
      SignificandBounds(b);
    }
  }

  lemma PlaceOrdered(a: int, b: int)
    requires a <= b
    ensures PlaceOfInteger(a) <= PlaceOfInteger(b)
  {
    hide PlaceOfMagnitude;
    assert PlaceOfMagnitude(0) == 0 by { PlaceOfZero(); }
    if a >= 0 {
      PlaceMonotonic(a, b);
    } else if b < 0 {
      PlaceMonotonic(-b, -a);
    } else {
      PlaceMonotonic(0, -a);
      PlaceMonotonic(0, b);
    }
  }

  /** Comparing through doubles never turns two integers around: at worst it finds them equal. */
  lemma CompareNeverInverts(a: I64, b: I64)
    requires a < b
    ensures Compare(Integer(a), Integer(b)) in {Some(-1), Some(0)}
  {
    hide PlaceOfInteger;
    PlaceOrdered(a, b);
  }

  lemma PlaceOfZero()
    ensures PlaceOfMagnitude(0) == 0
  {
  }

  // ---- Where it is exact ----

  /** Integers up to 2^53 are told apart, and in their own order. */
  lemma PlaceStrict(a: nat, b: nat)
    requires a < b <= EXACT
    ensures PlaceOfMagnitude(a) < PlaceOfMagnitude(b)
  {
    hide Log2, Significand, Pow2;
    if b == EXACT {
      Pow2At53();
      Log2At(EXACT, 53);
      SignificandBounds(b);
    } else {
      ExactSignificand(b);
    }
    if a > 0 {
      ExactSignificand(a);
      Log2Bounds(a);
      Log2Bounds(b);
      var e, f := Log2(a), Log2(b);
      if b < EXACT && e == f {
        ScaledStrict(a, b, Pow2(52 - e));
      } else if e > f {
        Pow2Monotonic(f + 1, e);
        Pow2Doubles(f);
      }
    }
  }

  lemma PlaceOfSmall(a: int, b: int)
    requires 0 - EXACT <= a < b <= EXACT
    ensures PlaceOfInteger(a) < PlaceOfInteger(b)
  {
    hide PlaceOfMagnitude;
    assert PlaceOfMagnitude(0) == 0 by { PlaceOfZero(); }
    if a >= 0 {
      PlaceStrict(a, b);
    } else if b < 0 {
      PlaceStrict(-b, -a);
    } else {
      PlaceStrict(0, -a);
      if b > 0 {
        PlaceStrict(0, b);
      }
    }
  }

  /** Up to 2^53 either way, comparing through doubles is comparing integers. */
  lemma CompareSmallIntegers(a: I64, b: I64)
    requires 0 - EXACT <= a <= EXACT && 0 - EXACT <= b <= EXACT
    ensures Compare(Integer(a), Integer(b)) == Some(if a < b then -1 else if a > b then 1 else 0)
    ensures Equal(Integer(a), Integer(b)) <==> a == b
  {
    hide PlaceOfInteger;
    if a < b {
      PlaceOfSmall(a, b);
    } else if b < a {
      PlaceOfSmall(b, a);
    }
  }

  /** Beyond that it is not: 2^53 and 2^53 + 1 compare equal. */
  lemma LargeIntegersCollide()
    ensures Equal(Integer(EXACT), Integer(EXACT + 1))
  {
    hide Log2;
    Pow2At53();
    Log2At(EXACT, 53);
    Log2At(EXACT + 1, 53);
    assert Pow2(1) == 2;
    hide Pow2;
    assert Significand(EXACT, 53) == Significand(EXACT + 1, 53);
  }

  /** All integers of magnitude up to a bound are told apart exactly when the bound is at most 2^53. */
  lemma ExactUpTo(bound: nat)
    ensures (forall a: I64, b: I64 ::
               0 - bound <= a <= bound && 0 - bound <= b <= bound ==> (Equal(Integer(a), Integer(b)) <==> a == b))
       <==> bound <= EXACT
  {
    hide Equal;
    if bound <= EXACT {
      forall a: I64, b: I64 | 0 - bound <= a <= bound && 0 - bound <= b <= bound
        ensures Equal(Integer(a), Integer(b)) <==> a == b
      {
        CompareSmallIntegers(a, b);
      }
    } else {
      LargeIntegersCollide();
    }
  }

  // ---- Places against numbers ----

  const HALF: nat := 0x10_0000_0000_0000  // 2^52

  /**
   * The number that magnitude bits stand for, times 2^1074, which makes it an integer: the fraction alone below the
   * first exponent, and otherwise the fraction with a leading one, shifted by the exponent.
   */
  function Scaled(magnitude: nat): nat {
    var exponent, fraction := magnitude / HALF, magnitude % HALF;
    if exponent == 0 then fraction else (HALF + fraction) * Pow2(exponent - 1)
  }

  function SignedScaled(place: int): int {
    if place < 0 then 0 - Scaled(-place) else Scaled(place)
  }

  /** The number a value stands for, times 2^1074; infinities lie beyond all others. */
  function NumberOf(v: Value): int
    requires IsNumber(TypeOf(v)) && !IsNaN(v)
  {
    if v.Integer? then v.number * Pow2(1074) else SignedScaled(PlaceOfBits(v.bits).value)
  }

  lemma ScaledStep(m: nat)
    ensures Scaled(m) < Scaled(m + 1)
  {
    var e, f := m / HALF, m % HALF;
    if f + 1 < HALF {
      assert (m + 1) / HALF == e && (m + 1) % HALF == f + 1;
      if e > 0 {
        ScaledStrict(HALF + f, HALF + f + 1, Pow2(e - 1));
      }
    } else {
      assert (m + 1) / HALF == e + 1 && (m + 1) % HALF == 0;
      if e > 0 {
        Pow2Doubles(e - 1);
        ScaledStrict(HALF + f, 2 * HALF, Pow2(e - 1));
        assert 2 * HALF * Pow2(e - 1) == HALF * Pow2(e);
      }
    }
  }

  /** Larger magnitude bits stand for larger numbers. */
  lemma {:induction false} ScaledIncreases(m: nat, n: nat)
    requires m < n
    ensures Scaled(m) < Scaled(n)
    decreases n
  {
    hide Scaled;
    ScaledStep(n - 1);
    if m < n - 1 {
      ScaledIncreases(m, n - 1);
    }
  }

  lemma SignedIncreases(p: int, q: int)
    requires p < q
    ensures SignedScaled(p) < SignedScaled(q)
  {
    assert Scaled(0) == 0;
    hide Scaled;
    if p >= 0 {
      ScaledIncreases(p, q);
    } else if q <= 0 {
      ScaledIncreases(-q, -p);
    } else {
      ScaledIncreases(0, -p);
      ScaledIncreases(0, q);
    }
  }

  /** The bits that a leading one at e and a significand make. */
  lemma ScaledOfPlace(e: nat, q: nat)
    requires HALF <= q <= 2 * HALF
    ensures Scaled((1022 + e) * HALF + q) == q * Pow2(1022 + e)
  {
    var m := (1022 + e) * HALF + q;
    if q < 2 * HALF {
      assert m == (1023 + e) * HALF + (q - HALF);
      assert m / HALF == 1023 + e && m % HALF == q - HALF;
    } else {
      assert m == (1024 + e) * HALF;
      assert m / HALF == 1024 + e && m % HALF == 0;
      Pow2Doubles(1022 + e);
      assert HALF * Pow2(1023 + e) == 2 * HALF * Pow2(1022 + e);
    }
  }

  /** An integer up to 2^53 stands at the place of its own number. */
  lemma IntegerPlaceExact(m: nat)
    requires m <= EXACT
    ensures Scaled(PlaceOfMagnitude(m)) == m * Pow2(1074)
  {
    hide Log2, Significand, Pow2;
    if m == 0 {
      assert PlaceOfMagnitude(0) == 0 && Scaled(0) == 0;
    } else if m < EXACT {
      var e := Log2(m);
      hide Scaled;
      ExactSignificand(m);
      ScaledOfPlace(e, Significand(m, e));
      Pow2Sum(52 - e, 1022 + e);
      assert m * Pow2(52 - e) * Pow2(1022 + e) == m * (Pow2(52 - e) * Pow2(1022 + e));
    } else {
      hide Scaled;
      TopExact();
    }
  }

  lemma TopExact()
    ensures Scaled(PlaceOfMagnitude(EXACT)) == EXACT * Pow2(1074)
  {
    hide Log2, Scaled;
    Pow2At53();
    Log2At(EXACT, 53);
    assert Pow2(1) == 2;
    assert Significand(EXACT, 53) == HALF;
    hide Pow2, Significand;
    ScaledOfPlace(53, HALF);
    Pow2Doubles(1074);
    assert HALF * Pow2(1075) == EXACT * Pow2(1074);
  }

  /** q steps of width d are nearest to x, and an even number of steps where two are equally near. */
  predicate Nearest(q: nat, d: nat, x: nat) {
    && 2 * (q * d) - 2 * x <= d && 2 * x - 2 * (q * d) <= d
    && (2 * (q * d) - 2 * x == d || 2 * x - 2 * (q * d) == d ==> q % 2 == 0)
  }

  /**
   * Any integer stands at the place of the nearest number with a significand q of 53 bits, and of two that are equally
   * near at the one whose significand is even. In units of 2^-52, it is q steps as wide as the leading bit.
   */
  lemma IntegerPlaceNearest(m: nat)
    requires m > 0
    ensures var q, d := Significand(m, Log2(m)), Pow2(Log2(m));
            && d <= m < 2 * d && HALF <= q <= 2 * HALF
            && Scaled(PlaceOfMagnitude(m)) == q * d * Pow2(1022) && Nearest(q, d, m * HALF)
  {
    hide Log2, Scaled, Significand, Nearest, Pow2;
    var e := Log2(m);
    var q := Significand(m, e);
    SignificandNearest(m, e);
    Log2Bounds(m);
    SignificandBounds(m);
    ScaledOfPlace(e, q);
    Pow2Sum(1022, e);
    Regroup(q, Pow2(1022), Pow2(e), Pow2(1022 + e));
  }

  lemma Regroup(q: nat, a: nat, b: nat, c: nat)
    requires a * b == c
    ensures q * c == q * b * a
  {
    assert q * (a * b) == q * b * a;
  }

  lemma SignificandNearest(m: nat, e: nat)
    ensures Nearest(Significand(m, e), Pow2(e), m * HALF)
  {
    hide Nearest, RoundHalfEven, Pow2;
    Pow2At53();
    if e <= 52 {
      Pow2Sum(52 - e, e);
      assert m * Pow2(52 - e) * Pow2(e) == m * (Pow2(52 - e) * Pow2(e));
      ExactIsNearest(m * Pow2(52 - e), Pow2(e), m * HALF);
    } else {
      var f := Pow2(e - 52);
      Pow2Sum(52, e - 52);
      RoundIsNearest(m, f);
      ScaleNearest(RoundHalfEven(m, f), m, f);
    }
  }

  lemma ExactIsNearest(q: nat, d: nat, x: nat)
    requires q * d == x && d > 0
    ensures Nearest(q, d, x)
  {
  }

  lemma RoundIsNearest(m: nat, d: nat)
    requires d > 0
    ensures Nearest(RoundHalfEven(m, d), d, m)
  {
    hide Nearest;
    SplitByQuotient(m, d);
    NearQuotient(m / d, m % d, d, m);
  }

  lemma NearQuotient(q: nat, r: nat, d: nat, m: nat)
    requires m == d * q + r && r < d
    ensures 2 * r < d || (2 * r == d && q % 2 == 0) ==> Nearest(q, d, m)
    ensures !(2 * r < d || (2 * r == d && q % 2 == 0)) ==> Nearest(q + 1, d, m)
  {
    var x := q * d;
    assert x == d * q && (q + 1) * d == x + d;
  }

  lemma ScaleNearest(q: nat, m: nat, f: nat)
    requires Nearest(q, f, m)
    ensures Nearest(q, HALF * f, m * HALF)
  {
    assert q * (HALF * f) == HALF * (q * f);
  }

  ghost predicate Told(v: Value) {
    IsNumber(TypeOf(v)) && !IsNaN(v) && (v.Integer? ==> 0 - EXACT <= v.number <= EXACT)
  }

  lemma PlaceIsNumber(v: Value)
    requires Told(v)
    ensures Place(v).Some? && SignedScaled(Place(v).value) == NumberOf(v)
  {
    hide PlaceOfMagnitude, Scaled, Pow2;
    if v.Integer? {
      var i: int := v.number;
      assert PlaceOfMagnitude(0) == 0 by { PlaceOfZero(); }
      if i < 0 {
        IntegerPlaceExact(-i);
        PlacePositive(-i);
      } else {
        IntegerPlaceExact(i);
        PlacePositive(i);
      }
    }
  }

  lemma PlacePositive(m: nat)
    ensures PlaceOfMagnitude(m) >= 0 && (m > 0 ==> PlaceOfMagnitude(m) > 0)
  {
    hide Log2;
    if m > 0 {
      SignificandBounds(m);
    }
  }

  /**
   * REAL values, and INTEGER values up to 2^53 either way, compare as the numbers they stand for: with each other and
   * among themselves.
   */
  lemma CompareIsNumeric(a: Value, b: Value)
    requires Told(a) && Told(b)
    ensures Compare(a, b) == Some(if NumberOf(a) < NumberOf(b) then -1 else if NumberOf(a) > NumberOf(b) then 1 else 0)
  {
    hide NumberOf, SignedScaled, Place;
    PlaceIsNumber(a);
    PlaceIsNumber(b);
    var p, q := Place(a).value, Place(b).value;
    if p < q {
      SignedIncreases(p, q);
    } else if q < p {
      SignedIncreases(q, p);
    }
  }

  /** INTEGER 1 and REAL 1.0 are equal, INTEGER 1 and REAL 1.5 are not. */
  lemma OneIsOne()
    ensures Equal(Integer(1), Real(0x3FF0_0000_0000_0000)) && Compare(Integer(1), Real(0x3FF8_0000_0000_0000)) == Some(-1)
  {
    assert Log2(1) == 0 && Pow2(52) == HALF by { Pow2At53(); }
    hide Pow2, Log2;
    assert PlaceOfMagnitude(1) == 0x3FF0_0000_0000_0000;
  }

  /** The other types: false before true, bytes in their order, and no order between types or with NULL and NaN. */
  lemma CompareOthers(a: Value, b: Value)
    ensures a.Boolean? && b.Boolean? ==>
              Compare(a, b) == Some(if !a.truth && b.truth then -1 else if a.truth && !b.truth then 1 else 0)
    ensures a.Text? && b.Text? ==>
              Compare(a, b) == Some(if Less(a.text, b.text) then -1 else if Less(b.text, a.text) then 1 else 0)
              && (Compare(a, b) == Some(0) <==> a.text == b.text)
    ensures a.Blob? && b.Blob? ==>
              Compare(a, b) == Some(if Less(a.blob, b.blob) then -1 else if Less(b.blob, a.blob) then 1 else 0)
              && (Compare(a, b) == Some(0) <==> a.blob == b.blob)
    ensures Compare(a, b).None? <==>
              || a.Null? || b.Null? || IsNaN(a) || IsNaN(b)
              || (TypeOf(a) != TypeOf(b) && !(IsNumber(TypeOf(a)) && IsNumber(TypeOf(b))))
  {
    hide Less, PlaceOfInteger;
    if a.Text? && b.Text? {
      BytesCompare(a.text, b.text);
    } else if a.Blob? && b.Blob? {
      BytesCompare(a.blob, b.blob);
    }
  }

  lemma BytesCompare(x: Bytes, y: Bytes)
    ensures !(Less(x, y) && Less(y, x)) && (!Less(x, y) && !Less(y, x) <==> x == y)
  {
    LessTotal(x, y);
    if Less(x, y) {
      LessAsymmetric(x, y);
    }
    LessIrreflexive(x);
  }

  lemma Log2At(m: nat, e: nat)
    requires Pow2(e) <= m < 2 * Pow2(e)
    ensures m > 0 && Log2(m) == e
    decreases e
  {
    if e > 0 {
      Log2At(m / 2, e - 1);
    }
  }
}
