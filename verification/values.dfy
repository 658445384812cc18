/**
  Two of the engine's value kinds: the 16-bit unsigned integer value, whose
  arithmetic wraps around modulo 2^16, and the rate value, a pair of
  doubles (main value and duration) whose double reading is their
  quotient, clamped when the duration is zero. Doubles are modelled as
  reals.
*/
module Values {
  import opened CubeTypes

  /** Largest finite double, (2^53 - 1) * 2^971. */
  const DblMax: real := 179769313486231570814527423731704356798070567525844996598917476803157260780028538760589558632766878171540458953514382464234321326889464182768467546703537516986049910576551282076245490090389328944075868508455133942304583236903222948165808559332123348274797826204144723168738177180919299881250404026184124858368.0

  /** Smallest positive normalised double, 2^-1022. */
  const DblMin: real := 1.0 / 44942328371557897693232629769725618340449424473557664318357520289433168951375240783177119330601884005280028469967848339414697442203604155623211857659868531094441973356216371319075554900311523529863270738021251442209537670585615720368478277635206809290837627671146574559986811484619929076208839082406056034304.0

  /** Bytes of one stored double. */
  const DoubleSize: nat := 8

  /** `myDataType` of the two kinds. */
  datatype DataType = Uint16Type | RateType

  // ---------------------------------------------------------------- uint16

  const Modulus: int := 0x1_0000

  type U16 = x: int | 0 <= x < 0x1_0000

  /** `getSize`: a uint16 occupies two bytes. */
  function UsSize(): nat { 2 }

  function UsDataType(): DataType { Uint16Type }

  /** `getDouble`: the stored integer, exactly. */
  function UsDouble(a: U16): (d: real)
    ensures 0.0 <= d < Modulus as real
    ensures d.Floor == a
  {
    a as real
  }

  /** `clone` gives a fresh zero; `copy` gives the same value. */
  function UsClone(a: U16): U16 { 0 }
  function UsCopy(a: U16): U16 { a }

  /** `isZero`. */
  predicate UsIsZero(a: U16) { a == 0 }

  /** `+=`: the sum modulo 2^16; a NULL argument changes nothing. */
  function UsAdd(a: U16, b: Option<U16>): (r: U16)
    ensures b.None? ==> r == a
    ensures b.Some? ==> (r - (a + b.value)) % Modulus == 0
    ensures b.Some? && a + b.value < Modulus ==> r == a + b.value
  {
    match b
    case None => a
    case Some(x) => (a + x) % Modulus
  }

  /** `-=`: the difference modulo 2^16; a NULL argument changes nothing. */
  function UsSub(a: U16, b: Option<U16>): (r: U16)
    ensures b.None? ==> r == a
    ensures b.Some? ==> (r - (a - b.value)) % Modulus == 0
    ensures b.Some? && b.value <= a ==> r == a - b.value
  {
    match b
    case None => a
    case Some(x) => (a - x) % Modulus
  }

  /** Two uint16 values congruent modulo 2^16 are equal. */
  lemma CongruentEqual(x: U16, y: U16)
    requires (x - y) % Modulus == 0
    ensures x == y
  {
  }

  /** Adding then subtracting the same value restores the original,
      whatever wrap-around happened in between. */
  lemma AddThenSubRestores(a: U16, b: U16)
    ensures UsSub(UsAdd(a, Some(b)), Some(b)) == a
  {
    var s := UsAdd(a, Some(b));
    var r := UsSub(s, Some(b));
    assert s == (a + b) % Modulus;
    assert r == (s - b) % Modulus;
    assert (a + b) - s == ((a + b) / Modulus) * Modulus;
    assert (s - b) - r == ((s - b) / Modulus) * Modulus;
    assert r - a == -((a + b) / Modulus + (s - b) / Modulus) * Modulus;
    assert (r - a) % Modulus == 0;
    CongruentEqual(r, a);
  }

  /** Subtracting a value from itself gives zero. */
  lemma SubSelfIsZero(a: U16)
    ensures UsIsZero(UsSub(a, Some(a)))
  {
  }

  /** `+=` is commutative and associative, as modular addition is. */
  lemma AddCommutes(a: U16, b: U16)
    ensures UsAdd(a, Some(b)) == UsAdd(b, Some(a))
  {
  }

  lemma {:induction false} AddAssociates(a: U16, b: U16, c: U16)
    ensures UsAdd(UsAdd(a, Some(b)), Some(c)) == UsAdd(a, Some(UsAdd(b, Some(c))))
  {
    var l := UsAdd(UsAdd(a, Some(b)), Some(c));
    var r := UsAdd(a, Some(UsAdd(b, Some(c))));
    var ab := UsAdd(a, Some(b));
    var bc := UsAdd(b, Some(c));
    assert (a + b) - ab == ((a + b) / Modulus) * Modulus;
    assert (b + c) - bc == ((b + c) / Modulus) * Modulus;
    assert (ab + c) - l == ((ab + c) / Modulus) * Modulus;
    assert (a + bc) - r == ((a + bc) / Modulus) * Modulus;
    assert l - r == ((b + c) / Modulus + (a + bc) / Modulus - (a + b) / Modulus - (ab + c) / Modulus) * Modulus;
    assert (l - r) % Modulus == 0;
    CongruentEqual(l, r);
  }

  /** The clone of any value is zero, and the copy reads as the original. */
  lemma CloneCopy(a: U16)
    ensures UsIsZero(UsClone(a))
    ensures UsDouble(UsCopy(a)) == UsDouble(a)
  {
  }

  // ---------------------------------------------------------------- rate

  /** A rate: main value over duration. */
  datatype Rate = Rate(main: real, duration: real)

  /** `getSize`: the sizes of the two doubles together. */
  function RateSize(): (n: nat)
    ensures n == DoubleSize + DoubleSize
  {
    2 * DoubleSize
  }

  function RateDataType(): DataType { RateType }

  /** `getDouble`: the quotient; for a zero duration, the largest double
      with the numerator's sign (non-negative for a zero numerator). */
  function RateDouble(r: Rate): (d: real)
    ensures r.duration != 0.0 ==> d * r.duration == r.main
    ensures r.duration == 0.0 && r.main < 0.0 ==> d == -DblMax
    ensures r.duration == 0.0 && r.main >= 0.0 ==> d == DblMax
  {
    if r.duration == 0.0 then (if r.main < 0.0 then -DblMax else DblMax)
    else r.main / r.duration
  }

  /** `clone` gives (0, 0); `copy` gives both components unchanged. */
  function RateClone(r: Rate): Rate { Rate(0.0, 0.0) }
  function RateCopy(r: Rate): Rate { Rate(r.main, r.duration) }

  /** `isZero`: a zero numerator over a non-zero duration. */
  predicate RateIsZero(r: Rate)
  {
    r.main == 0.0 && r.duration != 0.0
  }

  /** `+=` and `-=` act on each component; NULL changes nothing. */
  function RateAdd(a: Rate, b: Option<Rate>): (r: Rate)
    ensures b.None? ==> r == a
    ensures b.Some? ==> r.main - a.main == b.value.main && r.duration - a.duration == b.value.duration
  {
    match b
    case None => a
    case Some(x) => Rate(a.main + x.main, a.duration + x.duration)
  }

  function RateSub(a: Rate, b: Option<Rate>): (r: Rate)
    ensures b.None? ==> r == a
    ensures b.Some? ==> a.main - r.main == b.value.main && a.duration - r.duration == b.value.duration
  {
    match b
    case None => a
    case Some(x) => Rate(a.main - x.main, a.duration - x.duration)
  }

  /** `*=` scales both components. */
  function RateMul(a: Rate, x: real): (r: Rate)
    ensures x != 0.0 ==> r.main / x == a.main && r.duration / x == a.duration
    ensures x == 0.0 ==> r == Rate(0.0, 0.0)
  {
    Rate(a.main * x, a.duration * x)
  }

  /** `/=` divides both components; a zero divisor is replaced by the
      smallest positive double. */
  function RateDiv(a: Rate, x: real): (r: Rate)
    ensures x != 0.0 ==> r.main * x == a.main && r.duration * x == a.duration
    ensures x == 0.0 ==> r.main * DblMin == a.main && r.duration * DblMin == a.duration
  {
    var d := if x == 0.0 then DblMin else x;
    Rate(a.main / d, a.duration / d)
  }

  /** Adding then subtracting the same rate restores the original. */
  lemma RateAddThenSubRestores(a: Rate, b: Rate)
    ensures RateSub(RateAdd(a, Some(b)), Some(b)) == a
  {
  }

  /** Scaling by a non-zero factor keeps a rate's reading: the ratio is
      preserved. Scaling by zero turns every rate into the clamped (0, 0). */
  lemma MulKeepsRatio(a: Rate, x: real)
    requires x != 0.0 && a.duration != 0.0
    ensures RateDouble(RateMul(a, x)) == RateDouble(a)
    ensures RateIsZero(RateMul(a, x)) <==> RateIsZero(a)
  {
    var r := RateMul(a, x);
    assert r.duration == a.duration * x;
    assert r.duration != 0.0;
    assert RateDouble(r) * r.duration == r.main;
    assert (RateDouble(r) * a.duration) * x == a.main * x;
    assert RateDouble(r) * a.duration == a.main;
    assert RateDouble(a) * a.duration == a.main;
  }

  lemma MulByZeroClamps(a: Rate)
    ensures RateDouble(RateMul(a, 0.0)) == DblMax
    ensures !RateIsZero(RateMul(a, 0.0))
  {
  }

  /** Division never reaches a zero divisor, so it too keeps the reading
      of a rate with a non-zero duration, and a division by zero acts as a
      division by the smallest positive double. */
  lemma DivKeepsRatio(a: Rate, x: real)
    requires a.duration != 0.0
    ensures RateDouble(RateDiv(a, x)) == RateDouble(a)
    ensures RateDiv(a, 0.0) == RateDiv(a, DblMin)
  {
    var d := if x == 0.0 then DblMin else x;
    var r := RateDiv(a, x);
    assert d != 0.0;
    assert r.duration * d == a.duration;
    assert r.duration != 0.0;
    assert RateDouble(r) * r.duration == r.main;
    assert (RateDouble(r) * r.duration) * d == r.main * d;
    assert r.main * d == a.main;
    assert RateDouble(r) * a.duration == a.main;
    assert RateDouble(a) * a.duration == a.main;
  }

  /** A fresh clone is not zero (its duration is zero) and reads as the
      largest double; a copy reads as its original. */
  lemma RateCloneCopy(a: Rate)
    ensures !RateIsZero(RateClone(a)) && RateDouble(RateClone(a)) == DblMax
    ensures RateCopy(a) == a && RateDouble(RateCopy(a)) == RateDouble(a)
  {
  }
}
