/** The pseudo-random generator of lib_math.c: its exact period. */
module MathRand {
  import opened Arith

  const RAND_SEED_INIT_VAL: int := 1
  const RAND_LCG_PARAM_M: int := 0x7FFF_FFFF
  const RAND_LCG_PARAM_A: int := 1103515245
  const RAND_LCG_PARAM_B: int := 12345

  /** The generator's modulus. */
  const M: int := RAND_LCG_PARAM_M + 1

  /** Math_RandSeed(): product and sum are taken in a 32-bit unsigned register. */
  function RandSeed(seed: int): (r: int)
    ensures 0 <= r <= RAND_LCG_PARAM_M
  {
    Wrap(Wrap(RAND_LCG_PARAM_A * seed) + RAND_LCG_PARAM_B) % M
  }

  /** The seed held after n calls of Math_Rand(). */
  function After(n: nat, seed: int): int
  {
    if n == 0 then seed else RandSeed(After(n - 1, seed))
  }

  /** The module's global Math_RandSeedCur. */
  class Generator {
    var seedCur: int

    constructor ()
      ensures seedCur == 1
    {
      seedCur := 0;
      new;
      SetSeed(RAND_SEED_INIT_VAL);
    }

    method SetSeed(seed: int)
      modifies this
      ensures seedCur == seed
    {
      seedCur := seed;
    }

    method Rand() returns (randNbr: int)
      modifies this
      ensures randNbr == seedCur == RandSeed(old(seedCur))
      ensures forall n: nat, s: int :: old(seedCur) == After(n, s) ==> seedCur == After(n + 1, s)
    {
      var seed := seedCur;
      randNbr := RandSeed(seed);
      seedCur := randNbr;
    }
  }

  // ----- the geometric sums of the multiplier -----

  /** 1 + A + ... + A^(n-1) */
  function Geo(n: nat): int
  {
    if n == 0 then 0 else 1 + RAND_LCG_PARAM_A * Geo(n - 1)
  }

  lemma {:induction false} GeoAdd(i: nat, j: nat)
    ensures Geo(i + j) == Geo(i) + Power(RAND_LCG_PARAM_A, i) * Geo(j)
  {
    if i > 0 {
      GeoAdd(i - 1, j);
      MulAssoc(RAND_LCG_PARAM_A, Power(RAND_LCG_PARAM_A, i - 1), Geo(j));
    }
  }

  /** Since A is 1 modulo 4, so is every power of it. */
  lemma {:induction false} PowerMod4(n: nat) returns (q: int)
    ensures Power(RAND_LCG_PARAM_A, n) == 1 + 4 * q
  {
    q := 0;
    if n > 0 {
      q := PowerMod4(n - 1);
      q := RAND_LCG_PARAM_A / 4 + RAND_LCG_PARAM_A * q;
    }
  }

  lemma {:induction false} GeoParity(n: nat) returns (q: int)
    ensures Geo(n) == n + 2 * q
  {
    q := 0;
    if n > 0 {
      q := GeoParity(n - 1);
      q := RAND_LCG_PARAM_A / 2 * (n - 1) + RAND_LCG_PARAM_A * q;
    }
  }

  /** Doubling the length doubles the sum, up to an odd factor. */
  lemma GeoDouble(k: nat) returns (o: int)
    ensures o % 2 == 1 && Geo(k + k) == 2 * (Geo(k) * o)
  {
    hide Geo, Power;
    GeoAdd(k, k);
    var q := PowerMod4(k);
    o := 1 + 2 * q;
    Factor(Geo(k), Power(RAND_LCG_PARAM_A, k), o);
  }

  lemma Factor(g: int, p: int, o: int)
    requires p == 2 * o - 1
    ensures g + p * g == 2 * (g * o)
  {
    MulSub(g, 2 * o, 1);
  }

  // ----- factors of two -----

  /** 2^m divides x. */
  predicate Halves(m: nat, x: int)
  {
    m == 0 || (x % 2 == 0 && Halves(m - 1, x / 2))
  }

  lemma {:induction false} HalvesIsDivisibility(m: nat, x: int)
    ensures Halves(m, x) <==> x % Power(2, m) == 0
  {
    if m > 0 {
      HalvesIsDivisibility(m - 1, x / 2);
      HalveDivisibility(Power(2, m - 1), x);
    }
  }

  lemma HalveDivisibility(p: int, x: int)
    requires p > 0
    ensures x % (2 * p) == 0 <==> x % 2 == 0 && x / 2 % p == 0
  {
    if x % 2 == 0 {
      ModHalve(p, x / 2);
    } else {
      DivMod(x, 2 * p);
      MulAssoc(2, p, x / (2 * p));
    }
  }

  /** Multiplying by an odd number neither adds nor removes factors of two. */
  lemma {:induction false} OddFactor(m: nat, x: int, o: int)
    requires o % 2 == 1
    ensures Halves(m, x * o) <==> Halves(m, x)
  {
    if m > 0 {
      ModOfProduct(2, x, o);
      if x % 2 == 0 {
        MulAssoc(2, x / 2, o);
        OddFactor(m - 1, x / 2, o);
      }
    }
  }

  lemma GeoOdd(k: nat)
    ensures Geo(k + k + 1) % 2 == 1
  {
    hide Geo;
    var q := GeoParity(k + k + 1);
    OddNumber(k + q);
  }

  lemma OddNumber(q: int)
    ensures (2 * q + 1) % 2 == 1
  {
    ModUnique(2, q, 1);
  }

  /** The sum of twice the length has one factor of two more than the sum. */
  lemma GeoEven(m: nat, k: nat)
    ensures Halves(m + 1, Geo(k + k)) <==> Halves(m, Geo(k))
  {
    hide Geo;
    var o := GeoDouble(k);
    OddFactor(m, Geo(k), o);
    HalvesDouble(m, Geo(k) * o);
  }

  lemma HalvesDouble(m: nat, x: int)
    ensures Halves(m + 1, 2 * x) <==> Halves(m, x)
  {}

  /** The geometric sum carries exactly as many factors of two as its length. */
  lemma {:induction false} GeoDivisibility(m: nat, n: nat)
    ensures Halves(m, Geo(n)) <==> Halves(m, n)
    decreases m
  {
    if m > 0 {
      hide Geo;
      var k := n / 2;
      if n % 2 == 0 {
        assert n == k + k;
        GeoEven(m - 1, k);
        GeoDivisibility(m - 1, k);
      } else {
        assert n == k + k + 1;
        GeoOdd(k);
      }
    }
  }

  // ----- the generator as an affine map modulo 2^31 -----

  /** The 32-bit wrap of the product and of the sum is invisible modulo 2^31. */
  lemma RandSeedIsAffine(seed: int) returns (k: int)
    ensures RandSeed(seed) == RAND_LCG_PARAM_A * seed + RAND_LCG_PARAM_B + M * k
  {
    var x := RAND_LCG_PARAM_A * seed;
    var y := Wrap(x) + RAND_LCG_PARAM_B;
    DivMod(x, U32);
    DivMod(y, U32);
    DivMod(Wrap(y), M);
    k := -2 * (x / U32) - 2 * (y / U32) - Wrap(y) / M;
  }

  /** n rounds of x := A*x + B, without any modulus. */
  function Affine(n: nat, x: int): int
  {
    if n == 0 then x else RAND_LCG_PARAM_A * Affine(n - 1, x) + RAND_LCG_PARAM_B
  }

  lemma {:induction false} AfterIsAffine(n: nat, seed: int) returns (q: int)
    ensures After(n, seed) == Affine(n, seed) + M * q
  {
    q := 0;
    if n > 0 {
      q := AfterIsAffine(n - 1, seed);
      var k := RandSeedIsAffine(After(n - 1, seed));
      q := RAND_LCG_PARAM_A * q + k;
    }
  }

  /** How far one affine round moves a point. */
  function Drift(x: int): int { (RAND_LCG_PARAM_A - 1) * x + RAND_LCG_PARAM_B }

  lemma DriftOdd(x: int)
    ensures Drift(x) % 2 == 1
  {
    OddNumber(551757622 * x + 6172);
  }

  /** How far n affine rounds move a point: the geometric sum times a fixed odd factor. */
  lemma {:induction false} AffineMoves(n: nat, x: int)
    ensures Affine(n, x) - x == Geo(n) * Drift(x)
  {
    if n > 0 {
      AffineMoves(n - 1, x);
      MulAssoc(RAND_LCG_PARAM_A, Geo(n - 1), Drift(x));
      MulAdd(Drift(x), 1, RAND_LCG_PARAM_A * Geo(n - 1));
    }
  }

  lemma HalvesWord(x: int)
    ensures Halves(31, x) <==> x % M == 0
  {
    HalvesIsDivisibility(31, x);
    PowersOfTwo();
  }

  lemma AffineReturnsIff(n: nat, seed: int)
    ensures (Affine(n, seed) - seed) % M == 0 <==> n % M == 0
  {
    hide Affine, Geo, Halves, Drift;
    DriftOdd(seed);
    AffineMoves(n, seed);
    OddFactor(31, Geo(n), Drift(seed));
    GeoDivisibility(31, n);
    HalvesWord(n);
    HalvesWord(Affine(n, seed) - seed);
  }

  lemma SameResidue(x: int, y: int)
    requires 0 <= x < M && 0 <= y < M
    ensures x == y <==> (x - y) % M == 0
  {
    DivMod(x - y, M);
  }

  /** n calls bring a seed back to itself exactly when n is a multiple of 2^31. */
  lemma ReturnsIff(n: nat, seed: int)
    requires 0 <= seed < M
    ensures After(n, seed) == seed <==> n % M == 0
  {
    hide RandSeed;
    AfterInRange(n, seed);
    var q := AfterIsAffine(n, seed);
    ModAddMultiple(M, Affine(n, seed) - seed, q);
    SameResidue(After(n, seed), seed);
    AffineReturnsIff(n, seed);
  }

  lemma {:induction false} AfterCompose(i: nat, j: nat, seed: int)
    ensures After(i + j, seed) == After(j, After(i, seed))
  {
    if j > 0 { AfterCompose(i, j - 1, seed); }
  }

  lemma AfterInRange(n: nat, seed: int)
    requires n > 0 || 0 <= seed < M
    ensures 0 <= After(n, seed) < M
  {}

  /** No value comes twice within a period. */
  lemma NoRepeatWithinPeriod(i: nat, j: nat, seed: int)
    requires 0 < i < j < i + M
    ensures After(i, seed) != After(j, seed)
  {
    hide RandSeed, After;
    AfterInRange(i, seed);
    AfterCompose(i, j - i, seed);
    ReturnsIff(j - i, After(i, seed));
  }

  /** The values handed out by the first n calls after the k-th. */
  ghost function Values(k: nat, n: nat, seed: int): set<int>
  {
    set i | k < i <= k + n :: After(i, seed)
  }

  lemma {:induction false} ValuesCount(k: nat, n: nat, seed: int)
    requires n <= M
    ensures |Values(k, n, seed)| == n
  {
    hide RandSeed, After;
    if n == 0 {
      assert Values(k, n, seed) == {};
    } else {
      ValuesCount(k, n - 1, seed);
      var v := After(k + n, seed);
      assert Values(k, n, seed) == Values(k, n - 1, seed) + {v};
      forall i | k < i <= k + n - 1 ensures After(i, seed) != v {
        NoRepeatWithinPeriod(i, k + n, seed);
      }
    }
  }

  function Below(n: nat): (s: set<int>)
    ensures |s| == n && forall x :: x in s <==> 0 <= x < n
  {
    if n == 0 then {} else Below(n - 1) + {n - 1}
  }

  lemma SubsetOfSameSize<T>(a: set<T>, b: set<T>)
    requires a <= b && |a| == |b|
    ensures a == b
  {
    assert b == a + (b - a);
  }

  lemma ValuesCovered(k: nat, seed: int)
    ensures Values(k, M, seed) == Below(M)
  {
    ValuesCount(k, M, seed);
    forall v | v in Values(k, M, seed) ensures v in Below(M) {
      var i :| k < i <= k + M && v == After(i, seed);
      AfterInRange(i, seed);
    }
    SubsetOfSameSize(Values(k, M, seed), Below(M));
  }

  /**
   * From any 32-bit seed, and from any point k of the run, 2^31 successive calls return every
   * value of [0, 2^31) exactly once.
   */
  lemma FullPeriod(k: nat, seed: int)
    ensures |Values(k, M, seed)| == M
    ensures forall v :: v in Values(k, M, seed) <==> 0 <= v <= RAND_LCG_PARAM_M
  {
    ValuesCovered(k, seed);
  }

  /** After that the sequence repeats, and with no shorter period. */
  lemma RepeatsIff(i: nat, j: nat, seed: int)
    requires 0 < i <= j
    ensures After(j, seed) == After(i, seed) <==> (j - i) % M == 0
  {
    AfterInRange(i, seed);
    AfterCompose(i, j - i, seed);
    ReturnsIff(j - i, After(i, seed));
  }
}
