/**
 The two moduli of the confidential token. Field elements are kept modulo `FR_MODULUS`: hashes, masks and
 the blinding factors in the wallet. Points of the commitment curve add in a group of another prime order,
 so blinding factors on the chain add modulo `GROUP_ORDER`.
 */
module Fields {
  const FR_MODULUS: nat := 0x30644e72_e131a029_b85045b6_8181585d_2833e848_79b97091_43e1f593_f0000001
  const GROUP_ORDER: nat := 0x30644e72_e131a029_b85045b6_8181585d_97816a91_6871ca8d_3c208c16_d87cfd47

  function InField(n: int): (r: nat)
    ensures r < FR_MODULUS
  {
    n % FR_MODULUS
  }

  function InGroup(n: int): (r: nat)
    ensures r < GROUP_ORDER
  {
    n % GROUP_ORDER
  }

  // ---------------------------------------------------------------- residues

  lemma Residue(a: int, q: int, m: nat)
    requires m > 0
    ensures (a + q * m) % m == a % m
  {
    var k := a / m;
    assert a + q * m == (k + q) * m + a % m;
    SameResidue(a + q * m, k + q, a % m, m);
  }

  lemma SameResidue(n: int, q: int, r: int, m: nat)
    requires 0 <= r < m && n == q * m + r
    ensures n % m == r
  {
    var d := n / m - q;
    assert d * m == r - n % m;
  }

  lemma Small(v: nat, m: nat)
    requires v < m
    ensures v % m == v
  {}

  /** A sum may be reduced part by part. */
  lemma SumResidue(a: int, b: int, m: nat)
    requires m > 0
    ensures (a % m + b % m) % m == (a + b) % m
  {
    var p, q := a / m, b / m;
    assert a + b == a % m + b % m + (p + q) * m;
    Residue(a % m + b % m, p + q, m);
  }

  lemma SumInField(a: nat, b: nat)
    ensures InField(InField(a) + InField(b)) == InField(a + b)
  {
    SumResidue(a, b, FR_MODULUS);
  }

  lemma SumInGroup(a: nat, b: nat)
    ensures InGroup(InGroup(a) + InGroup(b)) == InGroup(a + b)
  {
    SumResidue(a, b, GROUP_ORDER);
  }

  lemma ReducedStays(n: nat)
    ensures n < FR_MODULUS ==> InField(n) == n
    ensures n < GROUP_ORDER ==> InGroup(n) == n
  {
    if n < FR_MODULUS {
      Small(n, FR_MODULUS);
    }
    if n < GROUP_ORDER {
      Small(n, GROUP_ORDER);
    }
  }

  /** What is left when `d` is taken from a reduced number. */
  lemma LessResidue(n: nat, mine: nat, d: int, m: nat)
    requires m > 0 && mine < m && (n % m - mine - d) % m == 0
    ensures mine == (n - d) % m
  {
    var k := (n % m - mine - d) / m;
    assert n - d == (n / m + k) * m + mine;
    SameResidue(n - d, n / m + k, mine, m);
  }

  lemma SameAfterLess(n: nat, d: int, m: nat)
    requires m > 0
    ensures (n - d) % m == n % m <==> d % m == 0
  {
    var q := (n - d) / m;
    if (n - d) % m == n % m {
      assert d == 0 + (n / m - q) * m;
      Residue(0, n / m - q, m);
    } else if d % m == 0 {
      assert n - d == n + (-(d / m)) * m;
      Residue(n, -(d / m), m);
      assert false;
    }
  }

  lemma LessInField(n: nat, mine: nat, d: int)
    requires mine < FR_MODULUS && InField(InField(n) - mine - d) == 0
    ensures mine == InField(n - d) && (InField(n - d) == InField(n) <==> InField(d) == 0)
  {
    LessResidue(n, mine, d, FR_MODULUS);
    SameAfterLess(n, d, FR_MODULUS);
  }

  // ---------------------------------------------------------------- where the two agree

  /** A sum of blinding factors that is the same in the field as in the group. */
  predicate Unwrapped(sum: nat) {
    sum / FR_MODULUS % GROUP_ORDER == 0
  }

  lemma Multiple(q: int, m: nat)
    requires m > 0
    ensures (q * m) % m == 0
  {
    Residue(0, q, m);
  }

  /** With `u` and `v` as witnesses that the moduli are coprime, one divides what it divides times the other. */
  lemma CoprimeDivides(q: int, p: int, a: nat, b: nat, u: int, v: int)
    requires b > 0 && u * a + v * b == 1 && q * a == p * b
    ensures q % b == 0
  {
    assert q == q * (u * a + v * b);
    assert q * (u * a + v * b) == u * (q * a) + q * v * b;
    assert u * (q * a) == u * p * b;
    assert q == (u * p + q * v) * b;
    Multiple(u * p + q * v, b);
  }

  lemma ModuliAreCoprime() returns (u: int, v: int)
    ensures u * FR_MODULUS + v * GROUP_ORDER == 1
  {
    u := -0xb3c4d79d_41a91759_3a97459a_6afe5ea2_b687f7e0_078302b6;
    v := 0xb3c4d79d_41a91759_3a97459a_6afe5ea1_190e87a6_490cc711;
  }

  /** For any two coprime moduli, the smaller first. */
  lemma ResiduesAgreeIff(n: nat, a: nat, b: nat, u: int, v: int)
    requires 0 < a < b && u * a + v * b == 1
    ensures n % a == n % b <==> n / a % b == 0
  {
    var q, p := n / a, n / b;
    assert n == q * a + n % a && n == p * b + n % b;
    if n % a == n % b {
      assert q * a == p * b;
      CoprimeDivides(q, p, a, b, u, v);
    } else if q % b == 0 {
      var k := q / b;
      assert q == k * b;
      assert n == k * a * b + n % a;
      SameResidue(n, k * a, n % a, b);
      assert false;
    }
  }

  /** Blinding factors that add up to `sum` are the same in the field as in the group exactly when unwrapped. */
  lemma UnwrappedIff(sum: nat)
    ensures InField(sum) == InGroup(sum) <==> Unwrapped(sum)
  {
    var u, v := ModuliAreCoprime();
    ResiduesAgreeIff(sum, FR_MODULUS, GROUP_ORDER, u, v);
  }

  lemma ProductGrows(p: nat, q: nat, a: nat)
    requires p <= q
    ensures p * a <= q * a
  {}

  lemma SmallQuotient(n: nat, a: nat, b: nat)
    requires a > 0 && n < a * b
    ensures n / a < b && (n / a == 0 <==> n < a)
  {
    var q := n / a;
    assert n == q * a + n % a;
    if q >= b {
      ProductGrows(b, q, a);
      assert false;
    }
    if q >= 1 {
      ProductGrows(1, q, a);
    }
  }

  /** Up to the product of the moduli, unwrapped means below the field's modulus. */
  lemma UnwrappedIsSmall(sum: nat)
    requires sum < FR_MODULUS * GROUP_ORDER
    ensures Unwrapped(sum) <==> sum < FR_MODULUS
  {
    SmallQuotient(sum, FR_MODULUS, GROUP_ORDER);
    Small(sum / FR_MODULUS, GROUP_ORDER);
  }
}
