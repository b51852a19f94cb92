/** Exact intersection of two finite arithmetic progressions by their shared congruence. */
module Progressions {
  import opened Arith

  /** `count` naturals `start, start + step, ...`. */
  datatype Progression = Progression(start: nat, step: nat, count: nat) {
    function At(i: nat): nat {
      start + i * step
    }

    ghost predicate Has(x: int) {
      exists i: nat :: i < count && x == At(i)
    }
  }

  ghost predicate Meet(p: Progression, q: Progression) {
    exists x :: p.Has(x) && q.Has(x)
  }

  function Nth(a: int, step: nat, k: int): int {
    a + k * step
  }

  /** `x` lies in the residue class of `a` modulo `step`. */
  ghost predicate InClass(x: int, a: int, step: nat) {
    exists k :: x == Nth(a, step, k)
  }

  lemma ClassWitness(x: int, a: int, step: nat) returns (k: int)
    requires InClass(x, a, step)
    ensures x == a + k * step
  {
    k :| x == Nth(a, step, k);
  }

  lemma ClassIntro(x: int, a: int, step: nat, k: int)
    requires x == a + k * step
    ensures InClass(x, a, step)
  {
    assert x == Nth(a, step, k);
  }

  lemma ClassByRemainder(x: int, a: int, step: nat)
    requires step > 0
    ensures InClass(x, a, step) <==> (x - a) % step == 0
  {
    if InClass(x, a, step) {
      var k := ClassWitness(x, a, step);
      MultipleMod(k, step);
    }
    if (x - a) % step == 0 {
      ClassIntro(x, a, step, (x - a) / step);
    }
  }

  function Gcd(a: nat, b: nat): (g: nat)
    ensures a > 0 || b > 0 ==> g > 0
    decreases b
  {
    if b == 0 then a else Gcd(b, a % b)
  }

  lemma Combine(a: int, b: int, q: int, r: int, x: int, y: int, g: int, u: int, v: int)
    requires a == q * b + r && x * b + y * r == g && b == u * g && r == v * g
    ensures y * a + (x - q * y) * b == g
    ensures a == (q * u + v) * g
  {
    assert y * a == y * (q * b) + y * r;
    assert (x - q * y) * b == x * b - y * (q * b);
    assert q * b == q * u * g;
  }

  /** The greatest common divisor divides both arguments and is an integer combination of them. */
  lemma GcdBezout(a: nat, b: nat) returns (x: int, y: int, u: nat, v: nat)
    requires a > 0 || b > 0
    ensures a == u * Gcd(a, b) && b == v * Gcd(a, b)
    ensures x * a + y * b == Gcd(a, b)
    decreases b
  {
    if b == 0 {
      x, y, u, v := 1, 0, 1, 0;
    } else {
      var x', y', u', v' := GcdBezout(b, a % b);
      var q := a / b;
      Combine(a, b, q, a % b, x', y', Gcd(a, b), u', v');
      x, y, u, v := y', x' - q * y', q * u' + v', u';
    }
  }

  lemma CancelFactor(p: int, q: int, g: nat)
    requires g > 0 && p * g == q * g
    ensures p == q
  {
    if p < q { MulStrict(p, q, g); }
    if q < p { MulStrict(q, p, g); }
  }

  /** Cofactors of the greatest common divisor have an integer combination equal to one. */
  lemma ReducedBezout(a: nat, b: nat, red: nat, m: nat) returns (x: int, y: int)
    requires a > 0 && b > 0
    requires red == a / Gcd(a, b) && m == b / Gcd(a, b)
    ensures red > 0 && m > 0 && a == red * Gcd(a, b) && b == m * Gcd(a, b)
    ensures x * red + y * m == 1
  {
    var g := Gcd(a, b);
    var u, v;
    x, y, u, v := GcdBezout(a, b);
    MultipleMod(u, g);
    MultipleMod(v, g);
    assert x * (red * g) == (x * red) * g && y * (m * g) == (y * m) * g;
    assert (x * red + y * m) * g == (x * red) * g + (y * m) * g;
    CancelFactor(x * red + y * m, 1, g);
  }

  /** A common divisor of two numbers with a unit combination is one. */
  lemma UnitDivisor(red: nat, m: nat, x: int, y: int, g: nat, u: int, v: int)
    requires x * red + y * m == 1
    requires red == u * g && m == v * g
    ensures g == 1
  {
    var k := x * u + y * v;
    assert x * (u * g) == (x * u) * g && y * (v * g) == (y * v) * g;
    assert k * g == 1;
    if k <= 0 {
      MulMonotone(k, 0, g);
    } else if g > 1 {
      MulMonotone(1, k, g);
    }
  }

  /** A factor coprime to `m` can be cancelled from a multiple of `m`. */
  lemma CoprimeCancel(red: int, m: int, x: int, y: int, u: int, v: int) returns (w: int)
    requires x * red + y * m == 1
    requires red * u == m * v
    ensures u == w * m
  {
    w := x * v + y * u;
    assert (x * red + y * m) * u == x * (red * u) + y * m * u;
    assert x * (m * v) == (x * v) * m && y * m * u == (y * u) * m;
  }

  /** Common members of two residue classes differ by multiples of the combined period. */
  lemma SamePeriod(g: nat, red: nat, m: nat, s: int, t: int, u: int, v: int) returns (w: int)
    requires g > 0 && s * red + t * m == 1
    requires u * (red * g) == v * (m * g)
    ensures u * (red * g) == w * ((red * g) * m)
  {
    assert (red * u) * g == (m * v) * g;
    CancelFactor(red * u, m * v, g);
    w := CoprimeCancel(red, m, s, t, u, v);
    assert (w * m) * (red * g) == w * ((red * g) * m);
  }

  lemma ShiftTwice(x: int, first: int, a: int, step: int, w: int, m: int, f: int, period: int)
    requires x == first + w * period && first == a + f * step && period == m * step
    ensures x == a + (w * m + f) * step
  {
    assert w * (m * step) == (w * m) * step;
  }

  /** Residue classes meet exactly in one class modulo the least common multiple. */
  lemma ChineseRemainder(a: int, stepA: nat, b: int, stepB: nat, m: nat, first: int, x: int)
    requires stepA > 0 && stepB > 0 && m == stepB / Gcd(stepA, stepB)
    requires InClass(first, a, stepA) && InClass(first, b, stepB)
    ensures InClass(x, a, stepA) && InClass(x, b, stepB) <==> InClass(x, first, stepA * m)
  {
    var red := stepA / Gcd(stepA, stepB);
    var s, t := ReducedBezout(stepA, stepB, red, m);
    CommonPeriod(Gcd(stepA, stepB), red, m, s, t, a, stepA, b, stepB, first, x);
  }

  lemma CommonPeriod(g: nat, red: nat, m: nat, s: int, t: int, a: int, stepA: nat, b: int, stepB: nat, first: int,
                     x: int)
    requires g > 0 && s * red + t * m == 1 && stepA == red * g && stepB == m * g
    requires InClass(first, a, stepA) && InClass(first, b, stepB)
    ensures InClass(x, a, stepA) && InClass(x, b, stepB) <==> InClass(x, first, stepA * m)
  {
    var fa := ClassWitness(first, a, stepA);
    var fb := ClassWitness(first, b, stepB);
    if InClass(x, a, stepA) && InClass(x, b, stepB) {
      var xa := ClassWitness(x, a, stepA);
      var xb := ClassWitness(x, b, stepB);
      assert x - first == (xa - fa) * stepA;
      assert x - first == (xb - fb) * stepB;
      var w := SamePeriod(g, red, m, s, t, xa - fa, xb - fb);
      ClassIntro(x, first, stepA * m, w);
    }
    if InClass(x, first, stepA * m) {
      var w := ClassWitness(x, first, stepA * m);
      ShiftTwice(x, first, a, stepA, w, m, fa, stepA * m);
      ClassIntro(x, a, stepA, w * m + fa);
      assert stepA * m == red * stepB by { assert (red * g) * m == red * (m * g); }
      ShiftTwice(x, first, b, stepB, w, red, fb, stepA * m);
      ClassIntro(x, b, stepB, w * red + fb);
    }
  }

  /** The product of a residual and an inverse, both reduced, solves the congruence. */
  lemma OffsetWitness(red: int, m: int, d: int, inv: int, t: int, dm: int, ki: int, kd: int, ko: int, offset: int)
    returns (k: int)
    requires inv * red + t * m == 1
    requires d == kd * m + dm && dm * (inv - ki * m) == ko * m + offset
    ensures red * offset == d + k * m
  {
    k := -(dm * t) - red * dm * ki - red * ko - kd;
    assert red * offset == red * (dm * (inv - ki * m)) - red * (ko * m);
    assert red * (dm * (inv - ki * m)) == dm * (inv * red) - (red * dm * ki) * m;
    assert dm * (inv * red) == dm * (1 - t * m) == dm - (dm * t) * m;
    assert red * (ko * m) == (red * ko) * m;
  }

  /** Membership in a progression is residue plus bounds. */
  lemma MemberByResidue(p: Progression, x: int)
    requires p.step > 0 && p.count > 0
    ensures p.Has(x) <==> p.start <= x <= p.At(p.count - 1) && InClass(x, p.start, p.step)
  {
    if p.Has(x) {
      var i: nat :| i < p.count && x == p.At(i);
      MulMonotone(i, p.count - 1, p.step);
      ClassIntro(x, p.start, p.step, i);
    }
    if p.start <= x <= p.At(p.count - 1) && InClass(x, p.start, p.step) {
      var i := ClassWitness(x, p.start, p.step);
      if i < 0 { MulMonotone(i, -1, p.step); }
      if p.count <= i { MulStrict(p.count - 1, i, p.step); }
      assert x == p.At(i);
    }
  }

  /** The least number at or above `low` in the residue class of `first`. */
  function FirstAtLeast(first: nat, period: nat, low: nat): nat
    requires period > 0
  {
    var residue := first % period;
    if residue < low then residue + DivCeil(low - residue, period) * period else residue
  }

  lemma Rebase(first: int, residue: int, period: int, steps: int, q: int)
    requires first == q * period + residue
    ensures residue + steps * period == first + (steps - q) * period
  {
  }

  lemma FirstAtLeastInClass(first: nat, period: nat, low: nat)
    requires period > 0
    ensures FirstAtLeast(first, period, low) >= low
    ensures InClass(FirstAtLeast(first, period, low), first, period)
  {
    var residue, q := first % period, first / period;
    if residue < low {
      var steps := DivCeil(low - residue, period);
      DivCeilBounds(low - residue, period);
      Rebase(first, residue, period, steps, q);
      ClassIntro(FirstAtLeast(first, period, low), first, period, steps - q);
    } else {
      ClassIntro(residue, first, period, -q);
    }
  }

  lemma FirstAtLeastIsLeast(first: nat, period: nat, low: nat, x: int)
    requires period > 0 && low <= x && InClass(x, first, period)
    ensures FirstAtLeast(first, period, low) <= x
  {
    var residue, q := first % period, first / period;
    var k := ClassWitness(x, first, period);
    assert x == residue + (k + q) * period;
    if k + q < 0 { MulMonotone(k + q, -1, period); }
    MulMonotone(0, k + q, period);
    if residue < low {
      DivCeilLeast(low - residue, period, k + q);
      MulMonotone(DivCeil(low - residue, period), k + q, period);
    }
  }

  /** Euclid's loop. */
  method ComputeGcd(a: nat, b: nat) returns (gcd: nat)
    ensures gcd == Gcd(a, b)
  {
    var remainder: nat := b;
    gcd := a;
    while remainder != 0
      invariant Gcd(gcd, remainder) == Gcd(a, b)
      decreases remainder
    {
      gcd, remainder := remainder, gcd % remainder;
    }
  }

  lemma ExtendedStep(red: int, m: int, q: int, s0: int, t0: int, r0: int, s1: int, t1: int, r1: int)
    requires s0 * red + t0 * m == r0 && s1 * red + t1 * m == r1
    ensures (s0 - q * s1) * red + (t0 - q * t1) * m == r0 - q * r1
  {
    assert (s0 - q * s1) * red == s0 * red - q * (s1 * red);
    assert (t0 - q * t1) * m == t0 * m - q * (t1 * m);
    assert q * r1 == q * (s1 * red) + q * (t1 * m);
  }

  lemma CofactorStep(n: int, c: int, e: int, q: int, r0: int, r1: int)
    requires n == c * r0 + e * r1
    ensures n == (c * q + e) * r1 + c * (r0 - q * r1)
  {
    assert c * (r0 - q * r1) == c * r0 - (c * q) * r1;
  }

  function Abs(n: int): nat {
    if n < 0 then -n else n
  }

  /** Opposite signs make coefficient magnitudes add, so their weighted sum never changes. */
  lemma CoefficientStep(m: int, q: nat, s0: int, r0: int, s1: int, r1: int)
    requires Abs(s1) * r0 + Abs(s0) * r1 == m && s0 * s1 <= 0
    ensures Abs(s0 - q * s1) == Abs(s0) + q * Abs(s1)
    ensures Abs(s0 - q * s1) * r1 + Abs(s1) * (r0 - q * r1) == m && s1 * (s0 - q * s1) <= 0
  {
    OppositeSigns(q, s0, s1);
    var t := Abs(s0 - q * s1);
    assert t * r1 == Abs(s0) * r1 + (q * Abs(s1)) * r1;
    assert Abs(s1) * (r0 - q * r1) == Abs(s1) * r0 - (q * Abs(s1)) * r1;
  }

  lemma OppositeSigns(q: nat, s0: int, s1: int)
    requires s0 * s1 <= 0
    ensures Abs(s0 - q * s1) == Abs(s0) + q * Abs(s1) && s1 * (s0 - q * s1) <= 0
  {
    if s1 > 0 {
      assert s0 <= 0 by {
        if s0 > 0 {
          MulStrict(0, s0, s1);
        }
      }
      MulMonotone(0, q, s1);
      MulMonotone(s0 - q * s1, 0, s1);
    } else if s1 < 0 {
      assert s0 >= 0 by {
        if s0 < 0 {
          MulStrict(s0, 0, -s1);
        }
      }
      MulMonotone(0, q, -s1);
      MulMonotone(0, s0 - q * s1, -s1);
    }
  }

  /** A weighted coefficient stays within the weighted sum. */
  lemma CoefficientBound(m: nat, t: nat, weight: nat, rest: nat)
    requires t * weight + rest == m && weight > 0
    ensures t <= m
  {
    MulMonotone(1, weight, t);
  }

  /** Quotients and their products stay within the larger input. */
  lemma QuotientBound(r0: nat, r1: nat)
    requires r1 > 0
    ensures r0 / r1 <= r0 && (r0 / r1) * r1 <= r0
  {
    var q := r0 / r1;
    assert r0 == q * r1 + r0 % r1;
    MulMonotone(1, r1, q);
  }

  /** Every listed value has magnitude at most the bound. */
  predicate AllWithin(values: seq<int>, bound: int) {
    forall i :: 0 <= i < |values| ==> Abs(values[i]) <= bound
  }

  lemma AbsProduct(q: nat, s: int)
    ensures Abs(q * s) == q * Abs(s)
  {
    if s >= 0 {
      MulMonotone(0, q, s);
    } else {
      MulMonotone(0, q, -s);
    }
  }

  /** The values the extended loop carries: two remainders and two coefficients. */
  datatype Rounds = Rounds(oldR: nat, r: nat, oldS: int, s: int)

  function Quotient(v: Rounds): nat
    requires v.r > 0
  {
    v.oldR / v.r
  }

  function Next(v: Rounds): Rounds
    requires v.r > 0
  {
    QuotientBound(v.oldR, v.r);
    Rounds(v.r, v.oldR - Quotient(v) * v.r, v.s, v.oldS - Quotient(v) * v.s)
  }

  /** Every value one pass forms, in order. */
  function Formed(v: Rounds): seq<int>
    requires v.r > 0
  {
    [Quotient(v), Quotient(v) * v.r, Next(v).r, Quotient(v) * v.s, Next(v).s]
  }

  /** Coefficients of opposite sign whose weighted magnitudes add up to the modulus. */
  predicate Balanced(modulus: nat, v: Rounds) {
    Abs(v.s) * v.oldR + Abs(v.oldS) * v.r == modulus && v.oldS * v.s <= 0
  }

  lemma BalancedNext(modulus: nat, v: Rounds)
    requires v.r > 0 && Balanced(modulus, v)
    ensures Balanced(modulus, Next(v))
  {
    QuotientBound(v.oldR, v.r);
    CoefficientStep(modulus, Quotient(v), v.oldS, v.oldR, v.s, v.r);
  }

  lemma CoefficientsFit(modulus: nat, v: Rounds)
    requires v.r > 0 && Balanced(modulus, v)
    ensures Abs(Next(v).s) <= modulus && Abs(Quotient(v) * v.s) <= modulus
  {
    var q, v' := Quotient(v), Next(v);
    BalancedNext(modulus, v);
    MulMonotone(0, Abs(v'.oldS), v'.r);
    CoefficientBound(modulus, Abs(v'.s), v.r, Abs(v'.oldS) * v'.r);
    OppositeSigns(q, v.oldS, v.s);
    AbsProduct(q, v.s);
  }

  lemma FormedFit(modulus: nat, bound: nat, v: Rounds)
    requires v.r > 0 && Balanced(modulus, v) && modulus <= bound && v.oldR <= bound
    ensures AllWithin(Formed(v), bound)
  {
    QuotientBound(v.oldR, v.r);
    CoefficientsFit(modulus, v);
  }

  /** Both remainders are combinations of the inputs, and the inputs of the remainders. */
  datatype Witness = Witness(oldT: int, t: int, c: int, e: int, d: int, f: int)

  predicate Tracks(reduced: nat, modulus: nat, v: Rounds, w: Witness) {
    && v.oldS * reduced + w.oldT * modulus == v.oldR
    && v.s * reduced + w.t * modulus == v.r
    && reduced == w.c * v.oldR + w.e * v.r && modulus == w.d * v.oldR + w.f * v.r
  }

  lemma TracksNext(reduced: nat, modulus: nat, v: Rounds, w: Witness) returns (w': Witness)
    requires v.r > 0 && Tracks(reduced, modulus, v, w)
    ensures Tracks(reduced, modulus, Next(v), w')
  {
    var q := Quotient(v);
    ExtendedStep(reduced, modulus, q, v.oldS, w.oldT, v.oldR, v.s, w.t, v.r);
    CofactorStep(reduced, w.c, w.e, q, v.oldR, v.r);
    CofactorStep(modulus, w.d, w.f, q, v.oldR, v.r);
    w' := Witness(w.t, w.oldT - q * w.t, w.c * q + w.e, w.c, w.d * q + w.f, w.d);
  }

  lemma TracksEnd(reduced: nat, modulus: nat, v: Rounds, w: Witness, x: int, y: int)
    requires Tracks(reduced, modulus, v, w) && v.r == 0 && v.oldR > 0
    requires reduced > 0 && modulus > 0 && x * reduced + y * modulus == 1
    ensures v.oldS * reduced + w.oldT * modulus == 1
  {
    UnitDivisor(reduced, modulus, x, y, v.oldR, w.c, w.d);
  }

  /** What holds before every pass. */
  predicate Running(reduced: nat, modulus: nat, v: Rounds, w: Witness) {
    && Tracks(reduced, modulus, v, w) && Balanced(modulus, v)
    && 0 < v.oldR <= Max(reduced, modulus) && v.r <= Max(reduced, modulus)
    && Abs(v.oldS) <= modulus && Abs(v.s) <= modulus
  }

  /** One pass keeps the remainders shrinking, the coefficients balanced and every value it forms in bounds. */
  lemma Pass(reduced: nat, modulus: nat, v: Rounds, w: Witness) returns (w': Witness)
    requires v.r > 0 && Running(reduced, modulus, v, w)
    ensures Running(reduced, modulus, Next(v), w') && Next(v).r < v.r
    ensures AllWithin(Formed(v), Max(reduced, modulus))
  {
    RemainderShrinks(v);
    assert AllWithin(Formed(v), Max(reduced, modulus)) by {
      FormedFit(modulus, Max(reduced, modulus), v);
    }
    assert Abs(Next(v).s) <= modulus by {
      CoefficientsFit(modulus, v);
    }
    BalancedNext(modulus, v);
    w' := TracksNext(reduced, modulus, v, w);
  }

  lemma RemainderShrinks(v: Rounds)
    requires v.r > 0
    ensures Next(v).r < v.r
  {
    assert v.oldR == Quotient(v) * v.r + v.oldR % v.r;
  }

  /** The extended loop: a coefficient inverting `reduced` modulo `modulus`. */
  method ModularInverse(reduced: nat, modulus: nat, ghost x: int, ghost y: int)
    returns (coefficient: int, ghost cofactor: int)
    requires reduced > 0 && modulus > 0 && x * reduced + y * modulus == 1
    ensures coefficient * reduced + cofactor * modulus == 1 && Abs(coefficient) <= modulus
  {
    var v := Rounds(reduced, modulus, 1, 0);
    ghost var w := Witness(0, 1, 1, 0, 0, 1);
    while v.r != 0
      invariant Running(reduced, modulus, v, w)
      decreases v.r
    {
      w := Pass(reduced, modulus, v, w);
      v := Next(v);
    }
    TracksEnd(reduced, modulus, v, w, x, y);
    coefficient, cofactor := v.oldS, w.oldT;
  }

  /** The reduced offset at which a multiple of `reduced` reaches `d` modulo `modulus`. */
  method SolveOffset(reduced: nat, modulus: nat, d: int, ghost x: int, ghost y: int)
    returns (offset: nat, ghost k: int)
    requires reduced > 0 && modulus > 0 && x * reduced + y * modulus == 1
    ensures reduced * offset == d + k * modulus && offset < modulus
  {
    ghost var t;
    var inverse;
    inverse, t := ModularInverse(reduced, modulus, x, y);
    var residual, inverted := d % modulus, inverse % modulus;
    offset := (residual * inverted) % modulus;
    k := OffsetWitness(reduced, modulus, d, inverse, t, residual, inverse / modulus,
                       d / modulus, (residual * inverted) / modulus, offset);
  }

  /** Dividing by the gcd leaves smaller numbers with a unit combination. */
  lemma ReducedSteps(a: nat, stepA: nat, b: nat, stepB: nat, gcd: nat) returns (d: int, x: int, y: int)
    requires stepA > 0 && stepB > 0 && gcd == Gcd(stepA, stepB) && InClass(b, a, gcd)
    ensures gcd > 0 && d == (b - a) / gcd && d * gcd == b - a && Abs(d) <= Abs(b - a)
    ensures 0 < stepA / gcd <= stepA && 0 < stepB / gcd <= stepB
    ensures (stepA / gcd) * gcd == stepA && (stepB / gcd) * gcd == stepB
    ensures x * (stepA / gcd) + y * (stepB / gcd) == 1
  {
    x, y := ReducedBezout(stepA, stepB, stepA / gcd, stepB / gcd);
    var d' := ClassWitness(b, a, gcd);
    MultipleMod(d', gcd);
    ExactQuotientBound(b - a, gcd);
    QuotientBound(stepA, gcd);
    QuotientBound(stepB, gcd);
    d := (b - a) / gcd;
  }

  /** A member of both residue classes, when the classes are compatible. */
  method CommonResidue(a: nat, stepA: nat, b: nat, stepB: nat, gcd: nat) returns (first: nat)
    requires stepA > 0 && stepB > 0 && gcd == Gcd(stepA, stepB)
    requires InClass(b, a, gcd)
    ensures InClass(first, a, stepA) && InClass(first, b, stepB)
  {
    ghost var d', x, y := ReducedSteps(a, stepA, b, stepB, gcd);
    var modulus: nat, reduced: nat, d := stepB / gcd, stepA / gcd, (b - a) / gcd;
    if modulus == 1 {
      first := a;
      ClassIntro(first, a, stepA, 0);
      ClassIntro(first, b, stepB, -d);
    } else {
      ghost var k;
      var offset;
      offset, k := SolveOffset(reduced, modulus, d, x, y);
      first := a + stepA * offset;
      SolvedMember(a, stepA, b, stepB, gcd, reduced, modulus, d, k, offset);
    }
  }

  lemma SolvedMember(a: nat, stepA: nat, b: nat, stepB: nat, gcd: nat, reduced: nat, modulus: nat,
                     d: int, k: int, offset: nat)
    requires stepA > 0 && stepB > 0 && reduced * gcd == stepA && modulus * gcd == stepB && d * gcd == b - a
    requires reduced * offset == d + k * modulus
    ensures InClass(a + stepA * offset, a, stepA) && InClass(a + stepA * offset, b, stepB)
  {
    ClassIntro(a + stepA * offset, a, stepA, offset);
    ScaleSolution(gcd, reduced, modulus, d, k, offset);
    ClassIntro(a + stepA * offset, b, stepB, k);
  }

  lemma ExactQuotientBound(n: int, d: nat)
    requires d > 0 && n % d == 0
    ensures Abs(n / d) <= Abs(n)
  {
    DivExact(n, d);
    if n >= 0 {
      MulMonotone(1, d, n / d);
    } else {
      MulMonotone(1, d, -(n / d));
    }
  }

  lemma ScaleSolution(g: int, red: int, m: int, d: int, k: int, offset: int)
    requires red * offset == d + k * m
    ensures (red * g) * offset == d * g + k * (m * g)
  {
    assert (red * g) * offset == (red * offset) * g;
    assert (d + k * m) * g == d * g + k * (m * g);
  }

  /** Decides exactly whether two progressions share an element, without enumerating either. */
  method Overlap(p: Progression, q: Progression) returns (overlaps: bool)
    requires p.step > 0 && q.step > 0
    ensures overlaps <==> Meet(p, q)
  {
    if p.count == 0 || q.count == 0 {
      return false;
    }
    var low := Max(p.start, q.start);
    var high := Min(p.At(p.count - 1), q.At(q.count - 1));
    MeetBetween(p, q, low, high);
    if low > high {
      return false;
    }
    var gcd := ComputeGcd(p.step, q.step);
    ClassByRemainder(q.start, p.start, gcd);
    if (q.start - p.start) % gcd != 0 {
      IncompatibleMiss(p, q);
      return false;
    }
    var modulus := q.step / gcd;
    var first := CommonResidue(p.start, p.step, q.start, q.step, gcd);
    QuotientBound(q.step, gcd);
    PeriodPositive(p.step, q.step, gcd);
    var firstInRange := FirstAtLeast(first, p.step * modulus, low);
    overlaps := firstInRange <= high;
    RebasedDecides(p, q, gcd, first, low, high);
  }

  /** A shared member lies between the later start and the earlier end, in both residue classes. */
  lemma MeetBetween(p: Progression, q: Progression, low: int, high: int)
    requires p.step > 0 && q.step > 0 && p.count > 0 && q.count > 0
    requires low == Max(p.start, q.start) && high == Min(p.At(p.count - 1), q.At(q.count - 1))
    ensures Meet(p, q) <==> Between(p, q, low, high)
  {
    forall x: int
      ensures p.Has(x) && q.Has(x) <==>
              low <= x <= high && InClass(x, p.start, p.step) && InClass(x, q.start, q.step)
    {
      MemberByResidue(p, x);
      MemberByResidue(q, x);
    }
  }

  ghost predicate Between(p: Progression, q: Progression, low: int, high: int) {
    exists x: int :: low <= x <= high && InClass(x, p.start, p.step) && InClass(x, q.start, q.step)
  }

  /** Incompatible classes share no member. */
  lemma IncompatibleMiss(p: Progression, q: Progression)
    requires p.step > 0 && q.step > 0 && !InClass(q.start, p.start, Gcd(p.step, q.step))
    ensures forall low, high :: !Between(p, q, low, high)
  {
    forall x: int | InClass(x, p.start, p.step) && InClass(x, q.start, q.step)
      ensures false
    {
      Incompatible(p.start, p.step, q.start, q.step, x);
    }
  }

  lemma PeriodPositive(stepA: nat, stepB: nat, gcd: nat)
    requires stepA > 0 && stepB > 0 && gcd == Gcd(stepA, stepB)
    ensures gcd > 0 && 0 < stepB / gcd <= stepB && stepA * (stepB / gcd) > 0
  {
    var modulus := stepB / gcd;
    assert 0 < modulus <= stepB by {
      var _, _ := ReducedBezout(stepA, stepB, stepA / gcd, modulus);
      QuotientBound(stepB, gcd);
    }
    MulStrict(0, modulus, stepA);
  }

  /** The least common member from the low end on is in range exactly when any is. */
  lemma RebasedDecides(p: Progression, q: Progression, gcd: nat, first: nat, low: nat, high: int)
    requires p.step > 0 && q.step > 0 && gcd == Gcd(p.step, q.step)
    requires InClass(first, p.start, p.step) && InClass(first, q.start, q.step)
    ensures gcd > 0 && p.step * (q.step / gcd) > 0
    ensures FirstAtLeast(first, p.step * (q.step / gcd), low) <= high <==> Between(p, q, low, high)
  {
    PeriodPositive(p.step, q.step, gcd);
    var modulus := q.step / gcd;
    var period := p.step * modulus;
    var least := FirstAtLeast(first, period, low);
    FirstAtLeastInClass(first, period, low);
    forall x: int
      ensures InClass(x, p.start, p.step) && InClass(x, q.start, q.step) <==> InClass(x, first, period)
    {
      ChineseRemainder(p.start, p.step, q.start, q.step, modulus, first, x);
    }
    if Between(p, q, low, high) {
      var x :| low <= x <= high && InClass(x, p.start, p.step) && InClass(x, q.start, q.step);
      FirstAtLeastIsLeast(first, period, low, x);
    }
  }

  /** Residue classes whose offsets differ modulo the divisor of both steps are disjoint. */
  lemma Incompatible(a: int, stepA: nat, b: int, stepB: nat, x: int)
    requires stepA > 0 && stepB > 0
    requires InClass(x, a, stepA) && InClass(x, b, stepB)
    ensures InClass(b, a, Gcd(stepA, stepB))
  {
    var g := Gcd(stepA, stepB);
    var _, _, u, v := GcdBezout(stepA, stepB);
    var i := ClassWitness(x, a, stepA);
    var j := ClassWitness(x, b, stepB);
    Regroup(i, u, g, j, v);
    ClassIntro(b, a, g, i * u - j * v);
  }

  lemma Regroup(i: int, u: int, g: int, j: int, v: int)
    ensures i * (u * g) - j * (v * g) == (i * u - j * v) * g
  {
  }
}
