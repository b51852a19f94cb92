/** The overlap test in machine words: every sum, product and conversion fits the width the source gives it. */
module ProgressionWords {
  import opened Arith
  import opened Progressions

  newtype Word64 = x: int | 0 <= x < 0x1_0000_0000_0000_0000
  newtype Word128 = x: int | 0 <= x < 0x1_0000_0000_0000_0000_0000_0000_0000_0000
  newtype Int128 = x: int |
    -0x8000_0000_0000_0000_0000_0000_0000_0000 <= x < 0x8000_0000_0000_0000_0000_0000_0000_0000

  function Of(start: Word64, step: Word64, count: Word64): Progression {
    Progression(start as nat, step as nat, count as nat)
  }

  /** The last member of a nonempty progression is a word. */
  predicate LastFits(start: Word64, step: Word64, count: Word64) {
    count > 0 ==> Of(start, step, count).At(count as nat - 1) < U64
  }

  method LastWord(start: Word64, step: Word64, count: Word64) returns (last: Word64)
    requires count > 0 && LastFits(start, step, count)
    ensures last as nat == Of(start, step, count).At(count as nat - 1)
  {
    assert 0 <= (count as nat - 1) * (step as nat) by {
      MulMonotone(0, count as nat - 1, step as nat);
    }
    last := start + (count - 1) * step;
  }

  method GcdWord(a: Word64, b: Word64) returns (gcd: Word64)
    ensures gcd as nat == Gcd(a as nat, b as nat)
  {
    var remainder;
    gcd, remainder := a, b;
    while remainder != 0
      invariant Gcd(gcd as nat, remainder as nat) == Gcd(a as nat, b as nat)
      decreases remainder
    {
      gcd, remainder := remainder, gcd % remainder;
    }
  }

  /** One pass in signed words. */
  method PassWord(oldR: Int128, r: Int128, oldS: Int128, s: Int128, ghost bound: nat)
    returns (nextR: Int128, nextS: Int128)
    requires oldR >= 0 && r > 0 && bound < U64
    requires AllWithin(Formed(Rounds(oldR as nat, r as nat, oldS as int, s as int)), bound)
    ensures nextR >= 0
    ensures Rounds(r as nat, nextR as nat, s as int, nextS as int) ==
            Next(Rounds(oldR as nat, r as nat, oldS as int, s as int))
  {
    ghost var formed := Formed(Rounds(oldR as nat, r as nat, oldS as int, s as int));
    assert Abs(formed[0]) <= bound && Abs(formed[1]) <= bound && Abs(formed[2]) <= bound;
    assert Abs(formed[3]) <= bound && Abs(formed[4]) <= bound;
    var quotient := oldR / r;
    nextR := oldR - quotient * r;
    nextS := oldS - quotient * s;
  }

  /** The extended loop in signed words. */
  method InverseWord(reduced: Word64, modulus: Word64, ghost x: int, ghost y: int)
    returns (coefficient: Int128, ghost cofactor: int)
    requires reduced > 0 && modulus > 0 && x * (reduced as nat) + y * (modulus as nat) == 1
    ensures (coefficient as int) * (reduced as nat) + cofactor * (modulus as nat) == 1
    ensures -(modulus as Int128) <= coefficient <= modulus as Int128
  {
    ghost var red: nat, m: nat := reduced as nat, modulus as nat;
    var oldR, r: Int128 := reduced as Int128, modulus as Int128;
    var oldS, s: Int128 := 1, 0;
    ghost var v, w := Rounds(red, m, 1, 0), Witness(0, 1, 1, 0, 0, 1);
    while r != 0
      invariant oldR >= 0 && r >= 0 && v == Rounds(oldR as nat, r as nat, oldS as int, s as int)
      invariant Running(red, m, v, w)
      decreases v.r
    {
      ghost var w' := Pass(red, m, v, w);
      var nextR, nextS := PassWord(oldR, r, oldS, s, Max(red, m));
      oldR, r := r, nextR;
      oldS, s := s, nextS;
      v, w := Next(v), w';
    }
    TracksEnd(red, m, v, w, x, y);
    coefficient, cofactor := oldS, w.oldT;
  }

  lemma ProductFits(a: nat, b: nat, m: nat)
    requires a < m && b < m && m < U64
    ensures 0 <= a * b < U64 * U64
  {
    MulMonotone(0, a, b);
    MulMonotone(a, U64, b);
    MulMonotone(b, U64, U64);
  }

  /** Reduces both factors to words before multiplying, and their product after. */
  method OffsetWord(reduced: Word64, modulus: Word64, d: Int128, ghost x: int, ghost y: int)
    returns (offset: Word128, ghost k: int)
    requires reduced > 0 && modulus > 0 && x * (reduced as nat) + y * (modulus as nat) == 1
    ensures (reduced as nat) * (offset as nat) == (d as int) + k * (modulus as nat) && offset < modulus as Word128
  {
    ghost var t;
    var inverse;
    inverse, t := InverseWord(reduced, modulus, x, y);
    var residual, inverted := RemainderWord(d, modulus), RemainderWord(inverse, modulus);
    offset := ReduceWord(residual, inverted, modulus);
    k := OffsetWitness(reduced as nat, modulus as nat, d as int, inverse as int, t, residual as nat,
                       inverse as int / modulus as nat, d as int / modulus as nat,
                       (residual as nat * inverted as nat) / modulus as nat, offset as nat);
  }

  /** The nonnegative remainder of a signed word. */
  function RemainderWord(n: Int128, modulus: Word64): (r: Word128)
    requires modulus > 0
    ensures r as int == (n as int) % (modulus as int) && r < modulus as Word128
  {
    var m := modulus as Int128;
    (n % m) as Word128
  }

  function ReduceWord(a: Word128, b: Word128, modulus: Word64): (r: Word128)
    requires modulus > 0 && a < modulus as Word128 && b < modulus as Word128
    ensures r as nat == ((a as nat) * (b as nat)) % (modulus as nat) && r < modulus as Word128
  {
    ProductFits(a as nat, b as nat, modulus as nat);
    (a * b) % (modulus as Word128)
  }

  /** A word product leaves room for a word beside it in 128 bits. */
  lemma WordProduct(a: nat, b: nat)
    requires a < U64 && b < U64
    ensures 0 <= a * b <= (U64 - 1) * (U64 - 1)
  {
    MulMonotone(0, a, b);
    MulMonotone(a, U64 - 1, b);
    MulMonotone(b, U64 - 1, U64 - 1);
  }

  /** The common member in 128-bit words. */
  method FirstWord(a: Word64, stepA: Word64, b: Word64, stepB: Word64, gcd: Word64, difference: Int128)
    returns (first: Word128)
    requires stepA > 0 && stepB > 0 && gcd as nat == Gcd(stepA as nat, stepB as nat)
    requires difference as int == b as int - a as int && InClass(b as int, a as int, gcd as nat)
    ensures InClass(first as int, a as int, stepA as nat) && InClass(first as int, b as int, stepB as nat)
  {
    ghost var d', x, y := ReducedSteps(a as nat, stepA as nat, b as nat, stepB as nat, gcd as nat);
    var modulus := stepB / gcd;
    if modulus == 1 {
      first := a as Word128;
      ClassIntro(a as int, a as int, stepA as nat, 0);
      ClassIntro(a as int, b as int, stepB as nat, -d');
    } else {
      var reduced := stepA / gcd;
      var d := difference / (gcd as Int128);
      ghost var k;
      var offset;
      offset, k := OffsetWord(reduced, modulus, d, x, y);
      WordProduct(stepA as nat, offset as nat);
      first := a as Word128 + (stepA as Word128) * offset;
      SolvedMember(a as nat, stepA as nat, b as nat, stepB as nat, gcd as nat, reduced as nat, modulus as nat,
                   d', k, offset as nat);
    }
  }

  /** Rounding up by quotient and remainder is rounding division. */
  lemma CeilByRemainder(n: nat, d: nat)
    requires d > 0
    ensures n / d + (if n % d > 0 then 1 else 0) == DivCeil(n, d)
  {
    var q, r := n / d, n % d;
    assert n == q * d + r;
    if r == 0 {
      DivUnique(n + d - 1, d, q, d - 1);
    } else {
      assert (q + 1) * d == q * d + d;
      DivUnique(n + d - 1, d, q + 1, r - 1);
    }
  }

  /** The residue moved to the first member from the low end on. */
  method RebaseWord(first: Word128, period: Word128, low: Word128) returns (least: Word128)
    requires 0 < period as nat <= (U64 - 1) * (U64 - 1) && low as nat < U64
    ensures least as nat == FirstAtLeast(first as nat, period as nat, low as nat)
  {
    var residue := first % period;
    if residue >= low {
      return residue;
    }
    var gap := low - residue;
    CeilByRemainder(gap as nat, period as nat);
    DivCeilBounds(gap as nat, period as nat);
    var quotient := gap / period + if gap % period > 0 then 1 else 0;
    assert 0 <= (quotient as nat) * (period as nat) < (gap as nat) + (period as nat);
    least := residue + quotient * period;
  }

  /** The whole test in the source's words decides exactly whether the progressions share a member. */
  method OverlapWord(a: Word64, stepA: Word64, countA: Word64, b: Word64, stepB: Word64, countB: Word64)
    returns (overlaps: bool)
    requires stepA > 0 && stepB > 0 && LastFits(a, stepA, countA) && LastFits(b, stepB, countB)
    ensures overlaps <==> Meet(Of(a, stepA, countA), Of(b, stepB, countB))
  {
    if countA == 0 || countB == 0 {
      return false;
    }
    ghost var p, q := Of(a, stepA, countA), Of(b, stepB, countB);
    var lastA := LastWord(a, stepA, countA);
    var lastB := LastWord(b, stepB, countB);
    var low := if a <= b then b as Word128 else a as Word128;
    var high := if lastA <= lastB then lastA as Word128 else lastB as Word128;
    MeetBetween(p, q, low as int, high as int);
    if low > high {
      return false;
    }
    var gcd := GcdWord(stepA, stepB);
    PeriodPositive(stepA as nat, stepB as nat, gcd as nat);
    var difference := b as Int128 - a as Int128;
    ClassByRemainder(b as int, a as int, gcd as nat);
    if difference % (gcd as Int128) != 0 {
      IncompatibleMiss(p, q);
      return false;
    }
    var first := FirstWord(a, stepA, b, stepB, gcd, difference);
    var modulus := stepB / gcd;
    WordProduct(stepA as nat, modulus as nat);
    var period := (stepA as Word128) * (modulus as Word128);
    var least := RebaseWord(first, period, low);
    overlaps := least <= high;
    RebasedDecides(p, q, gcd as nat, first as nat, low as nat, high as int);
  }
}
