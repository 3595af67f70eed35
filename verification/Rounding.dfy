/**
  Rounding a magnitude to p significant bits, to nearest with ties to even (sections 4.3.1 and 5.4.1 of IEEE 754-2008),
  and the loops with which bits.c computes it. Shifts are repeated doubling and halving.
 */
module Rounding {
  import opened Powers

  // The number of binary digits.
  function Bits(m: nat): (b: nat)
    ensures m < Pow2(b) && (m > 0 ==> b >= 1 && Pow2(b - 1) <= m)
  {
    if m == 0 then 0 else 1 + Bits(m / 2)
  }

  // m >> j, and the digits it drops
  function Shr(m: nat, j: nat): nat {
    if j == 0 then m else Shr(m, j - 1) / 2
  }

  function Low(m: nat, j: nat): nat {
    if j == 0 then 0 else (if Shr(m, j - 1) % 2 == 1 then Pow2(j - 1) else 0) + Low(m, j - 1)
  }

  // The number of digits that do not fit into p.
  function Excess(m: nat, p: nat): nat {
    if Bits(m) > p then Bits(m) - p else 0
  }

  // The leading p digits, rounded by what is cut off.
  function Significand(m: nat, p: nat): nat {
    var k := Excess(m, p);
    var q, rest, unit := Shr(m, k), Low(m, k), Pow2(k);
    if 2 * rest > unit || (2 * rest == unit && q % 2 == 1) then q + 1 else q
  }

  // q << k
  function Scaled(q: nat, k: nat): nat {
    if k == 0 then q else 2 * Scaled(q, k - 1)
  }

  function Round(m: nat, p: nat): nat {
    Scaled(Significand(m, p), Excess(m, p))
  }

  // ----- shifts -----

  lemma {:induction false} ScaledSum(a: nat, b: nat, k: nat)
    ensures Scaled(a + b, k) == Scaled(a, k) + Scaled(b, k)
  {
    if k > 0 { ScaledSum(a, b, k - 1); }
  }

  lemma ScaledMonotone(a: nat, b: nat, k: nat)
    requires a <= b
    ensures Scaled(a, k) <= Scaled(b, k)
  {
    ScaledSum(a, b - a, k);
  }

  lemma {:induction false} ScaledPow2(n: nat, k: nat)
    ensures Scaled(Pow2(n), k) == Pow2(n + k)
  {
    if k > 0 { ScaledPow2(n, k - 1); }
  }

  lemma ScaledNext(q: nat, k: nat)
    ensures Scaled(q + 1, k) == Scaled(q, k) + Pow2(k)
  {
    ScaledSum(q, 1, k);
    ScaledPow2(0, k);
  }

  lemma {:induction false} ScaledTwice(q: nat, i: nat, k: nat)
    ensures Scaled(q, i + k) == Scaled(Scaled(q, i), k)
  {
    if k > 0 { ScaledTwice(q, i, k - 1); }
  }

  lemma {:induction false} ScaledGrows(q: nat, k: nat)
    ensures q <= Scaled(q, k)
  {
    if k > 0 { ScaledGrows(q, k - 1); }
  }

  lemma ScaledDistance(v: nat, m: nat, k: nat)
    ensures Distance(Scaled(v, k), Scaled(m, k)) == Scaled(Distance(v, m), k)
  {
    if v < m {
      ScaledSum(v, m - v, k);
    } else {
      ScaledSum(m, v - m, k);
    }
  }

  // ----- digits -----

  // m >> j is the quotient, and the dropped digits the remainder, of m by 2^j.
  lemma {:induction false} ShrLow(m: nat, j: nat)
    ensures m == Scaled(Shr(m, j), j) + Low(m, j) && Low(m, j) < Pow2(j)
  {
    if j > 0 {
      ShrLow(m, j - 1);
      var f := Shr(m, j - 1);
      ScaledSum(f / 2, f / 2, j - 1);
      ScaledSum(f / 2 + f / 2, f % 2, j - 1);
      ScaledPow2(0, j - 1);
      ScaledZero(j - 1);
    }
  }

  lemma {:induction false} ScaledZero(k: nat)
    ensures Scaled(0, k) == 0
  {
    if k > 0 { ScaledZero(k - 1); }
  }

  lemma BitsFit(m: nat, n: nat)
    ensures Bits(m) <= n <==> m < Pow2(n)
  {
    if Bits(m) <= n {
      Pow2Monotone(Bits(m), n);
    } else {
      Pow2Monotone(n, Bits(m) - 1);
    }
  }

  // Dropping j digits drops j digits.
  lemma {:induction false} ShrBits(m: nat, j: nat)
    ensures Bits(Shr(m, j)) == if j < Bits(m) then Bits(m) - j else 0
  {
    if j > 0 { ShrBits(m, j - 1); }
  }

  // ----- the loops -----

  // The digit count, the shift to the left and the significand of m. The count goes up when rounding carries out.
  method Normalize(m: nat, p: nat) returns (b: nat, s: nat, f: nat)
    requires p >= 1
    ensures f == Significand(m, p) && s == (if Bits(m) < p then p - Bits(m) else 0)
    ensures b == Bits(m) + (if f == Pow2(p) then 1 else 0)
  {
    hide Significand, Pow2;
    b := CountDigits(m);
    f := m;
    SignificandRange(m, p);
    s := if p < b then 0 else p - b;
    if b > p {
      f := Cut(m, p);
      ShrBits(f, p);
      BitsFit(f, p);
      if Shr(f, p) != 0 {
        b := b + 1;
      }
    }
  }

  // The first loop.
  method CountDigits(m: nat) returns (b: nat)
    ensures b == Bits(m)
  {
    var t := m;
    b := 0;
    while t != 0
      invariant Bits(m) == b + Bits(t)
    {
      b := b + 1;
      t := t / 2;
    }
  }

  // The second loop drops all excess digits but one, keeping in c whether any of them was 1; that last one rounds.
  method Cut(m: nat, p: nat) returns (f: nat)
    requires Bits(m) > p
    ensures f == Significand(m, p)
  {
    hide Significand, Low, Pow2, Bits, Shr;
    f := m;
    var c := 0;
    ghost var j := 0;
    ShrStep(m, j, p + 1);
    LowStep(m, j);
    while Shr(f, p + 1) != 0
      invariant 0 <= j < Bits(m) - p && f == Shr(m, j)
      invariant Shr(f, p + 1) != 0 <==> j < Bits(m) - p - 1
      invariant c == if Low(m, j) == 0 then 0 else 1
      decreases f
    {
      LowStep(m, j);
      ShrStep(m, j, p + 1);
      ShrStep(m, j + 1, p + 1);
      c := if c == 1 || f % 2 == 1 then 1 else 0;
      f := f / 2;
      j := j + 1;
    }
    RoundsAsCut(m, p, f, c);
    f := f / 2 + (if f % 2 == 1 && (c == 1 || f / 2 % 2 == 1) then 1 else 0);
  }

  lemma ShrStep(m: nat, j: nat, n: nat)
    requires j < Bits(m)
    ensures Shr(m, 0) == m && Shr(m, j + 1) == Shr(m, j) / 2 && Shr(m, j) >= 1
    ensures Shr(Shr(m, j), n) != 0 <==> j + n < Bits(m)
  {
    ShrBits(m, j);
    ShrBits(Shr(m, j), n);
  }

  // The sticky bit collects the dropped digits.
  lemma LowStep(m: nat, j: nat)
    ensures Low(m, 0) == 0
    ensures Low(m, j + 1) == 0 <==> Low(m, j) == 0 && Shr(m, j) % 2 == 0
  {
  }

  // Guard digit, sticky bit and last kept digit decide the rounding.
  lemma RoundsAsCut(m: nat, p: nat, f: nat, c: nat)
    requires Bits(m) > p && f == Shr(m, Bits(m) - p - 1)
    requires c == if Low(m, Bits(m) - p - 1) == 0 then 0 else 1
    ensures Significand(m, p) == f / 2 + if f % 2 == 1 && (c == 1 || f / 2 % 2 == 1) then 1 else 0
  {
    ShrLow(m, Bits(m) - p - 1);
  }

  lemma SignificandRange(m: nat, p: nat)
    requires p >= 1
    ensures Bits(m) <= p ==> Significand(m, p) == m < Pow2(p)
    ensures Bits(m) > p ==> Pow2(p - 1) <= Significand(m, p) <= Pow2(p)
  {
    if Bits(m) > p {
      ShrBits(m, Bits(m) - p);
    } else {
      BitsFit(m, p);
    }
  }

  // ----- nearest, ties to even -----

  // v has at most p significant digits.
  ghost predicate Representable(v: nat, p: nat) {
    exists q: nat, k: nat :: q < Pow2(p) && v == Scaled(q, k)
  }

  function Distance(v: int, m: int): nat {
    if v < m then m - v else v - m
  }

  lemma RoundIsRepresentable(m: nat, p: nat)
    requires p >= 1
    ensures Representable(Round(m, p), p)
  {
    hide Bits, Shr, Low;
    SignificandRange(m, p);
    var q, k := Significand(m, p), Excess(m, p);
    if q == Pow2(p) {
      ScaledPow2(p - 1, k + 1);
      ScaledPow2(p, k);
      assert Scaled(Pow2(p - 1), k + 1) == Round(m, p);
    } else {
      assert Scaled(q, k) == Round(m, p);
    }
  }

  // The multiples of the unit on both sides of m, and which of them Round takes.
  lemma RoundPicks(m: nat, p: nat)
    ensures var k := Excess(m, p); var lo, hi := Scaled(Shr(m, k), k), Scaled(Shr(m, k), k) + Pow2(k);
      && lo <= m < hi
      && (Round(m, p) == lo || Round(m, p) == hi)
      && Distance(Round(m, p), m) <= m - lo && Distance(Round(m, p), m) <= hi - m
      && (m - lo == hi - m ==> Significand(m, p) % 2 == 0)
  {
    hide Bits, Shr, Low, Pow2;
    var k := Excess(m, p);
    ShrLow(m, k);
    ScaledNext(Shr(m, k), k);
  }

  // Nothing with p digits lies strictly between those two.
  lemma NoneBetween(m: nat, p: nat, u: nat)
    requires p >= 1 && Representable(u, p)
    ensures var k := Excess(m, p); var lo := Scaled(Shr(m, k), k); u <= lo || lo + Pow2(k) <= u
  {
    hide Bits, Shr;
    var q: nat, j: nat :| q < Pow2(p) && u == Scaled(q, j);
    var k := Excess(m, p);
    if j < k {
      SmallUnit(m, p, q, j);
    } else {
      ScaledTwice(q, j - k, k);
      MultiplesApart(Shr(m, k), Scaled(q, j - k), k);
    }
  }

  lemma SmallUnit(m: nat, p: nat, q: nat, j: nat)
    requires p >= 1 && q < Pow2(p) && j < Excess(m, p)
    ensures Scaled(q, j) <= Scaled(Shr(m, Excess(m, p)), Excess(m, p))
  {
    hide Bits, Shr, Pow2, Scaled;
    var k := Excess(m, p);
    ShrBits(m, k);
    ScaledMonotone(q, Pow2(p), j);
    ScaledPow2(p, j);
    Pow2Monotone(p + j, p - 1 + k);
    ScaledPow2(p - 1, k);
    BitsFit(Shr(m, k), p - 1);
    ScaledMonotone(Pow2(p - 1), Shr(m, k), k);
  }

  lemma MultiplesApart(a: nat, b: nat, k: nat)
    ensures Scaled(b, k) <= Scaled(a, k) || Scaled(a, k) + Pow2(k) <= Scaled(b, k)
  {
    if b <= a {
      ScaledMonotone(b, a, k);
    } else {
      ScaledNext(a, k);
      ScaledMonotone(a + 1, b, k);
    }
  }

  // No number of p digits is nearer to m than Round(m, p), and if another is as near the rounded significand is even.
  lemma RoundIsNearest(m: nat, p: nat, u: nat)
    requires p >= 1 && Representable(u, p)
    ensures Distance(Round(m, p), m) <= Distance(u, m)
    ensures u != Round(m, p) && Distance(u, m) == Distance(Round(m, p), m) ==> Significand(m, p) % 2 == 0
  {
    RoundPicks(m, p);
    NoneBetween(m, p, u);
  }

  // The same for a fraction q / 2^k of p digits, with both distances multiplied by 2^k.
  lemma RoundIsNearestFraction(m: nat, p: nat, q: nat, k: nat)
    requires p >= 1 && q < Pow2(p)
    ensures Scaled(Distance(Round(m, p), m), k) <= Distance(q, Scaled(m, k))
    ensures q != Scaled(Round(m, p), k) && Distance(q, Scaled(m, k)) == Scaled(Distance(Round(m, p), m), k)
            ==> Significand(m, p) % 2 == 0
  {
    hide Significand, Scaled, Bits;
    RoundIsExact(m, p);
    ScaledZero(k);
    if Bits(m) > p {
      var top, d := Pow2(p), Distance(Round(m, p), m);
      ScaledPow2(p - 1, 1);
      assert Representable(top, p);
      RoundIsNearest(m, p, top);
      ScaledSum(d, top, k);
      ScaledMonotone(d + top, m, k);
      ScaledGrows(top, k);
    }
  }

  // What has at most p digits is left as it is.
  lemma RoundIsExact(m: nat, p: nat)
    requires p >= 1
    ensures m < Pow2(p) <==> Bits(m) <= p
    ensures Bits(m) <= p ==> Round(m, p) == m
  {
    SignificandRange(m, p);
    BitsFit(m, p);
  }

  lemma RoundIsIdentity(m: nat, p: nat)
    requires p >= 1
    ensures Round(m, p) == m <==> Representable(m, p)
  {
    hide Bits, Significand, Pow2;
    RoundIsRepresentable(m, p);
    if Representable(m, p) { RoundIsNearest(m, p, m); }
  }

  lemma RoundIsMonotone(m: nat, n: nat, p: nat)
    requires p >= 1 && m <= n
    ensures Round(m, p) <= Round(n, p)
  {
    RoundIsRepresentable(m, p);
    RoundIsRepresentable(n, p);
    RoundIsNearest(m, p, Round(n, p));
    RoundIsNearest(n, p, Round(m, p));
  }
}
