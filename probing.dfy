/** The arithmetic of the slot table: power-of-two capacities (`nextpow2`,
    doubling in `grow`) and the triangular-number probe sequence of
    `findSlot`, `i = (i + j) & (tabledim - 1)` for `j = 1, 2, 3, ...`.  On a
    table whose size is a power of two, `x & (tabledim - 1)` is `x % tabledim`,
    so probe `n` from a home position lands on `(home + 0 + 1 + ... + n) %
    tabledim`.  The central fact proved here is that the first `tabledim`
    probes visit every slot, which is what makes `findSlot` stop. */
module Probing {

  /** `n` is a power of two. */
  predicate IsPow2(n: nat)
    decreases n
  {
    if n <= 1 then n == 1 else n % 2 == 0 && IsPow2(n / 2)
  }

  /** Doubling keeps a power of two. */
  lemma Pow2Double(n: nat)
    requires IsPow2(n)
    ensures IsPow2(2 * n)
  {
    assert (2 * n) / 2 == n;
  }

  /** Two distinct powers of two are at least a factor of two apart. */
  lemma {:induction false} Pow2Gap(a: nat, b: nat)
    requires IsPow2(a) && IsPow2(b) && a < b
    ensures 2 * a <= b
    decreases a
  {
    if a > 1 {
      Pow2Gap(a / 2, b / 2);
    }
  }

  /** `nextpow2`: the least power of two that is at least `val`. */
  method NextPow2(val: nat) returns (res: nat)
    ensures IsPow2(res) && val <= res
    ensures forall p: nat :: IsPow2(p) && val <= p ==> res <= p
  {
    res := 1;
    while res < val
      invariant IsPow2(res)
      invariant res == 1 || res / 2 < val
      decreases val - res
    {
      Pow2Double(res);
      res := res * 2;
    }
    forall p: nat | IsPow2(p) && val <= p
      ensures res <= p
    {
      if p < res {
        Pow2Gap(p, res);
      }
    }
  }

  /** The triangular number 0 + 1 + ... + n: the offset of probe `n` from
      the home slot. */
  function Tri(n: nat): nat
  {
    if n == 0 then 0 else Tri(n - 1) + n
  }

  /** The slot visited by probe `n` (probe 0 is the home slot) in a table of
      `d` slots. */
  function Probe(home: nat, n: nat, d: nat): nat
    requires d > 0
  {
    (home + Tri(n)) % d
  }

  lemma {:induction false} TriClosedForm(n: nat)
    ensures 2 * Tri(n) == n * (n + 1)
  {
    if n > 0 {
      TriClosedForm(n - 1);
      assert (n - 1) * n + 2 * n == n * (n + 1);
    }
  }

  /** Euclidean division is unique: a quotient and a remainder in range
      are the ones `/` and `%` give. */
  lemma ModUnique(a: int, d: int, q: int, r: int)
    requires d > 0 && 0 <= r < d && a == q * d + r
    ensures a % d == r && a / d == q
  {
    var k := a / d - q;
    assert k * d == r - a % d by {
      assert (a / d) * d == a - a % d;
      assert k * d == (a / d) * d - q * d;
    }
    if k >= 1 {
      MulAtLeast(k, d);
      assert false;
    }
  }

  lemma {:induction false} MulAtLeast(k: nat, d: nat)
    requires k >= 1
    ensures k * d >= d
  {
    if k > 1 {
      MulAtLeast(k - 1, d);
      assert k * d == (k - 1) * d + d;
    }
  }

  /** Reducing one addend modulo `d` first does not change the sum modulo
      `d`. */
  lemma ModAddMod(x: nat, y: nat, z: nat, d: nat)
    requires d > 0 && z == x + y
    ensures (x % d + y) % d == z % d
  {
    var w := x % d + y;
    ModUnique(z, d, x / d + w / d, w % d);
  }

  /** One iteration of the probe loop: from probe `n`, step `n + 1` more
      slots, wrapping around the table. */
  lemma ProbeStep(home: nat, n: nat, d: nat)
    requires d > 0
    ensures Probe(home, n + 1, d) == (Probe(home, n, d) + (n + 1)) % d
  {
    ModAddMod(home + Tri(n), n + 1, home + Tri(n + 1), d);
  }

  lemma ModDouble(x: nat, y: nat)
    requires y > 0
    ensures (2 * x) % (2 * y) == 2 * (x % y)
  {
    ModUnique(2 * x, 2 * y, x / y, 2 * (x % y));
  }

  lemma ParityOfOddProduct(o: nat, e: nat)
    requires o % 2 == 1 && e % 2 == 1
    ensures (o * e) % 2 == 1
  {
    var a, b := o / 2, e / 2;
    assert o * e == (2 * a + 1) * (2 * b + 1) == 2 * (2 * a * b + a + b) + 1;
    ModUnique(o * e, 2, 2 * a * b + a + b, 1);
  }

  lemma ParityModEven(x: nat, d: nat)
    requires d > 0 && d % 2 == 0
    ensures (x % d) % 2 == x % 2
  {
    var q, r, m := x / d, x % d, d / 2;
    assert x == q * d + r;
    assert q * d == 2 * (q * m);
    ModUnique(x, 2, q * m + r / 2, r % 2);
  }

  lemma TimesDouble(x: nat, y: nat)
    ensures x * (2 * y) == 2 * (x * y)
  {
  }

  /** An odd number times a positive number below a power of two `D` is never
      a multiple of `D`: the odd factor contributes no factor of two. */
  lemma {:induction false} OddTimesBelowPow2(D: nat, o: nat, e: nat)
    requires IsPow2(D) && o % 2 == 1 && 0 < e < D
    ensures (o * e) % D != 0
    decreases D
  {
    if e % 2 == 1 {
      ParityOfOddProduct(o, e);
      ParityModEven(o * e, D);
    } else {
      var e', D' := e / 2, D / 2;
      OddTimesBelowPow2(D', o, e');
      TimesDouble(o, e');
      ModDouble(o * e', D');
    }
  }

  lemma ModDifference(u: nat, v: nat, d: nat)
    requires d > 0 && u <= v && u % d == v % d
    ensures (v - u) % d == 0
  {
    ModUnique(v - u, d, v / d - u / d, 0);
  }

  lemma {:induction false} TriMonotone(a: nat, b: nat)
    requires a <= b
    ensures Tri(a) <= Tri(b)
    decreases b
  {
    if a < b {
      TriMonotone(a, b - 1);
    }
  }

  lemma TriDifference(a: nat, b: nat)
    requires a <= b
    ensures 2 * (Tri(b) - Tri(a)) == (b - a) * (a + b + 1)
  {
    TriClosedForm(a);
    TriClosedForm(b);
    assert b * (b + 1) - a * (a + 1) == (b - a) * (a + b + 1);
  }

  /** An odd number times a positive number below a power of two `D`, in
      either order, is not a multiple of `D`. */
  lemma OneFactorOdd(D: nat, x: nat, y: nat)
    requires IsPow2(D) && 0 < x < D && 0 < y < D && (x % 2 == 1 || y % 2 == 1)
    ensures (x * y) % D != 0
  {
    if x % 2 == 1 {
      OddTimesBelowPow2(D, x, y);
    } else {
      OddTimesBelowPow2(D, y, x);
      assert y * x == x * y;
    }
  }

  /** Half of a product of two numbers below `2d` with an odd sum is not a
      multiple of `d` when `d` is a power of two: one of the two is odd. */
  lemma HalfProductNotMultiple(t: nat, d: nat, x: nat, y: nat)
    requires IsPow2(d) && 0 < x < 2 * d && 0 < y < 2 * d && (x + y) % 2 == 1
    requires 2 * t == x * y
    ensures t % d != 0
  {
    ModAddMod(x, y, x + y, 2);
    ModDouble(t, d);
    Pow2Double(d);
    OneFactorOdd(2 * d, x, y);
  }

  /** The offsets of probes `a < b` below `d` differ by no multiple of `d`:
      twice the difference is (b - a)(a + b + 1), a product of two numbers
      below `2d` that sum to the odd number `2b + 1`. */
  lemma TriGapNotMultiple(a: nat, b: nat, d: nat)
    requires IsPow2(d) && a < b < d
    ensures Tri(a) <= Tri(b) && (Tri(b) - Tri(a)) % d != 0
  {
    TriMonotone(a, b);
    TriDifference(a, b);
    ModUnique((b - a) + (a + b + 1), 2, b, 1);
    HalfProductNotMultiple(Tri(b) - Tri(a), d, b - a, a + b + 1);
  }

  /** The first `d` probes of a table of `d` slots, `d` a power of two, are
      pairwise distinct. */
  lemma ProbesDistinct(home: nat, d: nat, a: nat, b: nat)
    requires IsPow2(d) && a < b < d
    ensures Probe(home, a, d) != Probe(home, b, d)
  {
    TriGapNotMultiple(a, b, d);
    var u, v := home + Tri(a), home + Tri(b);
    if u % d == v % d {
      ModDifference(u, v, d);
      assert false;
    }
  }

  /** The slots visited by the first `m` probes. */
  function Visited(home: nat, m: nat, d: nat): set<nat>
    requires d > 0
  {
    set n | 0 <= n < m :: Probe(home, n, d)
  }

  lemma {:induction false} VisitedCount(home: nat, m: nat, d: nat)
    requires IsPow2(d) && m <= d
    ensures |Visited(home, m, d)| == m
  {
    if m > 0 {
      VisitedCount(home, m - 1, d);
      assert Visited(home, m, d) == Visited(home, m - 1, d) + {Probe(home, m - 1, d)};
      forall n | 0 <= n < m - 1
        ensures Probe(home, n, d) != Probe(home, m - 1, d)
      {
        ProbesDistinct(home, d, n, m - 1);
      }
    }
  }

  /** The slot indices below `m`. */
  function Slots(m: nat): set<nat>
  {
    if m == 0 then {} else Slots(m - 1) + {m - 1}
  }

  lemma {:induction false} SlotsCount(m: nat)
    ensures |Slots(m)| == m
    ensures forall i: nat :: i in Slots(m) <==> i < m
  {
    if m > 0 {
      SlotsCount(m - 1);
      assert m - 1 !in Slots(m - 1);
    }
  }

  lemma {:induction false} SubsetCount<T>(a: set<T>, b: set<T>)
    requires a <= b
    ensures |a| <= |b|
    decreases b
  {
    if a != {} {
      var x :| x in a;
      SubsetCount(a - {x}, b - {x});
    }
  }

  /** Every slot of a power-of-two table is on every probe sequence, within
      the first `d` probes: this returns the probe that reaches slot `k`. */
  lemma ProbeReaches(home: nat, d: nat, k: nat) returns (n: nat)
    requires IsPow2(d) && k < d
    ensures n < d && Probe(home, n, d) == k
  {
    var seen := Visited(home, d, d);
    VisitedCount(home, d, d);
    SlotsCount(d);
    assert seen <= Slots(d);
    if k !in seen {
      assert seen <= Slots(d) - {k};
      SubsetCount(seen, Slots(d) - {k});
      assert false;
    }
    n :| 0 <= n < d && Probe(home, n, d) == k;
  }
}
