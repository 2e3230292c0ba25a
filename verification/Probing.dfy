/**
 Triangular probing over a power-of-two table.

 The native index visits slot `h`, then `h + 1`, `h + 1 + 2`, `h + 1 + 2 + 3`, ... modulo the capacity.
 The module shows why that order is a permutation of the slots: two probes that met would make
 a power of two divide a product one of whose factors is odd and the other too small.
 */
module Probing {

  ghost predicate IsPow2(n: int)
    decreases n
  {
    n == 1 || (n >= 2 && n % 2 == 0 && IsPow2(n / 2))
  }

  /** The p-th triangular number: the sum of the first p probe increments. */
  function Triangle(p: nat): nat {
    if p == 0 then 0 else Triangle(p - 1) + p
  }

  /** The slot examined by probe number p of a search that starts from hash h. */
  function ProbeSlot(h: nat, p: nat, cap: nat): (i: nat)
    requires cap > 0
    ensures i < cap
  {
    (h + Triangle(p)) % cap
  }

  lemma {:induction false} TriangleClosed(p: nat)
    ensures 2 * Triangle(p) == p * (p + 1)
  {
    if p == 0 {
    } else {
      TriangleClosed(p - 1);
    }
  }

  /** The recurrence the C loop uses to move from one probe to the next. */
  lemma ProbeStep(h: nat, p: nat, cap: nat)
    requires cap > 0
    ensures (ProbeSlot(h, p, cap) + p + 1) % cap == ProbeSlot(h, p + 1, cap)
  {
    var x := h + Triangle(p);
    ModAdd(x, p + 1, cap);
  }

  /** Quotient and remainder are unique. */
  lemma DivModUnique(x: int, q: int, r: int, m: nat)
    requires m > 0
    requires 0 <= r < m
    requires x == q * m + r
    ensures x % m == r
    ensures x / m == q
  {
    var z := x / m;
    assert x == z * m + x % m;
    assert (q - z) * m == x % m - r;
    if q > z {
      MulAtLeast(q - z, m);
    } else if q < z {
      MulAtLeast(z - q, m);
    }
  }

  lemma MulAtLeast(k: int, m: int)
    requires k >= 1
    requires m >= 0
    ensures k * m >= m
  {
    assert k * m == (k - 1) * m + m;
    MulNonNegative(k - 1, m);
  }

  lemma MulNonNegative(a: int, b: int)
    requires a >= 0 && b >= 0
    ensures a * b >= 0
  {
  }

  lemma ModAdd(x: nat, y: nat, m: nat)
    requires m > 0
    ensures (x % m + y) % m == (x + y) % m
  {
    var q, r := x / m, x % m;
    var u := r + y;
    var q2, r2 := u / m, u % m;
    assert x == q * m + r;
    assert u == q2 * m + r2;
    assert x + y == (q + q2) * m + r2 by {
      assert (q + q2) * m == q * m + q2 * m;
    }
    DivModUnique(x + y, q + q2, r2, m);
  }

  lemma SameRemainder(x: int, y: int, m: nat) returns (k: int)
    requires m > 0
    requires x % m == y % m
    ensures y - x == k * m
  {
    var a, b, r := x / m, y / m, x % m;
    assert x == a * m + r;
    assert y == b * m + r;
    k := b - a;
    assert k * m == b * m - a * m;
  }

  /** A multiple of m never lies strictly between 0 and m. */
  lemma NoSmallMultiple(x: int, r: int, m: nat)
    requires 0 < x < m
    ensures x != r * m
  {
    if x == r * m {
      if r >= 1 {
        MulAtLeast(r, m);
      } else {
        MulNonNegative(-r, m);
      }
    }
  }

  lemma EvenFactor(a: int, b: int, k: int) returns (c: int)
    requires a % 2 == 1
    requires a * b == 2 * k
    ensures b == 2 * c
    ensures a * c == k
  {
    var d := a / 2;
    assert a == 2 * d + 1;
    assert a * b == 2 * (d * b) + b;
    c := k - d * b;
    assert a * b == 2 * (a * c) by {
      assert a * b == a * (2 * c);
      assert a * (2 * c) == 2 * (a * c);
    }
  }

  /** An odd factor can be cancelled from a product divisible by a power of two. */
  lemma {:induction false} OddCancel(m: nat, a: int, b: int, t: int) returns (r: int)
    requires IsPow2(m)
    requires a % 2 == 1
    requires a * b == t * m
    ensures b == r * m
    decreases m
  {
    if m == 1 {
      r := b;
    } else {
      var h := m / 2;
      assert t * m == 2 * (t * h) by { assert m == 2 * h; }
      var c := EvenFactor(a, b, t * h);
      r := OddCancel(h, a, c, t);
      assert b == r * m by { assert m == 2 * h; }
    }
  }

  lemma TriangleGap(p: nat, q: nat)
    requires p < q
    ensures 2 * (Triangle(q) - Triangle(p)) == (q - p) * (q + p + 1)
  {
    TriangleClosed(p);
    TriangleClosed(q);
  }

  /** Two factors below m, exactly one of them odd, do not multiply to a multiple of the power of two m. */
  lemma OddEvenProduct(lo: int, hi: int, t: int, m: nat)
    requires IsPow2(m)
    requires 0 < lo < m && 0 < hi < m
    requires lo % 2 != hi % 2
    ensures lo * hi != t * m
  {
    if lo * hi == t * m {
      if lo % 2 == 1 {
        var r := OddCancel(m, lo, hi, t);
        NoSmallMultiple(hi, r, m);
      } else {
        var r := OddCancel(m, hi, lo, t);
        NoSmallMultiple(lo, r, m);
      }
    }
  }

  lemma IsPow2Double(n: nat)
    requires IsPow2(n)
    ensures IsPow2(2 * n)
  {
  }

  /** Probes p and q start a gap apart; twice the gap is a product of an odd and an even factor. */
  lemma GapNotMultiple(p: nat, q: nat, gap: int, t: int, cap: nat)
    requires IsPow2(cap)
    requires p < q < cap
    requires 2 * gap == (q - p) * (q + p + 1)
    ensures gap != t * cap
  {
    IsPow2Double(cap);
    assert t * (2 * cap) == 2 * (t * cap);
    var lo, hi := q - p, q + p + 1;
    OddEvenProduct(lo, hi, t, 2 * cap);
  }

  /** No slot is examined twice in the first `cap` probes. */
  lemma ProbesDistinct(h: nat, p: nat, q: nat, cap: nat)
    requires IsPow2(cap)
    requires p < q < cap
    ensures ProbeSlot(h, p, cap) != ProbeSlot(h, q, cap)
  {
    if ProbeSlot(h, p, cap) == ProbeSlot(h, q, cap) {
      var k := SameRemainder(h + Triangle(p), h + Triangle(q), cap);
      TriangleGap(p, q);
      GapNotMultiple(p, q, Triangle(q) - Triangle(p), k, cap);
    }
  }

  ghost function Visited(h: nat, n: nat, cap: nat): set<nat>
    requires cap > 0
  {
    set p: nat | p < n :: ProbeSlot(h, p, cap)
  }

  lemma {:induction false} VisitedCount(h: nat, n: nat, cap: nat)
    requires IsPow2(cap)
    requires n <= cap
    ensures |Visited(h, n, cap)| == n
  {
    if n == 0 {
      assert Visited(h, n, cap) == {};
    } else {
      VisitedCount(h, n - 1, cap);
      var x := ProbeSlot(h, n - 1, cap);
      forall p: nat | p < n - 1
        ensures ProbeSlot(h, p, cap) != x
      {
        ProbesDistinct(h, p, n - 1, cap);
      }
      assert Visited(h, n, cap) == Visited(h, n - 1, cap) + {x};
    }
  }

  ghost function Below(n: nat): (s: set<nat>)
    ensures |s| == n
    ensures forall i: nat :: i in s <==> i < n
  {
    if n == 0 then {} else Below(n - 1) + {n - 1}
  }

  lemma SubsetSameSize<T>(a: set<T>, b: set<T>)
    requires a <= b
    requires |a| == |b|
    ensures a == b
  {
    if a != b {
      var x :| x in b && x !in a;
      assert a <= b - {x};
      SubsetSize(a, b - {x});
    }
  }

  lemma {:induction false} SubsetSize<T>(a: set<T>, b: set<T>)
    requires a <= b
    ensures |a| <= |b|
  {
    if a == {} {
    } else {
      var x :| x in a;
      SubsetSize(a - {x}, b - {x});
    }
  }

  /** Every slot of the table is reached by exactly one of the first `cap` probes. */
  lemma ProbesCoverTable(h: nat, i: nat, cap: nat)
    requires IsPow2(cap)
    requires i < cap
    ensures exists p: nat :: p < cap && ProbeSlot(h, p, cap) == i
    ensures forall p: nat, q: nat ::
              p < cap && q < cap && ProbeSlot(h, p, cap) == i && ProbeSlot(h, q, cap) == i ==> p == q
  {
    VisitedCount(h, cap, cap);
    SubsetSameSize(Visited(h, cap, cap), Below(cap));
    assert i in Visited(h, cap, cap);
    forall p: nat, q: nat | p < q < cap
      ensures ProbeSlot(h, p, cap) != ProbeSlot(h, q, cap)
    {
      ProbesDistinct(h, p, q, cap);
    }
  }
}
