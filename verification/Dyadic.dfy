/**
 Power-of-two block arithmetic: sizes, alignment and buddies.

 Alignment is defined by repeated halving so that every proof below is an
 induction over linear facts; `AlignedIsMod` and `BuddyParity` tie the
 definitions to the division and remainder tests that the kernel performs.
 */
module Dyadic {

  /** Number of pages in a block of order `k`. */
  function Size(k: nat): (s: nat)
    ensures s >= 1
  {
    if k == 0 then 1 else 2 * Size(k - 1)
  }

  /** `p` is a multiple of `Size(k)`. */
  predicate Aligned(p: nat, k: nat) {
    k == 0 || (p % 2 == 0 && Aligned(p / 2, k - 1))
  }

  /** The other half of the order `k + 1` block that an order `k` block lies in. */
  function Buddy(p: nat, k: nat): (b: int) {
    if Aligned(p, k + 1) then p + Size(k) else p - Size(k)
  }

  lemma {:induction false} SizeMonotone(j: nat, k: nat)
    requires j <= k
    ensures Size(j) <= Size(k)
  {
    if j < k { SizeMonotone(j, k - 1); }
  }

  lemma {:induction false} AlignedWeaken(p: nat, j: nat, k: nat)
    requires j <= k && Aligned(p, k)
    ensures Aligned(p, j)
  {
    if j > 0 { AlignedWeaken(p / 2, j - 1, k - 1); }
  }

  lemma {:induction false} AlignedMultiple(p: nat, k: nat) returns (q: nat)
    requires Aligned(p, k)
    ensures p == q * Size(k)
  {
    if k == 0 {
      q := p;
    } else {
      q := AlignedMultiple(p / 2, k - 1);
      assert p == 2 * (q * Size(k - 1));
    }
  }

  lemma DoubleMultiple(q: nat, n: nat)
    ensures q * (2 * n) == 2 * (q * n) && q * n >= 0
  {
  }

  lemma {:induction false} MultipleAligned(q: nat, k: nat)
    ensures q * Size(k) >= 0 && Aligned(q * Size(k), k)
  {
    if k > 0 {
      MultipleAligned(q, k - 1);
      DoubleMultiple(q, Size(k - 1));
    }
  }

  /** The halving definition is the kernel's test `index % (1 << order) == 0`. */
  lemma AlignedIsMod(p: nat, k: nat)
    ensures Aligned(p, k) <==> p % Size(k) == 0
  {
    if Aligned(p, k) {
      var q := AlignedMultiple(p, k);
      ModOfMultiple(q, Size(k));
    }
    if p % Size(k) == 0 {
      assert p == (p / Size(k)) * Size(k);
      MultipleAligned(p / Size(k), k);
    }
  }

  lemma ModOfMultiple(q: nat, m: nat)
    requires m > 0
    ensures (q * m) % m == 0 && (q * m) / m == q
  {
    DivUnique(q * m, m, q, 0);
  }

  lemma ScaledGap(i: nat, j: nat, m: nat)
    requires i < j
    ensures i * m + m <= j * m
  {
    assert j * m == i * m + (j - i) * m;
    assert (j - i) * m == m + (j - i - 1) * m;
  }

  lemma DivUnique(p: nat, m: nat, q: nat, r: nat)
    requires m > 0 && r < m && p == q * m + r
    ensures p / m == q && p % m == r
  {
    var q' := p / m;
    assert q' * m <= p < q' * m + m;
    if q' < q {
      ScaledGap(q', q, m);
    } else if q < q' {
      ScaledGap(q, q', m);
    }
  }

  /** The parity of the block index decides which side the buddy is on. */
  lemma BuddyParity(p: nat, k: nat)
    requires Aligned(p, k)
    ensures (p / Size(k)) % 2 == 0 <==> Aligned(p, k + 1)
  {
    var q := AlignedMultiple(p, k);
    ModOfMultiple(q, Size(k));
    if Aligned(p, k + 1) {
      var h := AlignedMultiple(p, k + 1);
      assert p == (2 * h) * Size(k);
      ModOfMultiple(2 * h, Size(k));
    } else if q % 2 == 0 {
      assert p == (q / 2) * Size(k + 1);
      MultipleAligned(q / 2, k + 1);
      assert false;
    }
  }

  /** Two aligned blocks that meet are nested, the smaller in the larger. */
  lemma {:induction false} Nested(a: nat, j: nat, b: nat, k: nat)
    requires j <= k && Aligned(a, j) && Aligned(b, k)
    requires a < b + Size(k) && b < a + Size(j)
    ensures b <= a && a + Size(j) <= b + Size(k)
  {
    if j > 0 { Nested(a / 2, j - 1, b / 2, k - 1); }
  }

  lemma {:induction false} LowerHalf(p: nat, k: nat)
    requires Aligned(p, k) && !Aligned(p, k + 1)
    ensures p >= Size(k) && Aligned(p - Size(k), k + 1)
  {
    if k > 0 { LowerHalf(p / 2, k - 1); }
  }

  lemma {:induction false} UpperHalf(p: nat, k: nat)
    requires Aligned(p, k + 1)
    ensures Aligned(p + Size(k), k) && !Aligned(p + Size(k), k + 1)
  {
    if k > 0 {
      assert (p + Size(k)) / 2 == p / 2 + Size(k - 1) && (p + Size(k)) % 2 == 0;
      UpperHalf(p / 2, k - 1);
    }
  }

  /** Being a buddy is symmetric, and the lower of the two starts the parent. */
  lemma BuddyFacts(p: nat, k: nat)
    requires Aligned(p, k)
    ensures var b := Buddy(p, k);
            && b >= 0 && b != p
            && Aligned(b, k)
            && Buddy(b, k) == p
            && Aligned(if p < b then p else b, k + 1)
  {
    if Aligned(p, k + 1) {
      UpperHalf(p, k);
    } else {
      LowerHalf(p, k);
      AlignedWeaken(p - Size(k), k, k + 1);
    }
  }

  /** A point of an aligned parent lies in its lower or its upper half. */
  lemma HalvesAligned(a: nat, k: nat)
    requires Aligned(a, k + 1)
    ensures Aligned(a, k) && Aligned(a + Size(k), k)
    ensures Buddy(a, k) == a + Size(k) && Buddy(a + Size(k), k) == a
  {
    AlignedWeaken(a, k, k + 1);
    UpperHalf(a, k);
  }
}
