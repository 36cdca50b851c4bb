/** Powers of two, alignment, and the bit operations that page_allocator.c applies to page
    indices: the exclusive or of GET_BUDDY and the `parent &= parent - 1` walk. */
module Bits {

  function Pow2(k: nat): (r: nat)
    ensures r > 0
  {
    if k == 0 then 1 else 2 * Pow2(k - 1)
  }

  function Min(a: nat, b: nat): nat {
    if a <= b then a else b
  }

  /** `p & ~((1 << k) - 1)`: the start of the aligned run of 2^k indices that holds p. */
  function Base(p: nat, k: nat): nat {
    if k == 0 then p else 2 * Base(p / 2, k - 1)
  }

  predicate Aligned(p: nat, k: nat) {
    Base(p, k) == p
  }

  /** The bitwise exclusive or, one binary digit at a time. */
  function Xor(x: nat, y: nat): nat {
    if x == 0 then y
    else if y == 0 then x
    else 2 * Xor(x / 2, y / 2) + (x + y) % 2
  }

  /** The bitwise and, one binary digit at a time. */
  function And(x: nat, y: nat): nat {
    if x == 0 || y == 0 then 0
    else 2 * And(x / 2, y / 2) + (if x % 2 == 1 && y % 2 == 1 then 1 else 0)
  }

  lemma {:induction false} Pow2Mono(j: nat, k: nat)
    requires j <= k
    ensures Pow2(j) <= Pow2(k)
    ensures j < k ==> 2 * Pow2(j) <= Pow2(k)
  {
    if j < k {
      Pow2Mono(j, k - 1);
    }
  }

  lemma {:induction false} BaseBounds(p: nat, k: nat)
    ensures Base(p, k) <= p < Base(p, k) + Pow2(k)
    ensures Aligned(Base(p, k), k)
  {
    if k > 0 {
      BaseBounds(p / 2, k - 1);
    }
  }

  /** The run of 2^k indices holding q is the only aligned one that does. */
  lemma {:induction false} BaseUnique(b: nat, q: nat, k: nat)
    requires Aligned(b, k) && b <= q < b + Pow2(k)
    ensures Base(q, k) == b
  {
    if k > 0 {
      BaseUnique(b / 2, q / 2, k - 1);
    }
  }

  /** Aligned runs are nested or disjoint: coarser runs contain the finer ones they meet. */
  lemma {:induction false} BaseNested(p: nat, j: nat, k: nat)
    requires j <= k
    ensures Base(Base(p, j), k) == Base(p, k)
    ensures Base(Base(p, k), j) == Base(p, k)
    ensures Base(p, k) <= Base(p, j)
    ensures Base(p, j) + Pow2(j) <= Base(p, k) + Pow2(k)
  {
    if j == 0 {
      BaseBounds(p, k);
    } else {
      BaseNested(p / 2, j - 1, k - 1);
    }
  }

  lemma AlignedDown(b: nat, j: nat, k: nat)
    requires j <= k && Aligned(b, k)
    ensures Aligned(b, j)
  {
    BaseNested(b, j, k);
  }

  /** Alignment is divisibility by 2^k. */
  lemma {:induction false} AlignedIsDivisible(p: nat, k: nat)
    ensures Aligned(p, k) <==> p % Pow2(k) == 0
  {
    if k > 0 {
      AlignedIsDivisible(p / 2, k - 1);
      var h := Pow2(k - 1);
      assert p == 2 * (p / 2) + p % 2;
      DoubleMod(p / 2, h, p % 2);
    }
  }

  lemma DoubleMod(a: nat, h: nat, bit: nat)
    requires h > 0 && bit < 2
    ensures (2 * a + bit) % (2 * h) == 2 * (a % h) + bit
  {
    var q, r := a / h, a % h;
    assert a == h * q + r;
    assert 2 * a + bit == (2 * h) * q + (2 * r + bit);
    ModIs(2 * a + bit, 2 * h, q, 2 * r + bit);
  }

  lemma ModIs(x: nat, m: nat, q: nat, r: nat)
    requires m > 0 && r < m && x == m * q + r
    ensures x % m == r && x / m == q
  {
    var d := x / m - q;
    assert m * d == r - x % m by {
      assert x == m * (x / m) + x % m;
      assert m * d == m * (x / m) - m * q;
    }
    MulBound(m, d);
  }

  lemma MulBound(m: int, d: int)
    requires m > 0
    ensures d >= 1 ==> m * d >= m
    ensures d <= -1 ==> m * d <= -m
  {
  }

  /** The next aligned index after an aligned one is 2^k further. */
  lemma {:induction false} AlignedGap(b: nat, c: nat, k: nat)
    requires Aligned(b, k) && Aligned(c, k) && b < c
    ensures b + Pow2(k) <= c
  {
    if k > 0 {
      AlignedGap(b / 2, c / 2, k - 1);
    }
  }

  lemma {:induction false} AlignedNext(b: nat, k: nat)
    requires Aligned(b, k)
    ensures Aligned(b + Pow2(k), k)
    ensures b >= Pow2(k) ==> Aligned(b - Pow2(k), k)
  {
    if k > 0 {
      AlignedNext(b / 2, k - 1);
      assert (b + Pow2(k)) / 2 == b / 2 + Pow2(k - 1);
    }
  }

  /** Of two neighbouring aligned runs of 2^k indices, one starts an aligned run of 2^(k+1). */
  lemma {:induction false} AlignedEither(b: nat, k: nat)
    requires Aligned(b, k)
    ensures Aligned(b, k + 1) <==> !Aligned(b + Pow2(k), k + 1)
    ensures !Aligned(b, k + 1) ==> b >= Pow2(k) && Aligned(b - Pow2(k), k + 1)
    ensures Base(b, k + 1) == if Aligned(b, k + 1) then b else b - Pow2(k)
  {
    if k > 0 {
      AlignedEither(b / 2, k - 1);
      assert (b + Pow2(k)) / 2 == b / 2 + Pow2(k - 1);
      if !Aligned(b, k + 1) {
        assert (b - Pow2(k)) / 2 == b / 2 - Pow2(k - 1);
      }
    } else {
      assert Base(b, 1) == 2 * (b / 2);
      assert Base(b + 1, 1) == 2 * ((b + 1) / 2);
      if b >= 1 {
        assert Base((b - 1) as nat, 1) == 2 * ((b - 1) / 2);
      }
    }
  }

  /** GET_BUDDY flips one bit, which moves an aligned index to the other half of its pair. */
  lemma {:induction false} BuddyIs(b: nat, k: nat)
    requires Aligned(b, k)
    ensures Xor(b, Pow2(k)) == if Aligned(b, k + 1) then b + Pow2(k) else b - Pow2(k)
  {
    if k > 0 {
      var h := b / 2;
      AlignedEither(h, k - 1);
      BuddyIs(h, k - 1);
      XorEven(h, Pow2(k - 1));
    } else {
      XorOne(b);
      assert Base(b, 1) == 2 * (b / 2);
    }
  }

  lemma XorEven(x: nat, y: nat)
    ensures Xor(2 * x, 2 * y) == 2 * Xor(x, y)
  {
    assert 2 * x / 2 == x && 2 * y / 2 == y && (2 * x + 2 * y) % 2 == 0;
  }

  lemma XorOne(b: nat)
    ensures Xor(b, 1) == if b % 2 == 0 then b + 1 else b - 1
  {
    if b > 0 {
      assert Xor(b, 1) == 2 * Xor(b / 2, 0) + (b + 1) % 2;
      assert Xor(b / 2, 0) == b / 2;
    }
  }

  /** All a caller needs to know of a buddy. */
  lemma Buddy(b: nat, k: nat)
    requires Aligned(b, k)
    ensures var c := Xor(b, Pow2(k));
            && Aligned(c, k) && c != b && Xor(c, Pow2(k)) == b
            && Aligned(Min(b, c), k + 1)
            && (b < c ==> c == b + Pow2(k)) && (c < b ==> b == c + Pow2(k))
            && Base(b, k + 1) == Base(c, k + 1) == Min(b, c)
  {
    BuddyIs(b, k);
    AlignedEither(b, k);
    AlignedNext(b, k);
    var c := Xor(b, Pow2(k));
    AlignedEither(c, k);
    BuddyIs(c, k);
  }

  /** Flipping bit k stays below any multiple of 2^(k+1): page_free may read every buddy. */
  lemma {:induction false} XorBound(p: nat, k: nat, n: nat)
    requires p < n && Aligned(n, k + 1)
    ensures Xor(p, Pow2(k)) < n
  {
    if k > 0 {
      XorBound(p / 2, k - 1, n / 2);
      if p > 0 {
        assert Xor(p, Pow2(k)) == 2 * Xor(p / 2, Pow2(k - 1)) + (p + Pow2(k)) % 2;
      } else {
        assert Xor(0, Pow2(k - 1)) == Pow2(k - 1);
      }
    } else {
      assert Base(n, 1) == 2 * (n / 2);
      if p > 0 {
        assert Xor(p, 1) == 2 * Xor(p / 2, 0) + (p + 1) % 2;
        assert Xor(p / 2, 0) == p / 2;
      }
    }
  }

  /** `p & (p - 1)` clears the lowest set bit: it moves strictly down but never past the
      start of an aligned run that p lies inside. */
  lemma {:induction false} ClearLowest(p: nat, k: nat)
    requires p > 0 && !Aligned(p, k)
    ensures Base(p, k) <= And(p, p - 1) < p
    ensures Base(And(p, p - 1), k) == Base(p, k)
  {
    var c := And(p, p - 1);
    if p % 2 == 1 {
      assert (p - 1) / 2 == p / 2;
      AndSelf(p / 2);
      if p > 1 {
        assert c == 2 * And(p / 2, p / 2);
      }
      assert c == p - 1;
      assert c / 2 == p / 2;
      BaseBounds(p / 2, k - 1);
    } else {
      assert (p - 1) / 2 == p / 2 - 1;
      ClearLowest(p / 2, k - 1);
      assert c == 2 * And(p / 2, p / 2 - 1);
      assert c / 2 == And(p / 2, p / 2 - 1);
    }
  }

  lemma {:induction false} AndSelf(x: nat)
    ensures And(x, x) == x
  {
    if x > 0 {
      AndSelf(x / 2);
    }
  }
}
