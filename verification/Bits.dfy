/** Bit sets in 32-bit words, as the decoder keeps them in `fields_seen`. */
module Bits {
  import opened Bytes
  import opened Varint

  /** Bit `k` of `w`. */
  predicate Bit(w: nat, k: nat)
    decreases k
  {
    if k == 0 then w % 2 == 1 else Bit(w / 2, k - 1)
  }

  /** `w >> k`. */
  function Shr(w: nat, k: nat): nat
    decreases k
  {
    if k == 0 then w else Shr(w / 2, k - 1)
  }

  lemma {:induction false} BitOfOr(a: nat, b: nat, k: nat)
    ensures Bit(BitOr(a, b), k) <==> Bit(a, k) || Bit(b, k)
    decreases k
  {
    var low, rest := if a % 2 == 1 || b % 2 == 1 then 1 else 0, BitOr(a / 2, b / 2);
    assert BitOr(a, b) == low + 2 * rest;
    hide BitOr;
    assert (low + 2 * rest) % 2 == low && (low + 2 * rest) / 2 == rest;
    if k > 0 { BitOfOr(a / 2, b / 2, k - 1); }
  }

  lemma {:induction false} BitOfShl(j: nat, k: nat)
    ensures Bit(Shl(1, j), k) <==> k == j
    decreases k
  {
    if j == 0 {
      if k > 0 { NoBits(k - 1); }
    } else if k > 0 {
      assert Shl(1, j) / 2 == Shl(1, j - 1);
      BitOfShl(j - 1, k - 1);
    }
  }

  lemma {:induction false} NoBits(k: nat)
    ensures !Bit(0, k)
    decreases k
  {
    if k > 0 { NoBits(k - 1); }
  }

  lemma {:induction false} BitAbove(w: nat, n: nat, k: nat)
    requires w < Shl(1, n) && n <= k
    ensures !Bit(w, k)
    decreases n
  {
    if n == 0 { NoBits(k); } else { BitAbove(w / 2, n - 1, k - 1); }
  }

  lemma {:induction false} OrFits(a: nat, b: nat, n: nat)
    requires a < Shl(1, n) && b < Shl(1, n)
    ensures BitOr(a, b) < Shl(1, n)
    decreases n
  {
    if n > 0 { OrFits(a / 2, b / 2, n - 1); }
  }

  /** `w | 1 << j` sets bit `j` and keeps the others. */
  lemma {:induction false} SetBit(w: nat, j: nat)
    requires w < UINT32 && j < 32
    ensures BitOr(w, Shl(1, j)) < UINT32
    ensures forall k: nat :: Bit(BitOr(w, Shl(1, j)), k) <==> Bit(w, k) || k == j
  {
    hide Bit, BitOr;
    forall k: nat ensures Bit(BitOr(w, Shl(1, j)), k) <==> Bit(w, k) || k == j {
      BitOfOr(w, Shl(1, j), k);
      BitOfShl(j, k);
    }
    WordSize();
    ShlGrows(1, j, 31);
    OrFits(w, Shl(1, j), 32);
  }

  lemma {:induction false} WordSize()
    ensures Shl(1, 31) == UINT31 && Shl(1, 32) == UINT32
  {
    ShlConstants(1);
    assert Shl(1, 29) == 2 * Shl(1, 28);
    assert Shl(1, 30) == 2 * Shl(1, 29);
  }

  lemma {:induction false} MaskBit(n: nat, k: nat)
    ensures Bit(Shl(1, n) - 1, k) <==> k < n
    decreases k
  {
    if n == 0 {
      NoBits(k);
    } else {
      assert Shl(1, n) == 2 * Shl(1, n - 1);
      if k > 0 { MaskBit(n - 1, k - 1); }
    }
  }

  /** Two words with the same bits are the same. */
  lemma {:induction false} SameBits(v: nat, w: nat)
    requires forall k: nat :: Bit(v, k) <==> Bit(w, k)
    ensures v == w
    decreases v + w
  {
    if v + w > 0 {
      assert Bit(v, 0) <==> Bit(w, 0);
      forall k: nat ensures Bit(v / 2, k) <==> Bit(w / 2, k) { assert Bit(v, k + 1) <==> Bit(w, k + 1); }
      SameBits(v / 2, w / 2);
    }
  }

  /** The bits of `w` are those below `n`. */
  ghost predicate LowBits(w: nat, n: nat) {
    forall k: nat :: Bit(w, k) <==> k < n
  }

  /** Such a word is the mask `2^n - 1`. */
  lemma {:induction false} MaskExact(w: nat, n: nat)
    ensures w == Shl(1, n) - 1 <==> LowBits(w, n)
  {
    hide Bit, Shl;
    var mask := Shl(1, n) - 1;
    forall k: nat ensures Bit(mask, k) <==> k < n { MaskBit(n, k); }
    if LowBits(w, n) { SameBits(w, mask); }
  }

  /** `allbits >> k`. */
  lemma {:induction false} ShiftMask(n: nat, k: nat)
    requires k <= n
    ensures Shr(Shl(1, n) - 1, k) == Shl(1, n - k) - 1
    decreases k
  {
    if k > 0 {
      assert (Shl(1, n) - 1) / 2 == Shl(1, n - 1) - 1;
      ShiftMask(n - 1, k - 1);
    }
  }
}
