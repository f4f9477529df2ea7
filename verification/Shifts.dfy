/** Binary shifts of natural numbers: the arithmetic under every prefix computation. */
module Shifts {

  function Shl(a: nat, k: nat): nat {
    if k == 0 then a else 2 * Shl(a, k - 1)
  }

  function Shr(a: nat, k: nat): nat {
    if k == 0 then a else Shr(a / 2, k - 1)
  }

  function Pow2(k: nat): (p: nat)
    ensures p >= 1
  {
    if k == 0 then 1 else 2 * Pow2(k - 1)
  }

  /** A shift to the right is the only quotient whose interval brackets the number. */
  lemma {:induction false} ShrBracket(a: nat, k: nat, q: nat)
    ensures Shr(a, k) == q <==> Shl(q, k) <= a < Shl(q, k) + Pow2(k)
  {
    if k > 0 {
      ShrBracket(a / 2, k - 1, q);
    }
  }

  lemma {:induction false} ShlStrict(x: nat, y: nat, k: nat)
    requires x < y
    ensures Shl(x, k) + Pow2(k) <= Shl(y, k)
  {
    if k > 0 {
      ShlStrict(x, y, k - 1);
    }
  }

  lemma {:induction false} ShlAdd(x: nat, y: nat, k: nat)
    ensures Shl(x + y, k) == Shl(x, k) + Shl(y, k)
  {
    if k > 0 {
      ShlAdd(x, y, k - 1);
    }
  }

  lemma {:induction false} ShlOne(k: nat)
    ensures Shl(1, k) == Pow2(k)
  {
    if k > 0 {
      ShlOne(k - 1);
    }
  }

  lemma {:induction false} ShlShl(a: nat, i: nat, j: nat)
    ensures Shl(Shl(a, i), j) == Shl(a, i + j)
  {
    if j > 0 {
      ShlShl(a, i, j - 1);
    }
  }

  lemma {:induction false} ShrShr(a: nat, i: nat, j: nat)
    ensures Shr(Shr(a, i), j) == Shr(a, i + j)
  {
    if i > 0 {
      ShrShr(a / 2, i - 1, j);
    }
  }

  /** Shifting up by more than one shifts down leaves the difference. */
  lemma {:induction false} ShrShl(q: nat, i: nat, j: nat)
    requires i <= j
    ensures Shr(Shl(q, j), i) == Shl(q, j - i)
  {
    if i > 0 {
      ShrShl(q, i - 1, j - 1);
    }
  }

  lemma {:induction false} Pow2Monotone(i: nat, j: nat)
    requires i <= j
    ensures Pow2(i) <= Pow2(j)
    ensures i < j ==> Pow2(i) < Pow2(j)
  {
    if i < j {
      Pow2Monotone(i, j - 1);
    }
  }

  /** The address with its `host` low bits cleared. */
  function MaskValue(a: nat, host: nat): nat {
    Shl(Shr(a, host), host)
  }

  /** Masking keeps an address in its own aligned interval, and two addresses agree when they share it. */
  lemma MaskInterval(a: nat, b: nat, host: nat)
    ensures MaskValue(a, host) <= a < MaskValue(a, host) + Pow2(host)
    ensures MaskValue(a, host) == MaskValue(b, host) <==> MaskValue(b, host) <= a < MaskValue(b, host) + Pow2(host)
  {
    ShrBracket(a, host, Shr(a, host));
    ShrBracket(a, host, Shr(b, host));
    if Shr(a, host) < Shr(b, host) {
      ShlStrict(Shr(a, host), Shr(b, host), host);
    } else if Shr(b, host) < Shr(a, host) {
      ShlStrict(Shr(b, host), Shr(a, host), host);
    }
  }

  /** Masking at one length and then at a coarser one, in either order, is masking at the coarser one. */
  lemma MaskCoarser(a: nat, fine: nat, coarse: nat)
    requires fine <= coarse
    ensures MaskValue(MaskValue(a, fine), coarse) == MaskValue(a, coarse)
    ensures MaskValue(MaskValue(a, coarse), fine) == MaskValue(a, coarse)
  {
    var up := coarse - fine;
    ShrShl(Shr(a, fine), fine, fine);
    ShrShr(MaskValue(a, fine), fine, up);
    ShrShr(a, fine, up);
    ShrShl(Shr(a, coarse), fine, coarse);
    ShlShl(Shr(a, coarse), up, fine);
  }

  lemma MaskAligned(q: nat, host: nat)
    ensures MaskValue(Shl(q, host), host) == Shl(q, host)
  {
  }

  /** A multiple of a coarser size plus a multiple of a finer one is aligned to the finer one. */
  lemma {:induction false} AlignedSum(q: nat, index: nat, fine: nat, coarse: nat)
    requires fine <= coarse
    ensures MaskValue(Shl(q, coarse) + Shl(index, fine), fine) == Shl(q, coarse) + Shl(index, fine)
  {
    ShlShl(q, coarse - fine, fine);
    var sum := Shl(q, coarse - fine) + index;
    ShlAdd(Shl(q, coarse - fine), index, fine);
    MaskAligned(sum, fine);
  }
}
