/** Arithmetic of power-of-two page blocks.

    A block of order `k` covers `Size(k)` page frames and starts at a frame number whose
    low `k` bits are clear. Every definition recurses on the bits of the frame number, so
    that the facts below need only linear arithmetic. */
module Blocks {

  /** 2^k, the number of pages in a block of order `k`. */
  function Size(k: nat): (r: nat)
    ensures r >= 1
  {
    if k == 0 then 1 else 2 * Size(k - 1)
  }

  /** The first frame of the order-`k` block that contains frame `x`: `x` with its low `k` bits cleared. */
  function Down(x: nat, k: nat): nat {
    if k == 0 then x else 2 * Down(x / 2, k - 1)
  }

  /** `x ^ (1 << k)`. */
  function FlipBit(x: nat, k: nat): nat
    decreases k
  {
    if k > 0 then 2 * FlipBit(x / 2, k - 1) + x % 2
    else if x % 2 == 0 then x + 1
    else x - 1
  }

  /** `x & ~(1 << k)`. */
  function ClearBit(x: nat, k: nat): nat
    decreases k
  {
    if k > 0 then 2 * ClearBit(x / 2, k - 1) + x % 2 else x - x % 2
  }

  predicate Aligned(p: nat, k: nat) {
    Down(p, k) == p
  }

  lemma {:induction false} DownBounds(x: nat, k: nat)
    ensures Down(x, k) <= x < Down(x, k) + Size(k)
  {
    if k > 0 { DownBounds(x / 2, k - 1); }
  }

  /** Rounding down twice is rounding down once, to the coarser of the two orders. */
  lemma {:induction false} DownDown(x: nat, j: nat, k: nat)
    requires j <= k
    ensures Down(Down(x, j), k) == Down(x, k)
    ensures Down(Down(x, k), j) == Down(x, k)
  {
    if j > 0 { DownDown(x / 2, j - 1, k - 1); }
  }

  /** The block at order `k + 1` around `x` is the one at order `k` or that one's left neighbour. */
  lemma {:induction false} DownStep(x: nat, k: nat)
    ensures Down(x, k + 1) == Down(x, k) || Down(x, k + 1) + Size(k) == Down(x, k)
  {
    if k > 0 { DownStep(x / 2, k - 1); }
  }

  /** A page lies in the order-`k` block at `p` exactly when rounding it down gives `p`. */
  lemma {:induction false} InBlock(x: nat, p: nat, k: nat)
    requires Aligned(p, k)
    ensures Down(x, k) == p <==> p <= x < p + Size(k)
  {
    if k > 0 { InBlock(x / 2, p / 2, k - 1); }
  }

  /** `x >> k`. */
  function ShiftRight(x: nat, k: nat): nat {
    if k == 0 then x else ShiftRight(x / 2, k - 1)
  }

  /** Rounding down is shifting right and multiplying back, so alignment is divisibility by 2^k. */
  lemma {:induction false} DownIsMultiple(x: nat, k: nat)
    ensures Down(x, k) == ShiftRight(x, k) * Size(k)
  {
    if k > 0 {
      DownIsMultiple(x / 2, k - 1);
      TimesTwice(ShiftRight(x, k), Size(k - 1));
    }
  }

  lemma TimesTwice(q: nat, m: nat)
    ensures q * (2 * m) == 2 * (q * m)
  {
  }

  /** Splitting an aligned block: both halves are aligned and together cover the same pages. */
  lemma {:induction false} Halves(p: nat, k: nat)
    requires Aligned(p, k + 1)
    ensures Aligned(p, k) && Aligned(p + Size(k), k)
    ensures FlipBit(p, k) == p + Size(k)
    ensures FlipBit(p + Size(k), k) == p
  {
    if k > 0 { Halves(p / 2, k - 1); }
  }

  lemma {:induction false} HalvesCover(p: nat, k: nat, x: nat)
    requires Aligned(p, k + 1)
    ensures Down(x, k + 1) == p <==> Down(x, k) == p || Down(x, k) == p + Size(k)
  {
    Halves(p, k);
    InBlock(x, p, k + 1);
    InBlock(x, p, k);
    InBlock(x, p + Size(k), k);
  }

  /** The buddy of an aligned block is aligned, different, and its own buddy's buddy; the pair
      make up one block of the next order, whose head is found by clearing bit `k`. */
  lemma {:induction false} BuddyPair(p: nat, k: nat)
    requires Aligned(p, k)
    ensures Aligned(FlipBit(p, k), k)
    ensures FlipBit(FlipBit(p, k), k) == p
    ensures ClearBit(p, k) == Down(p, k + 1) == Down(FlipBit(p, k), k + 1)
    ensures Aligned(ClearBit(p, k), k + 1)
    ensures (ClearBit(p, k) == p && FlipBit(p, k) == p + Size(k))
         || (ClearBit(p, k) == FlipBit(p, k) && p == FlipBit(p, k) + Size(k))
  {
    var q := Down(p, k + 1);
    DownStep(p, k);
    DownDown(p, k + 1, k + 1);
    Halves(q, k);
    HalvesCover(q, k, q);
    HalvesCover(q, k, q + Size(k));
    ClearIsDown(p, k);
  }

  lemma {:induction false} ClearIsDown(p: nat, k: nat)
    requires Aligned(p, k)
    ensures ClearBit(p, k) == Down(p, k + 1)
  {
    if k > 0 { ClearIsDown(p / 2, k - 1); }
  }

  lemma {:induction false} SizeMonotone(j: nat, k: nat)
    requires j <= k
    ensures Size(j) <= Size(k)
  {
    if j < k { SizeMonotone(j, k - 1); }
  }

  /** With a page count that is a multiple of 2^m, no block of order up to `m` that starts
      inside the page area leaves it. */
  lemma {:induction false} InArea(n: nat, p: nat, k: nat, m: nat)
    requires k <= m && Aligned(n, m) && p < n && Aligned(p, k)
    ensures p + Size(k) <= n
  {
    if k > 0 {
      InArea(n / 2, p / 2, k - 1, m - 1);
    }
  }
}
