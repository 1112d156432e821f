/**
 * Images are laid out row after row, each row pixel after pixel, each
 * pixel sample after sample: sizes of such blocks, built up by addition so
 * that the loops walking them need no multiplication.
 */
module Grid {
  /** A loop bound as the `for` loops see it: a negative size runs no iteration. */
  function Extent(v: int): nat {
    if v < 0 then 0 else v
  }

  /** The size of `k` blocks of `size` elements, built up block by block. */
  function Times(k: nat, size: nat): nat
    decreases k
  {
    if k == 0 then 0 else Times(k - 1, size) + size
  }

  /** Blocks laid end to end take their product. */
  lemma {:induction false} TimesIsProduct(k: nat, size: nat)
    ensures Times(k, size) == k * size
    decreases k
  {
    if k > 0 {
      TimesIsProduct(k - 1, size);
    }
  }

  /** Block `k` of `count` blocks of `size` ends within them, where block `k + 1` starts. */
  lemma Within(k: nat, count: nat, size: nat)
    requires k < count
    ensures Times(k + 1, size) == Times(k, size) + size <= Times(count, size)
  {
    TimesGrows(k + 1, count, size);
  }

  /** More blocks take no less room. */
  lemma {:induction false} TimesGrows(k: nat, count: nat, size: nat)
    requires k <= count
    ensures Times(k, size) <= Times(count, size)
    decreases count - k
  {
    if k < count {
      TimesGrows(k + 1, count, size);
    }
  }
}
