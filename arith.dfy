/** Byte offsets in a bitmap are sums of products: a row index times the row
    stride, a pixel index times the bytes per pixel. They are written with
    `Mul`, whose value is the product (`MulIsProduct`), so that every fact
    about them used elsewhere is one of the lemmas here. */
module Arith {

  /** `n` blocks of `size` bytes: `n * size`. */
  function Mul(n: nat, size: nat): nat
    decreases n
  {
    if n == 0 then 0 else Mul(n - 1, size) + size
  }

  lemma {:induction false} MulIsProduct(n: nat, size: nat)
    ensures Mul(n, size) == n * size
    decreases n
  {
    if n > 0 {
      MulIsProduct(n - 1, size);
      assert (n - 1) * size + size == n * size;
    }
  }

  /** More blocks take more bytes. */
  lemma {:induction false} MulMono(a: nat, b: nat, size: nat)
    requires a <= b
    ensures Mul(a, size) <= Mul(b, size)
    decreases b
  {
    if a < b {
      MulMono(a, b - 1, size);
    }
  }

  /** Larger blocks take more bytes. */
  lemma {:induction false} MulMonoSize(n: nat, s1: nat, s2: nat)
    requires s1 <= s2
    ensures Mul(n, s1) <= Mul(n, s2)
    decreases n
  {
    if n > 0 {
      MulMonoSize(n - 1, s1, s2);
    }
  }

  /** Block `a` ends no later than block `b` begins, for `a < b`. */
  lemma BlockBefore(a: nat, b: nat, size: nat)
    requires a < b
    ensures Mul(a, size) + size <= Mul(b, size)
  {
    MulMono(a + 1, b, size);
  }
}
