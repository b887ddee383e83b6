/** Machine integers as ranges of mathematical integers, and optional values. */
module Basics {

  type Byte = x: nat | x < 256

  type U32 = x: nat | x < 0x1_0000_0000

  type U64 = x: nat | x < 0x1_0000_0000_0000_0000

  datatype Option<+T> = None | Some(value: T)

  /** Regrouping a concatenation, kept apart from the proofs that need it. */
  lemma Regroup<T>(a: seq<T>, b: seq<T>, c: seq<T>)
    ensures a + (b + c) == a + b + c
  {
  }
}

/** Facts about products and division that the solver is not left to find. */
module Arithmetic {

  lemma MulMono(x: nat, y: nat, k: nat)
    requires x <= y
    ensures x * k <= y * k
  {
  }

  lemma DivMod(x: nat, n: nat)
    requires n > 0
    ensures (x / n) * n + x % n == x && x % n < n
  {
  }

  /** Quotient and remainder are unique. */
  lemma DivModUnique(x: nat, q: nat, r: nat, n: nat)
    requires r < n && x == q * n + r
    ensures x / n == q && x % n == r
  {
    var p := x / n;
    assert p * n <= x < (p + 1) * n;
    if p < q {
      MulMono(p + 1, q, n);
    } else if p > q {
      MulMono(q + 1, p, n);
    }
  }
}
