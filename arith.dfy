/** Facts about multiplication and Euclidean division by a positive number,
    proved once so that the pool's address arithmetic stays linear. */
module Arith {

  lemma MulSucc(y: nat, c: nat)
    ensures (y + 1) * c == y * c + c
  {
  }

  lemma {:induction false} MulMono(x: nat, y: nat, c: nat)
    requires x <= y
    ensures x * c <= y * c
  {
    if x < y {
      MulMono(x, y - 1, c);
      MulSucc(y - 1, c);
    }
  }

  lemma MulMonoStrict(x: nat, y: nat, c: nat)
    requires x < y
    ensures x * c + c <= y * c
  {
    MulMono(x + 1, y, c);
    MulSucc(x, c);
  }

  lemma DivMod(x: nat, m: nat)
    requires m > 0
    ensures x == (x / m) * m + x % m && 0 <= x % m < m
    ensures (x / m) * m <= x < (x / m) * m + m
  {
  }

  /** Quotient and remainder are the only such pair. */
  lemma ModUnique(x: nat, k: nat, m: nat, rest: nat)
    requires m > 0 && rest < m && x == k * m + rest
    ensures x % m == rest && x / m == k
  {
    var q := x / m;
    DivMod(x, m);
    if q < k {
      MulMonoStrict(q, k, m);
    } else if q > k {
      MulMonoStrict(k, q, m);
    }
  }
}
