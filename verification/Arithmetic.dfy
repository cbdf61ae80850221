/** Facts about multiples that the verifier does not find by itself. */
module Arithmetic {
  lemma MultipleIsFar(n: nat, k: int)
    requires n > 0 && k != 0
    ensures n * k >= n || n * k + n <= 0
  {
    if k >= 1 {
      assert n * k >= n * 1;
    } else {
      assert n * -k >= n * 1;
    }
  }

  lemma DivisionIsUnique(x: nat, n: nat, k: nat, r: nat)
    requires n > 0 && x == n * k + r && r < n
    ensures x / n == k && x % n == r
  {
    assert x == n * (x / n) + x % n;
    assert n * (x / n - k) == r - x % n;
    if x / n != k {
      MultipleIsFar(n, x / n - k);
    }
  }

  lemma Distributes(n: nat, q: nat, k: nat)
    ensures n * (q + k) == n * q + n * k
  {
  }

  lemma DivisionAdds(x: nat, y: nat, n: nat, k: nat, r: nat)
    requires n > 0 && x % n + y == n * k + r && r < n
    ensures (x + y) / n == x / n + k && (x + y) % n == r
  {
    var q := x / n;
    assert x == n * q + x % n;
    Distributes(n, q, k);
    DivisionIsUnique(x + y, n, q + k, r);
  }
}
