/** What several modules share. */
module Common {

  datatype Option<+T> = None | Some(value: T)

  const LIMIT: nat := 0x1_0000_0000

  type u32 = x: int | 0 <= x < 0x1_0000_0000

  type byte = x: int | 0 <= x < 256

  function Min(a: nat, b: nat): nat {
    if a < b then a else b
  }

  /** A number kept in 32 bits. */
  function Wrap(x: int): u32 {
    x % LIMIT
  }

  lemma {:induction false} WrapTwice(x: nat, y: nat)
    ensures Wrap(Wrap(x) + y) == Wrap(x + y)
  {
  }

  function Pow2(n: nat): (p: nat)
    ensures p > 0
  {
    if n == 0 then 1 else 2 * Pow2(n - 1)
  }

  lemma {:induction false} Distribute(a: int, b: int, m: int)
    ensures (a + b) * m == a * m + b * m
  {
  }

  lemma {:induction false} Multiples(a: nat, b: nat, m: nat)
    requires a <= b
    ensures a * m <= b * m
  {
    if a < b {
      Multiples(a, b - 1, m);
      Distribute(b - 1, 1, m);
    }
  }

  lemma {:induction false} AtLeastOnce(k: int, m: nat)
    ensures k >= 1 ==> k * m >= m
    ensures k <= -1 ==> k * m + m <= 0
  {
    if k >= 1 {
      Multiples(1, k, m);
    } else if k <= -1 {
      Multiples(1, -k, m);
      Distribute(k, -k, m);
    }
  }

  /** The quotient and the remainder are the only ones. */
  lemma {:induction false} DivisionIs(x: int, m: nat, q: int, r: nat)
    requires x == q * m + r && r < m
    ensures x / m == q && x % m == r
  {
    var d, e := x / m, x % m;
    assert x == d * m + e;
    Distribute(q, -d, m);
    assert (q - d) * m == e - r;
    AtLeastOnce(q - d, m);
  }

  lemma {:induction false} MultipleMod(k: int, m: nat)
    requires m > 0
    ensures k * m / m == k && k * m % m == 0
  {
    DivisionIs(k * m, m, k, 0);
  }

  lemma {:induction false} ModPlus(k: int, m: nat, y: nat)
    requires m > 0
    ensures (k * m + y) % m == y % m
  {
    var q, r := y / m, y % m;
    Distribute(k, q, m);
    DivisionIs(k * m + y, m, k + q, r);
  }

  lemma {:induction false} ModSmall(a: nat, m: nat)
    requires m > 0
    ensures 0 <= a % m < m && (a < m ==> a % m == a)
  {
  }
}
