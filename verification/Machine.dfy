/** The program's fixed-width arithmetic on unbounded integers, and a small helper. */
module Machine {
  import opened Bytes

  function Low64(n: int): nat { n % TWO_64 }

  function Low32(n: int): nat { n % TWO_32 }

  function Add64(a: nat, b: nat): nat { Low64(a + b) }

  function Sub64(a: nat, b: nat): nat { Low64(a - b) }

  function Min(a: nat, b: nat): nat { if a < b then a else b }

  lemma SmallIsLow(n: nat)
    requires n < TWO_64
    ensures Low64(n) == n
  {
  }

  lemma LowIsSmaller(n: nat)
    ensures Low64(n) <= n
  {
  }

  lemma Add64Exact(a: nat, b: nat)
    requires a + b < TWO_64
    ensures Add64(a, b) == a + b
  {
  }

  lemma AddModulo(a: nat, b: nat)
    ensures Add64(Low64(a), b) == Low64(a + b)
  {
  }

  lemma SubModulo(a: nat, b: nat)
    requires b <= a
    ensures Sub64(Low64(a), b) == Low64(a - b)
  {
  }
}
