/** The smaller of two numbers, and facts about products, each small enough for the solver to find at once. */
module Arithmetic {
  function Min(a: int, b: int): int { if a < b then a else b }

  lemma Difference(x: int, y: int, z: int)
    ensures (x - y) * z == x * z - y * z && z * (x - y) == z * x - z * y
  {
  }

  lemma Sum(x: int, y: int, z: int)
    ensures (x + y) * z == x * z + y * z && z * (x + y) == z * x + z * y
  {
  }

  lemma Product(x: int, y: int)
    requires x >= 0 && y >= 0
    ensures x * y >= 0 && y * x >= 0
  {
  }

  lemma AtLeastOnce(d: nat, z: nat)
    requires d > 0
    ensures d * z >= z && z * d >= z
  {
    Difference(d, 1, z);
    Product(d - 1, z);
  }

  lemma Twofold(x: int, y: int)
    ensures 2 * (x * y) == (2 * x) * y == x * (2 * y)
  {
  }
}
