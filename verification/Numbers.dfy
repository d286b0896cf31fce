/** Stock arithmetic shared by the other modules. */
module Numbers {
  function Max(a: nat, b: nat): nat {
    if a >= b then a else b
  }

  predicate IsWhole(x: real) {
    x == x.Floor as real
  }
}
