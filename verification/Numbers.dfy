/** The smaller and the larger of two numbers, and a 32-bit counter that stops at its largest value. */
module Numbers {
  const MAX_U32: nat := 0xFFFF_FFFF

  function Min(a: nat, b: nat): nat {
    if a <= b then a else b
  }

  function Max(a: nat, b: nat): nat {
    if a >= b then a else b
  }

  /** `saturating_add(1)` */
  function OneMore(n: nat): nat {
    Min(n + 1, MAX_U32)
  }
}
