/** Bytes, and two facts about products. */
module Numbers {
  type Byte = x: int | 0 <= x < 256

  function Times(a: nat, b: nat): nat { a * b }

  lemma TimesMonotone(a: nat, b: nat, c: nat)
    requires a <= b
    ensures Times(a, c) <= Times(b, c)
  {}

  lemma OneMore(n: nat, d: int)
    ensures (n + 1) * d == n * d + d
  {}
}
