/** Fixed-width lower-case hexadecimal, as Rust's `{:04x}` and `{:016x}` write it. */
module Hexadecimal {

  const DIGITS := "0123456789abcdef"

  function DigitOf(n: nat): (c: char)
    requires n < 16
  {
    DIGITS[n]
  }

  function Pow16(n: nat): (p: nat)
    ensures p > 0
  {
    if n == 0 then 1 else 16 * Pow16(n - 1)
  }

  /** The low `n` hexadecimal digits, as `{:0n x}` writes a number of at most `n` digits. */
  function Hex(h: nat, n: nat): (s: string)
    ensures |s| == n
    decreases n
  {
    if n == 0 then "" else Hex(h / 16, n - 1) + [DigitOf(h % 16)]
  }

  lemma DigitsDiffer(a: nat, b: nat)
    requires a < 16 && b < 16 && DigitOf(a) == DigitOf(b)
    ensures a == b
  {
  }

  lemma {:induction false} HexInjective(g: nat, h: nat, n: nat)
    requires g < Pow16(n) && h < Pow16(n) && Hex(g, n) == Hex(h, n)
    ensures g == h
    decreases n
  {
    hide DigitOf;
    if n > 0 {
      assert Hex(g / 16, n - 1) == Hex(g, n)[..n - 1] == Hex(h, n)[..n - 1] == Hex(h / 16, n - 1);
      HexInjective(g / 16, h / 16, n - 1);
      assert DigitOf(g % 16) == Hex(g, n)[n - 1] == Hex(h, n)[n - 1] == DigitOf(h % 16);
      DigitsDiffer(g % 16, h % 16);
    }
  }
}
