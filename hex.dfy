/** Go's `encoding/hex.EncodeToString`: two lower-case hexadecimal digits per byte. */
module Hex {
  import opened Octets

  const Digits: string := "0123456789abcdef"

  /** The hexadecimal digit for a value below 16; distinct values give distinct digits. */
  function Digit(n: int): (c: char)
    requires 0 <= n < 16
    ensures forall m :: 0 <= m < 16 && m != n ==> Digits[m] != c
  {
    Digits[n]
  }

  function EncodeToString(b: seq<Byte>): (s: string)
    ensures |s| == 2 * |b|
  {
    if b == [] then "" else [Digit(b[0] / 16), Digit(b[0] % 16)] + EncodeToString(b[1..])
  }

  /** Different byte strings have different hexadecimal encodings. */
  lemma {:induction false} EncodeToStringInjective(a: seq<Byte>, b: seq<Byte>)
    requires EncodeToString(a) == EncodeToString(b)
    ensures a == b
    decreases |a|
  {
    if a != [] {
      var ea, eb := EncodeToString(a), EncodeToString(b);
      assert ea[0] == Digit(a[0] / 16) && ea[1] == Digit(a[0] % 16);
      assert eb[0] == Digit(b[0] / 16) && eb[1] == Digit(b[0] % 16);
      assert a[0] == b[0];
      assert ea[2..] == EncodeToString(a[1..]) && eb[2..] == EncodeToString(b[1..]);
      EncodeToStringInjective(a[1..], b[1..]);
      assert a == [a[0]] + a[1..] && b == [b[0]] + b[1..];
    }
  }
}
