/**
 * The big-endian unsigned byte encoding of Go's `math/big.Int`:
 * `x.Bytes()` gives the absolute value as the shortest big-endian byte string
 * (zero gives the empty string) and `new(big.Int).SetBytes(b)` reads a
 * big-endian byte string back as a non-negative integer.
 */
module BigInt {
  import opened Octets

  /** 256 to the power `n`: one more than the largest value `n` bytes can hold. */
  function Pow256(n: nat): (p: nat)
    ensures p >= 1
  {
    if n == 0 then 1 else 256 * Pow256(n - 1)
  }

  /** `x.Bytes()` for a non-negative `x`: no leading zero byte, and zero is the empty string. */
  function Bytes(x: nat): (r: seq<Byte>)
    ensures r == [] <==> x == 0
    ensures r != [] ==> r[0] != 0
    decreases x
  {
    if x == 0 then [] else Bytes(x / 256) + [x % 256]
  }

  /** `new(big.Int).SetBytes(s)`: `s` read as a big-endian unsigned number, below 256^|s|. */
  function SetBytes(s: seq<Byte>): (x: nat)
    ensures x < Pow256(|s|)
  {
    if s == [] then 0
    else
      var high := SetBytes(s[..|s| - 1]);
      assert high * 256 + s[|s| - 1] < Pow256(|s|) by {
        assert high <= Pow256(|s| - 1) - 1;
        assert high * 256 <= (Pow256(|s| - 1) - 1) * 256;
      }
      high * 256 + s[|s| - 1]
  }

  /** Reading back what `Bytes` wrote gives the original number. */
  lemma {:induction false} SetBytesOfBytes(x: nat)
    ensures SetBytes(Bytes(x)) == x
    decreases x
  {
    if x != 0 {
      var s := Bytes(x);
      assert s[..|s| - 1] == Bytes(x / 256);
      SetBytesOfBytes(x / 256);
    }
  }

  /** A byte string without a leading zero byte is exactly what `Bytes` writes for its value. */
  lemma {:induction false} BytesOfSetBytes(s: seq<Byte>)
    requires s == [] || s[0] != 0
    ensures Bytes(SetBytes(s)) == s
    decreases |s|
  {
    if s != [] {
      var init := s[..|s| - 1];
      var x := SetBytes(s);
      assert x / 256 == SetBytes(init) && x % 256 == s[|s| - 1];
      if init == [] {
        assert x == s[0];
      } else {
        assert init[0] == s[0];
        BytesOfSetBytes(init);
      }
      assert s == init + [s[|s| - 1]];
    }
  }

  /** `SetBytes` ignores leading zero bytes. */
  lemma {:induction false} SetBytesLeadingZero(s: seq<Byte>)
    ensures SetBytes([0] + s) == SetBytes(s)
    decreases |s|
  {
    if s != [] {
      var t := [0] + s;
      assert t[..|t| - 1] == [0] + s[..|s| - 1];
      SetBytesLeadingZero(s[..|s| - 1]);
    }
  }
}
