/** Failure-carrying datatypes shared by every module of the model. */
module Wrappers {

  /** An optional value: `None` stands for an absent key, a missing file, a failed decode. */
  datatype Option<+T> = None | Some(value: T) {
    function GetOr(default: T): T {
      match this
      case Some(v) => v
      case None => default
    }
  }

  /** The outcome of a fallible operation, mirroring Rust's `Result<T, E>`. */
  datatype Result<+T, +E> = Success(value: T) | Failure(error: E)
}

/** Bytes as the integers 0..255, with the bitwise exclusive-or the cipher needs. */
module Bytes {

  type byte = x: int | 0 <= x < 256

  /** Exclusive-or of the low `n` bits of `a` and `b`, one bit at a time. */
  function XorBits(a: nat, b: nat, n: nat): (r: nat)
    ensures r < Pow2(n)
  {
    if n == 0 then 0
    else (if a % 2 == b % 2 then 0 else 1) + 2 * XorBits(a / 2, b / 2, n - 1)
  }

  function Pow2(n: nat): (r: nat)
    ensures r >= 1
  {
    if n == 0 then 1 else 2 * Pow2(n - 1)
  }

  /** Bitwise exclusive-or of two bytes (Rust's `^` on `u8`). */
  function Xor(a: byte, b: byte): byte {
    assert Pow2(8) == 256;
    XorBits(a, b, 8)
  }

  lemma {:induction false} XorBitsCancel(a: nat, b: nat, n: nat)
    requires a < Pow2(n)
    ensures XorBits(XorBits(a, b, n), b, n) == a
  {
    if n > 0 {
      XorBitsCancel(a / 2, b / 2, n - 1);
      var r := XorBits(a / 2, b / 2, n - 1);
      var x := XorBits(a, b, n);
      assert x % 2 == (if a % 2 == b % 2 then 0 else 1);
      assert x / 2 == r;
    }
  }

  /** Xor-ing twice with the same byte gives back the original byte. */
  lemma XorCancel(a: byte, b: byte)
    ensures Xor(Xor(a, b), b) == a
  {
    assert Pow2(8) == 256;
    XorBitsCancel(a, b, 8);
  }

  /** `n` zero bytes, as `vec![0u8; n]` produces them. */
  function Zeros(n: nat): (z: seq<byte>)
    ensures |z| == n
    ensures forall i :: 0 <= i < n ==> z[i] == 0
  {
    seq(n, _ => 0)
  }
}
