/** Fixed-width integer and byte types shared by the pricing-record model. */
module Types {

  const UINT64_MODULUS: int := 0x1_0000_0000_0000_0000

  type uint64 = x: int | 0 <= x < 0x1_0000_0000_0000_0000
  type uint32 = x: int | 0 <= x < 0x1_0000_0000
  type byte = x: int | 0 <= x < 0x100

  /** Number of raw bytes in a pricing-record signature. */
  const SIGNATURE_SIZE: nat := 64

  /** The fixed 64-byte signature buffer, as a value. */
  type Signature = s: seq<byte> | |s| == SIGNATURE_SIZE witness ZeroSignature()

  function ZeroSignature(): (s: seq<byte>)
    ensures |s| == SIGNATURE_SIZE
    ensures forall i :: 0 <= i < |s| ==> s[i] == 0
  {
    seq(SIGNATURE_SIZE, _ => 0)
  }

  datatype Option<T> = None | Some(value: T)

  /** Unsigned 64-bit addition, which wraps around modulo 2^64. */
  function AddU64(a: uint64, b: uint64): (r: uint64)
    ensures a + b < UINT64_MODULUS ==> r == a + b
    ensures a + b >= UINT64_MODULUS ==> r == a + b - UINT64_MODULUS && r < a && r < b
  {
    (a + b) % UINT64_MODULUS
  }
}
