/** Bytes, Python's `int.to_bytes` in its default big-endian order, ASCII
    text, and the zlib/ZIP CRC-32. */
module Bytes {

  type byte = x: int | 0 <= x < 256
  type uint32 = x: int | 0 <= x < 0x1_0000_0000

  function Pow256(k: nat): (r: nat)
    ensures r >= 1
  {
    if k == 0 then 1 else 256 * Pow256(k - 1)
  }

  /** `n.to_bytes(length=k)`: k bytes, most significant first. Python raises
      OverflowError when n does not fit; callers check `n < Pow256(k)`. */
  function BigEndian(n: nat, k: nat): (r: seq<byte>)
    requires n < Pow256(k)
    ensures |r| == k
  {
    if k == 0 then [] else BigEndian(n / 256, k - 1) + [n % 256]
  }

  /** The value of a big-endian byte string (`int.from_bytes(b)`). */
  function FromBigEndian(s: seq<byte>): nat {
    if s == [] then 0 else FromBigEndian(s[..|s| - 1]) * 256 + s[|s| - 1]
  }

  lemma {:induction false} BigEndianRoundTrip(n: nat, k: nat)
    requires n < Pow256(k)
    ensures FromBigEndian(BigEndian(n, k)) == n
  {
    if k > 0 {
      var r := BigEndian(n, k);
      assert r[..|r| - 1] == BigEndian(n / 256, k - 1);
      BigEndianRoundTrip(n / 256, k - 1);
    }
  }

  predicate IsAscii(s: string) {
    forall i :: 0 <= i < |s| ==> s[i] as int < 128
  }

  /** `s.encode()` for an ASCII string: one byte per character. */
  function AsciiBytes(s: string): (r: seq<byte>)
    requires IsAscii(s)
    ensures |r| == |s|
  {
    seq(|s|, i requires 0 <= i < |s| => s[i] as int)
  }

  /** One character per byte. */
  function AsciiString(bs: seq<byte>): (s: string)
    ensures |s| == |bs|
  {
    seq(|bs|, i requires 0 <= i < |bs| => bs[i] as char)
  }

  lemma AsciiRoundTrip(s: string)
    requires IsAscii(s)
    ensures AsciiString(AsciiBytes(s)) == s
  {
  }

  // CRC-32 as computed by zlib.crc32: reflected polynomial 0xEDB88320,
  // register preset to all ones and complemented at the end.
  const CrcPolynomial: bv32 := 0xEDB8_8320

  function CrcShift(c: bv32): bv32 {
    if c & 1 == 1 then (c >> 1) ^ CrcPolynomial else c >> 1
  }

  function CrcByte(c: bv32, b: byte): bv32 {
    var x := c ^ (b as bv32);
    CrcShift(CrcShift(CrcShift(CrcShift(CrcShift(CrcShift(CrcShift(CrcShift(x))))))))
  }

  function CrcRegister(c: bv32, data: seq<byte>): bv32
    decreases |data|
  {
    if data == [] then c else CrcRegister(CrcByte(c, data[0]), data[1..])
  }

  /** `zlib.crc32(data) & 0xFFFFFFFF`. */
  function Crc32(data: seq<byte>): uint32 {
    (CrcRegister(0xFFFF_FFFF, data) ^ 0xFFFF_FFFF) as int
  }
}
