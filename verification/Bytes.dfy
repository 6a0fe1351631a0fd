/** Raw memory: bytes, and the 32-bit integers C stores in them. */
module Bytes {
  type byte = x: int | 0 <= x < 256

  const INT_LIMIT: int := 0x8000_0000

  type int32 = x: int | -0x8000_0000 <= x < 0x8000_0000

  /** Two's complement, least significant byte first. */
  function EncodeInt(v: int32): (r: seq<byte>)
    ensures |r| == 4
  {
    var u := if v < 0 then v + 0x1_0000_0000 else v;
    [u % 256, u / 256 % 256, u / 65536 % 256, u / 16777216]
  }

  function DecodeInt(s: seq<byte>): int32
    requires |s| == 4
  {
    var u: int := s[0] as int + 256 * (s[1] as int) + 65536 * (s[2] as int) + 16777216 * (s[3] as int);
    if u >= 0x8000_0000 then u - 0x1_0000_0000 else u
  }

  /** What is stored is read back. */
  lemma DecodeEncode(v: int32)
    ensures DecodeInt(EncodeInt(v)) == v
  {
    var u := if v < 0 then v + 0x1_0000_0000 else v;
    var a, b := u / 256, u / 65536;
    assert b == a / 256 && u / 16777216 == b / 256;
    assert u == 256 * a + u % 256 && a == 256 * b + a % 256 && b == 256 * (b / 256) + b % 256;
  }

  /** The integer stored at address `a`. */
  function IntAt(mem: array<byte>, a: nat): int32
    requires a + 4 <= mem.Length
    reads mem
  {
    DecodeInt(mem[a..a + 4])
  }

  method StoreInt(mem: array<byte>, a: nat, v: int32)
    requires a + 4 <= mem.Length
    modifies mem
    ensures IntAt(mem, a) == v
    ensures forall i :: 0 <= i < mem.Length && !(a <= i < a + 4) ==> mem[i] == old(mem[i])
  {
    var e := EncodeInt(v);
    mem[a], mem[a + 1], mem[a + 2], mem[a + 3] := e[0], e[1], e[2], e[3];
    assert mem[a..a + 4] == e;
    DecodeEncode(v);
  }

  /** `block` with `bytes` laid over it from `offset` on. */
  function Overwritten(block: seq<byte>, offset: nat, bytes: seq<byte>): (r: seq<byte>)
    requires offset + |bytes| <= |block|
    ensures |r| == |block|
  {
    block[..offset] + bytes + block[offset + |bytes|..]
  }
}
