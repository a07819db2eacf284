/**
  Little-endian byte order, the on-wire order of every multi-byte integer.

  `le16/32/64_to_cpu` and `cpu_to_le16/32/64` become pure conversions between
  an unsigned integer and the sequence of its bytes, least significant first,
  so that endianness is a property of the byte format and not of a host.
 */
module LittleEndian {

  newtype u8 = x: int | 0 <= x < 0x100
  newtype u16 = x: int | 0 <= x < 0x1_0000
  newtype u32 = x: int | 0 <= x < 0x1_0000_0000
  newtype u64 = x: int | 0 <= x < 0x1_0000_0000_0000_0000

  /** 256^k, the number of values that k bytes can hold. */
  function Pow256(k: nat): (r: nat)
    ensures r > 0
  {
    if k == 0 then 1 else 256 * Pow256(k - 1)
  }

  /** The `width` low-order bytes of `v`, least significant first. */
  function ToLe(v: nat, width: nat): (r: seq<u8>)
    ensures |r| == width
  {
    if width == 0 then [] else [(v % 256) as u8] + ToLe(v / 256, width - 1)
  }

  /** The unsigned value of a little-endian byte sequence. */
  function FromLe(s: seq<u8>): (r: nat)
    ensures r < Pow256(|s|)
  {
    if s == [] then 0 else s[0] as nat + 256 * FromLe(s[1..])
  }

  /** Packing a value that fits and unpacking it gives the value back. */
  lemma {:induction false} FromLeToLe(v: nat, width: nat)
    requires v < Pow256(width)
    ensures FromLe(ToLe(v, width)) == v
  {
    if width > 0 {
      var r := ToLe(v, width);
      assert r[0] as nat == v % 256;
      assert r[1..] == ToLe(v / 256, width - 1);
      FromLeToLe(v / 256, width - 1);
    }
  }

  /** Unpacking bytes and packing the value to the same width gives the bytes back. */
  lemma {:induction false} ToLeFromLe(s: seq<u8>)
    ensures ToLe(FromLe(s), |s|) == s
  {
    if s != [] {
      var v := FromLe(s);
      var rest := FromLe(s[1..]);
      assert v == s[0] as nat + 256 * rest;
      assert v % 256 == s[0] as nat && v / 256 == rest;
      ToLeFromLe(s[1..]);
    }
  }

  /** Zero packs to all-zero bytes, at every width. */
  lemma {:induction false} ToLeZero(width: nat)
    ensures forall k :: 0 <= k < width ==> ToLe(0, width)[k] == 0
  {
    if width > 0 {
      ToLeZero(width - 1);
    }
  }

  /** Endianness determinism: the value 1 packs to a first byte 0x01 followed
      only by 0x00 bytes, whatever the width. */
  lemma ToLeOne(width: nat)
    requires width > 0
    ensures ToLe(1, width)[0] == 1
    ensures forall k :: 1 <= k < width ==> ToLe(1, width)[k] == 0
  {
    assert ToLe(1, width)[1..] == ToLe(0, width - 1);
    ToLeZero(width - 1);
  }

  /** `cpu_to_le16`: the two wire bytes of `v`. */
  function CpuToLe16(v: u16): (b: seq<u8>)
    ensures |b| == 2 && FromLe(b) == v as nat
  {
    FromLeToLe(v as nat, 2);
    ToLe(v as nat, 2)
  }

  /** `le16_to_cpu`: the value whose wire bytes are `b`. */
  function Le16ToCpu(b: seq<u8>): (v: u16)
    requires |b| == 2
    ensures CpuToLe16(v) == b
  {
    ToLeFromLe(b);
    FromLe(b) as u16
  }

  /** `cpu_to_le32`: the four wire bytes of `v`. */
  function CpuToLe32(v: u32): (b: seq<u8>)
    ensures |b| == 4 && FromLe(b) == v as nat
  {
    FromLeToLe(v as nat, 4);
    ToLe(v as nat, 4)
  }

  /** `le32_to_cpu`: the value whose wire bytes are `b`. */
  function Le32ToCpu(b: seq<u8>): (v: u32)
    requires |b| == 4
    ensures CpuToLe32(v) == b
  {
    ToLeFromLe(b);
    FromLe(b) as u32
  }

  /** `cpu_to_le64`: the eight wire bytes of `v`. */
  function CpuToLe64(v: u64): (b: seq<u8>)
    ensures |b| == 8 && FromLe(b) == v as nat
  {
    FromLeToLe(v as nat, 8);
    ToLe(v as nat, 8)
  }

  /** `le64_to_cpu`: the value whose wire bytes are `b`. */
  function Le64ToCpu(b: seq<u8>): (v: u64)
    requires |b| == 8
    ensures CpuToLe64(v) == b
  {
    ToLeFromLe(b);
    FromLe(b) as u64
  }

  /** Endianness determinism at the fixed widths. */
  lemma CpuToLeOne()
    ensures CpuToLe32(1) == [1, 0, 0, 0]
    ensures CpuToLe64(1) == [1, 0, 0, 0, 0, 0, 0, 0]
  {
    ToLeOne(4);
    ToLeOne(8);
  }

  /** Converting to wire order and back is the identity at every width. */
  lemma LeRoundTrips(a: u16, b: u32, c: u64)
    ensures Le16ToCpu(CpuToLe16(a)) == a
    ensures Le32ToCpu(CpuToLe32(b)) == b
    ensures Le64ToCpu(CpuToLe64(c)) == c
  {
  }
}
