/**
  The cursor-based wire codec of `src/kernel/decode.h`.

  A `Cursor` is the pair `void **p` / `void *end` of the C macros over one
  byte buffer: `p` is the index of the next byte to read or write and `end`
  the index one past the last byte the caller owns. Every operation reads or
  writes at `p` and advances it. The checked operations signal `goto bad` by
  returning `Bad` (or `false`) and then leave the cursor and every buffer
  untouched; `BUG_ON` is a precondition.
 */
module CephDecode {
  import opened LittleEndian

  /** The outcome of a checked decoder: the decoded value, or the `bad` path. */
  datatype Result<T> = Ok(value: T) | Bad

  /** A `const char *` that may be null. */
  datatype Option<T> = None | Some(value: T)

  /** `s` with the bytes from index `at` on replaced by `b`. */
  function Splice(s: seq<u8>, at: nat, b: seq<u8>): (r: seq<u8>)
    requires at + |b| <= |s|
    ensures |r| == |s|
    ensures r[at..at + |b|] == b
    ensures forall i :: 0 <= i < |s| && !(at <= i < at + |b|) ==> r[i] == s[i]
  {
    s[..at] + b + s[at + |b|..]
  }

  /** Writing `a` and then `b` right after it is writing `a + b`. */
  lemma SpliceAdjacent(s: seq<u8>, at: nat, a: seq<u8>, b: seq<u8>)
    requires at + |a| + |b| <= |s|
    ensures Splice(Splice(s, at, a), at + |a|, b) == Splice(s, at, a + b)
  {
    var lhs, rhs := Splice(Splice(s, at, a), at + |a|, b), Splice(s, at, a + b);
    forall i | 0 <= i < |s|
      ensures lhs[i] == rhs[i]
    {
      if at <= i < at + |a| {
        assert rhs[i] == rhs[at..at + |a| + |b|][i - at] == (a + b)[i - at];
        assert lhs[i] == Splice(s, at, a)[i] == Splice(s, at, a)[at..at + |a|][i - at];
      } else if at + |a| <= i < at + |a| + |b| {
        assert rhs[i] == rhs[at..at + |a| + |b|][i - at] == (a + b)[i - at];
        assert lhs[i] == lhs[at + |a|..at + |a| + |b|][i - at - |a|];
      }
    }
  }

  /** Writing nothing changes nothing. */
  lemma SpliceEmpty(s: seq<u8>, at: nat)
    requires at <= |s|
    ensures Splice(s, at, []) == s
  {
    assert Splice(s, at, []) == s[..at] + s[at..];
  }

  /** Writing over the whole of `s` gives what was written. */
  lemma SpliceWhole(s: seq<u8>, b: seq<u8>)
    requires |b| == |s|
    ensures Splice(s, 0, b) == b
  {
    assert Splice(s, 0, b) == Splice(s, 0, b)[0..|b|];
  }

  /** A slice of the bytes written by `Splice` is the same slice of what was written. */
  lemma SpliceSlice(s: seq<u8>, at: nat, b: seq<u8>, i: nat, j: nat)
    requires at + |b| <= |s| && i <= j <= |b|
    ensures Splice(s, at, b)[at + i..at + j] == b[i..j]
  {
    var r := Splice(s, at, b);
    assert r[at + i..at + j] == r[at..at + |b|][i..j];
  }

  /** `memcpy` (and the store of a converted integer) into `dst` at `at`. */
  method Store(dst: array<u8>, at: nat, bytes: seq<u8>)
    requires at + |bytes| <= dst.Length
    modifies dst
    ensures dst[..] == Splice(old(dst[..]), at, bytes)
  {
    forall i | 0 <= i < |bytes| {
      dst[at + i] := bytes[i];
    }
    assert dst[..] == Splice(old(dst[..]), at, bytes) by {
      var r := Splice(old(dst[..]), at, bytes);
      forall i | 0 <= i < dst.Length
        ensures dst[..][i] == r[i]
      {
        if at <= i < at + |bytes| {
          assert r[i] == r[at..at + |bytes|][i - at];
        }
      }
    }
  }

  /** The number of bytes that `ceph_encode_filepath` takes from `path`:
      `strlen` stored into a `__u32`, so reduced modulo 2^32; 0 for null. */
  function PathLen(path: Option<seq<u8>>): (len: u32)
    ensures path.None? ==> len == 0
    ensures path.Some? && |path.value| < 0x1_0000_0000 ==> len as nat == |path.value|
  {
    match path
    case None => 0
    case Some(s) => (|s| % 0x1_0000_0000) as u32
  }

  /** The path bytes that `ceph_encode_filepath` copies. */
  function PathText(path: Option<seq<u8>>): (t: seq<u8>)
    ensures |t| == PathLen(path) as nat
    ensures path.None? ==> t == []
    ensures path.Some? && |path.value| < 0x1_0000_0000 ==> t == path.value
  {
    match path
    case None => []
    case Some(s) => s[..PathLen(path)]
  }

  /** A length-prefixed blob: a 32-bit little-endian length, then the bytes. */
  function LengthPrefixed(bytes: seq<u8>): (r: seq<u8>)
    requires |bytes| < 0x1_0000_0000
    ensures |r| == 4 + |bytes|
  {
    CpuToLe32(|bytes| as u32) + bytes
  }

  /** The length field of a blob holds the payload's length, and the payload
      follows it. */
  lemma LengthPrefixedFields(bytes: seq<u8>)
    requires |bytes| < 0x1_0000_0000
    ensures Le32ToCpu(LengthPrefixed(bytes)[..4]) as nat == |bytes|
    ensures LengthPrefixed(bytes)[4..] == bytes
  {
    var len := CpuToLe32(|bytes| as u32);
    assert LengthPrefixed(bytes)[..4] == len;
  }

  /** A path record: the 64-bit little-endian inode number, then the path as
      a length-prefixed blob. */
  function FilepathRecord(ino: u64, path: Option<seq<u8>>): (r: seq<u8>)
    ensures |r| == 12 + PathLen(path) as nat
  {
    CpuToLe64(ino) + LengthPrefixed(PathText(path))
  }

  /** The three fields of a path record, at their offsets. */
  lemma FilepathRecordFields(ino: u64, path: Option<seq<u8>>)
    ensures Le64ToCpu(FilepathRecord(ino, path)[..8]) == ino
    ensures Le32ToCpu(FilepathRecord(ino, path)[8..12]) == PathLen(path)
    ensures FilepathRecord(ino, path)[12..] == PathText(path)
  {
    var rec, blob := FilepathRecord(ino, path), LengthPrefixed(PathText(path));
    LengthPrefixedFields(PathText(path));
    assert rec[..8] == CpuToLe64(ino);
    assert rec[8..12] == blob[..4];
    assert rec[12..] == blob[4..];
  }

  /** Writing the inode number, then the length, then the path bytes, each
      right after the other, writes the path record. */
  lemma FilepathWrites(s: seq<u8>, at: nat, ino: u64, path: Option<seq<u8>>)
    requires at + 12 + PathLen(path) as nat <= |s|
    ensures Splice(Splice(Splice(s, at, CpuToLe64(ino)), at + 8, CpuToLe32(PathLen(path))),
                   at + 12, PathText(path))
         == Splice(s, at, FilepathRecord(ino, path))
  {
    var id, len, text := CpuToLe64(ino), CpuToLe32(PathLen(path)), PathText(path);
    SpliceAdjacent(s, at, id, len);
    SpliceAdjacent(s, at, id + len, text);
    assert FilepathRecord(ino, path) == id + len + text;
  }

  /** A buffer region with its cursor: `*p` is `p`, `end` is `end`. */
  class Cursor {
    const buf: array<u8>
    const end: nat
    var p: nat

    /** The cursor never passes the end, and the end lies inside the buffer. */
    ghost predicate Valid()
      reads this
    {
      p <= end <= buf.Length
    }

    constructor (buf: array<u8>, p: nat, end: nat)
      requires p <= end <= buf.Length
      ensures Valid() && this.buf == buf && this.p == p && this.end == end
    {
      this.buf, this.p, this.end := buf, p, end;
    }

    /** The bytes left between the cursor and the end. */
    function Remaining(): (n: nat)
      reads this
      requires Valid()
    {
      end - p
    }

    /** `ceph_decode_need`: true to go on, false for `goto bad`. It changes
        neither the cursor nor the buffer. */
    method Need(n: nat) returns (ok: bool)
      requires Valid()
      ensures ok <==> n <= Remaining()
    {
      ok := !(p + n > end);
    }

    /** `ceph_decode_8`. */
    method Decode8() returns (v: u8)
      requires Valid() && 1 <= Remaining()
      modifies this
      ensures Valid() && p == old(p) + 1
      ensures v == buf[old(p)]
    {
      v := buf[p];
      p := p + 1;
    }

    /** `ceph_decode_16`. */
    method Decode16() returns (v: u16)
      requires Valid() && 2 <= Remaining()
      modifies this
      ensures Valid() && p == old(p) + 2
      ensures v == Le16ToCpu(buf[old(p)..p])
    {
      v := Le16ToCpu(buf[p..p + 2]);
      p := p + 2;
    }

    /** `ceph_decode_32`. */
    method Decode32() returns (v: u32)
      requires Valid() && 4 <= Remaining()
      modifies this
      ensures Valid() && p == old(p) + 4
      ensures v == Le32ToCpu(buf[old(p)..p])
    {
      v := Le32ToCpu(buf[p..p + 4]);
      p := p + 4;
    }

    /** `ceph_decode_64`. */
    method Decode64() returns (v: u64)
      requires Valid() && 8 <= Remaining()
      modifies this
      ensures Valid() && p == old(p) + 8
      ensures v == Le64ToCpu(buf[old(p)..p])
    {
      v := Le64ToCpu(buf[p..p + 8]);
      p := p + 8;
    }

    /** `ceph_decode_copy`: `memcpy(pv, *p, n)` with `pv` at `dst[at]`, then
        the cursor moves on by `n`. As for `memcpy`, the two ranges must not
        overlap. */
    method DecodeCopy(dst: array<u8>, at: nat, n: nat)
      requires Valid() && n <= Remaining()
      requires at + n <= dst.Length
      requires dst == buf ==> at + n <= p || p + n <= at
      modifies this, dst
      ensures Valid() && p == old(p) + n
      ensures dst[..] == Splice(old(dst[..]), at, old(buf[p..p + n]))
      ensures buf[old(p)..p] == old(buf[p..p + n])
    {
      ghost var src := buf[p..p + n];
      Store(dst, at, buf[p..p + n]);
      assert buf[p..p + n] == src by {
        forall i | 0 <= i < n
          ensures buf[p + i] == src[i]
        {
          assert dst == buf ==> !(at <= p + i < at + n);
        }
      }
      p := p + n;
    }

    /** `ceph_decode_16_safe`. */
    method Decode16Safe() returns (r: Result<u16>)
      requires Valid()
      modifies this
      ensures Valid()
      ensures r.Ok? <==> 2 <= old(Remaining())
      ensures r.Ok? ==> p == old(p) + 2 && r.value == Le16ToCpu(buf[old(p)..p])
      ensures r.Bad? ==> p == old(p)
    {
      var ok := Need(2);
      if !ok {
        return Bad;
      }
      var v := Decode16();
      return Ok(v);
    }

    /** `ceph_decode_32_safe`. */
    method Decode32Safe() returns (r: Result<u32>)
      requires Valid()
      modifies this
      ensures Valid()
      ensures r.Ok? <==> 4 <= old(Remaining())
      ensures r.Ok? ==> p == old(p) + 4 && r.value == Le32ToCpu(buf[old(p)..p])
      ensures r.Bad? ==> p == old(p)
    {
      var ok := Need(4);
      if !ok {
        return Bad;
      }
      var v := Decode32();
      return Ok(v);
    }

    /** `ceph_decode_64_safe`. */
    method Decode64Safe() returns (r: Result<u64>)
      requires Valid()
      modifies this
      ensures Valid()
      ensures r.Ok? <==> 8 <= old(Remaining())
      ensures r.Ok? ==> p == old(p) + 8 && r.value == Le64ToCpu(buf[old(p)..p])
      ensures r.Bad? ==> p == old(p)
    {
      var ok := Need(8);
      if !ok {
        return Bad;
      }
      var v := Decode64();
      return Ok(v);
    }

    /** `ceph_decode_copy_safe`: true when the copy was done, false for
        `goto bad`, in which case neither the cursor nor `dst` has changed. */
    method DecodeCopySafe(dst: array<u8>, at: nat, n: nat) returns (ok: bool)
      requires Valid()
      requires p + n <= end ==> at + n <= dst.Length
      requires p + n <= end && dst == buf ==> at + n <= p || p + n <= at
      modifies this, dst
      ensures Valid()
      ensures ok <==> n <= old(Remaining())
      ensures ok ==> p == old(p) + n && dst[..] == Splice(old(dst[..]), at, old(buf[p..p + n]))
      ensures ok ==> buf[old(p)..p] == old(buf[p..p + n])
      ensures !ok ==> p == old(p) && dst[..] == old(dst[..])
    {
      ok := Need(n);
      if !ok {
        return;
      }
      DecodeCopy(dst, at, n);
    }

    /** `ceph_encode_8`. */
    method Encode8(v: u8)
      requires Valid() && 1 <= Remaining()
      modifies this, buf
      ensures Valid() && p == old(p) + 1
      ensures buf[..] == Splice(old(buf[..]), old(p), [v])
    {
      Store(buf, p, [v]);
      p := p + 1;
    }

    /** `ceph_encode_16`. */
    method Encode16(v: u16)
      requires Valid() && 2 <= Remaining()
      modifies this, buf
      ensures Valid() && p == old(p) + 2
      ensures buf[..] == Splice(old(buf[..]), old(p), CpuToLe16(v))
    {
      Store(buf, p, CpuToLe16(v));
      p := p + 2;
    }

    /** `ceph_encode_32`. */
    method Encode32(v: u32)
      requires Valid() && 4 <= Remaining()
      modifies this, buf
      ensures Valid() && p == old(p) + 4
      ensures buf[..] == Splice(old(buf[..]), old(p), CpuToLe32(v))
    {
      Store(buf, p, CpuToLe32(v));
      p := p + 4;
    }

    /** `ceph_encode_64`. */
    method Encode64(v: u64)
      requires Valid() && 8 <= Remaining()
      modifies this, buf
      ensures Valid() && p == old(p) + 8
      ensures buf[..] == Splice(old(buf[..]), old(p), CpuToLe64(v))
    {
      Store(buf, p, CpuToLe64(v));
      p := p + 8;
    }

    /** `ceph_encode_filepath`. The `BUG_ON` is the second precondition. */
    method EncodeFilepath(ino: u64, path: Option<seq<u8>>)
      requires Valid()
      requires 8 + 4 + PathLen(path) as nat <= Remaining()
      modifies this, buf
      ensures Valid() && p == old(p) + 12 + PathLen(path) as nat
      ensures buf[..] == Splice(old(buf[..]), old(p), FilepathRecord(ino, path))
    {
      ghost var start, before := p, buf[..];
      var len := PathLen(path);
      Encode64(ino);
      Encode32(len);
      if len != 0 {
        Store(buf, p, path.value[..len]);
      } else {
        SpliceEmpty(buf[..], p);
      }
      FilepathWrites(before, start, ino, path);
      p := p + len as nat;
    }

    /** `ceph_encode_string`: `s` holds at least `len` bytes. The `BUG_ON` is
        the third precondition. */
    method EncodeString(s: seq<u8>, len: u32)
      requires Valid()
      requires len as nat <= |s|
      requires 4 + len as nat <= Remaining()
      modifies this, buf
      ensures Valid() && p == old(p) + 4 + len as nat
      ensures buf[..] == Splice(old(buf[..]), old(p), LengthPrefixed(s[..len]))
    {
      ghost var start, before := p, buf[..];
      Encode32(len);
      if len != 0 {
        Store(buf, p, s[..len]);
      } else {
        SpliceEmpty(buf[..], p);
      }
      SpliceAdjacent(before, start, CpuToLe32(len), s[..len]);
      p := p + len as nat;
    }
  }

  /** The four wire bytes of a `__le32` field. */
  type Le32 = b: seq<u8> | |b| == 4 witness [0, 0, 0, 0]

  /** `struct timespec`: a host timestamp, whole seconds and nanoseconds. */
  class Timespec {
    var tvSec: u32
    var tvNsec: u32

    constructor (sec: u32, nsec: u32)
      ensures tvSec == sec && tvNsec == nsec
    {
      tvSec, tvNsec := sec, nsec;
    }
  }

  /** `struct ceph_timespec`: the 8-byte wire timestamp, seconds then
      nanoseconds, each a little-endian 32-bit field. */
  class CephTimespec {
    var tvSec: Le32
    var tvNsec: Le32

    constructor ()
      ensures tvSec == [0, 0, 0, 0] && tvNsec == [0, 0, 0, 0]
    {
      tvSec, tvNsec := [0, 0, 0, 0], [0, 0, 0, 0];
    }
  }

  /** `ceph_decode_timespec(ts, tv)`: each host field becomes the value whose
      wire bytes are the corresponding field of `tv`. */
  method DecodeTimespec(ts: Timespec, tv: CephTimespec)
    modifies ts
    ensures CpuToLe32(ts.tvSec) == tv.tvSec && CpuToLe32(ts.tvNsec) == tv.tvNsec
  {
    ts.tvSec := Le32ToCpu(tv.tvSec);
    ts.tvNsec := Le32ToCpu(tv.tvNsec);
  }

  /** `ceph_encode_timespec(tv, ts)`: each wire field becomes the
      little-endian bytes of the corresponding field of `ts`. */
  method EncodeTimespec(tv: CephTimespec, ts: Timespec)
    modifies tv
    ensures tv.tvSec == CpuToLe32(ts.tvSec) && tv.tvNsec == CpuToLe32(ts.tvNsec)
  {
    tv.tvSec := CpuToLe32(ts.tvSec);
    tv.tvNsec := CpuToLe32(ts.tvNsec);
  }
}
