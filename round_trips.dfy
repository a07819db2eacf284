/**
  What a caller of the codec can rely on, stated as clients that write a
  fresh buffer with the encoders and read it back with the decoders. Each
  client is verified from the codec's contracts alone.
 */
module RoundTrips {
  import opened LittleEndian
  import opened CephDecode

  /** The fields of a path record written at `q`, read back at their offsets. */
  lemma FilepathFieldsAt(s: seq<u8>, q: nat, ino: u64, path: Option<seq<u8>>)
    requires q + 12 + PathLen(path) as nat <= |s|
    ensures Le64ToCpu(Splice(s, q, FilepathRecord(ino, path))[q..q + 8]) == ino
    ensures Le32ToCpu(Splice(s, q, FilepathRecord(ino, path))[q + 8..q + 12]) == PathLen(path)
    ensures Splice(s, q, FilepathRecord(ino, path))[q + 12..q + 12 + PathLen(path) as nat] == PathText(path)
  {
    var rec := FilepathRecord(ino, path);
    FilepathRecordFields(ino, path);
    SpliceSlice(s, q, rec, 0, 8);
    SpliceSlice(s, q, rec, 8, 12);
    SpliceSlice(s, q, rec, 12, 12 + PathLen(path) as nat);
    assert rec[12..12 + PathLen(path) as nat] == rec[12..];
  }

  /** `ceph_encode_8` at `q`, then `ceph_decode_8` from `q`. */
  method RoundTrip8(v: u8, q: nat, size: nat) returns (got: u8, encEnd: nat, decEnd: nat)
    requires q + 1 <= size
    ensures got == v && encEnd == q + 1 && decEnd == q + 1
  {
    var buf := new u8[size];
    var w := new Cursor(buf, q, size);
    w.Encode8(v);
    var r := new Cursor(buf, q, size);
    got := r.Decode8();
    encEnd, decEnd := w.p, r.p;
  }

  /** `ceph_encode_16` at `q`, then `ceph_decode_16` from `q`. */
  method RoundTrip16(v: u16, q: nat, size: nat) returns (got: u16, encEnd: nat, decEnd: nat)
    requires q + 2 <= size
    ensures got == v && encEnd == q + 2 && decEnd == q + 2
  {
    var buf := new u8[size];
    var w := new Cursor(buf, q, size);
    w.Encode16(v);
    var r := new Cursor(buf, q, size);
    got := r.Decode16();
    encEnd, decEnd := w.p, r.p;
  }

  /** `ceph_encode_32` at `q`, then `ceph_decode_32` from `q`. */
  method RoundTrip32(v: u32, q: nat, size: nat) returns (got: u32, encEnd: nat, decEnd: nat)
    requires q + 4 <= size
    ensures got == v && encEnd == q + 4 && decEnd == q + 4
  {
    var buf := new u8[size];
    var w := new Cursor(buf, q, size);
    w.Encode32(v);
    var r := new Cursor(buf, q, size);
    got := r.Decode32();
    encEnd, decEnd := w.p, r.p;
  }

  /** `ceph_encode_64` at `q`, then `ceph_decode_64` from `q`. */
  method RoundTrip64(v: u64, q: nat, size: nat) returns (got: u64, encEnd: nat, decEnd: nat)
    requires q + 8 <= size
    ensures got == v && encEnd == q + 8 && decEnd == q + 8
  {
    var buf := new u8[size];
    var w := new Cursor(buf, q, size);
    w.Encode64(v);
    var r := new Cursor(buf, q, size);
    got := r.Decode64();
    encEnd, decEnd := w.p, r.p;
  }

  /** Endianness determinism: `ceph_encode_32(1)` writes 01 00 00 00 and
      `ceph_encode_64(1)` writes 01 followed by seven 00 bytes. */
  method EncodeOne() returns (four: seq<u8>, eight: seq<u8>)
    ensures four == [1, 0, 0, 0]
    ensures eight == [1, 0, 0, 0, 0, 0, 0, 0]
  {
    var b4 := new u8[4];
    var w4 := new Cursor(b4, 0, 4);
    w4.Encode32(1);
    var b8 := new u8[8];
    var w8 := new Cursor(b8, 0, 8);
    w8.Encode64(1);
    four, eight := b4[..], b8[..];
    CpuToLeOne();
  }

  /** The checked copy at the boundary: on a region of exactly `k` bytes,
      asking for `k + 1` fails and leaves the cursor where it was, and asking
      for `k` succeeds and leaves the cursor at the end. */
  method CopySafeBoundary(k: nat) returns (overOk: bool, overPos: nat, exactOk: bool, exactPos: nat)
    ensures !overOk && overPos == 0
    ensures exactOk && exactPos == k
  {
    var buf := new u8[k];
    var dst := new u8[k + 1];
    var c := new Cursor(buf, 0, k);
    overOk := c.DecodeCopySafe(dst, 0, k + 1);
    overPos := c.p;
    exactOk := c.DecodeCopySafe(dst, 0, k);
    exactPos := c.p;
  }

  /** A fresh buffer of `size` bytes with `s[..len]` written at `q` by
      `ceph_encode_string`, and the cursor position the encoder left. */
  method WriteString(s: seq<u8>, len: u32, q: nat, size: nat) returns (buf: array<u8>, written: nat)
    requires len as nat <= |s|
    requires q + 4 + len as nat <= size
    ensures fresh(buf) && buf.Length == size
    ensures written == 4 + len as nat
    ensures Le32ToCpu(buf[q..q + 4]) == len
    ensures buf[q + 4..q + 4 + len as nat] == s[..len]
  {
    buf := new u8[size];
    var w := new Cursor(buf, q, size);
    ghost var before := buf[..];
    w.EncodeString(s, len);
    written := w.p - q;
    ghost var blob := LengthPrefixed(s[..len]);
    LengthPrefixedFields(s[..len]);
    SpliceSlice(before, q, blob, 0, 4);
    SpliceSlice(before, q, blob, 4, 4 + len as nat);
    assert blob[4..4 + len as nat] == blob[4..];
  }

  /** `ceph_encode_string` at `q`, then the length with `ceph_decode_32_safe`
      and the bytes with `ceph_decode_copy_safe`: the `len` bytes come back
      (also for `len == 0`) and both cursors advance by `4 + len`. */
  method StringRoundTrip(s: seq<u8>, len: u32, q: nat, size: nat)
    returns (got: seq<u8>, written: nat, consumed: nat)
    requires len as nat <= |s|
    requires q + 4 + len as nat <= size
    ensures got == s[..len]
    ensures written == 4 + len as nat && consumed == 4 + len as nat
  {
    var buf;
    buf, written := WriteString(s, len, q, size);
    var r := new Cursor(buf, q, size);
    var n := r.Decode32Safe();
    assert n.Ok? && n.value == len;
    var dst := new u8[n.value];
    label Copy:
    var ok := r.DecodeCopySafe(dst, 0, n.value as nat);
    assert ok;
    got := dst[..];
    SpliceWhole(old@Copy(dst[..]), buf[q + 4..q + 4 + n.value as nat]);
    consumed := r.p - q;
  }

  /** A fresh buffer of `size` bytes with a path record written at `q` by
      `ceph_encode_filepath`, and the cursor position the encoder left. */
  method WriteFilepath(ino: u64, path: Option<seq<u8>>, q: nat, size: nat) returns (buf: array<u8>, written: nat)
    requires q + 12 + PathLen(path) as nat <= size
    ensures fresh(buf) && buf.Length == size
    ensures written == 12 + PathLen(path) as nat
    ensures Le64ToCpu(buf[q..q + 8]) == ino
    ensures Le32ToCpu(buf[q + 8..q + 12]) == PathLen(path)
    ensures buf[q + 12..q + 12 + PathLen(path) as nat] == PathText(path)
  {
    buf := new u8[size];
    var w := new Cursor(buf, q, size);
    ghost var before := buf[..];
    w.EncodeFilepath(ino, path);
    written := w.p - q;
    FilepathFieldsAt(before, q, ino, path);
  }

  /** `ceph_encode_filepath` at `q`, then the fields decoded in the same
      order: the inode number and exactly the bytes the encoder copied come
      back. For a path of 2^32 bytes or more that is its first
      `|path| % 2^32` bytes; it is the whole path when the path is shorter,
      and nothing for a null path. */
  method FilepathRoundTrip(ino: u64, path: Option<seq<u8>>, q: nat, size: nat)
    returns (gotIno: u64, gotPath: seq<u8>, written: nat, consumed: nat)
    requires q + 12 + PathLen(path) as nat <= size
    ensures gotIno == ino
    ensures gotPath == PathText(path)
    ensures path.None? ==> gotPath == []
    ensures path.Some? && |path.value| < 0x1_0000_0000 ==> gotPath == path.value
    ensures written == consumed == 12 + PathLen(path) as nat
  {
    var buf;
    buf, written := WriteFilepath(ino, path, q, size);
    var r := new Cursor(buf, q, size);
    var id := r.Decode64Safe();
    assert id.Ok?;
    gotIno := id.value;
    var n := r.Decode32Safe();
    assert n.Ok? && n.value == PathLen(path);
    var dst := new u8[n.value];
    label Copy:
    var ok := r.DecodeCopySafe(dst, 0, n.value as nat);
    assert ok;
    gotPath := dst[..];
    SpliceWhole(old@Copy(dst[..]), buf[q + 12..q + 12 + n.value as nat]);
    assert gotPath == PathText(path);
    consumed := r.p - q;
  }

  /** `ceph_encode_timespec` then `ceph_decode_timespec`: both fields come
      back, and the wire record is 8 bytes, 4 per field. */
  method TimespecRoundTrip(sec: u32, nsec: u32) returns (gotSec: u32, gotNsec: u32, wireSize: nat)
    ensures gotSec == sec && gotNsec == nsec && wireSize == 8
  {
    var host := new Timespec(sec, nsec);
    var wire := new CephTimespec();
    EncodeTimespec(wire, host);
    var back := new Timespec(0, 0);
    DecodeTimespec(back, wire);
    gotSec, gotNsec := back.tvSec, back.tvNsec;
    wireSize := |wire.tvSec| + |wire.tvNsec|;
  }
}
