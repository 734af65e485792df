/**
 * Fixed-width unsigned integers and their big-endian byte encoding, as Go's
 * `encoding/binary.BigEndian` provides them (`PutUint32`, `Uint32`, `Uint64`).
 */
module BigEndian {

  type byte = b: int | 0 <= b < 256
  type uint32 = n: int | 0 <= n < 0x1_0000_0000
  type uint64 = n: int | 0 <= n < 0x1_0000_0000_0000_0000

  function Pow256(k: nat): (p: nat)
    ensures p > 0
  {
    if k == 0 then 1 else 256 * Pow256(k - 1)
  }

  /** The `width`-byte big-endian encoding of `n`, most significant byte first. */
  function ToBE(n: nat, width: nat): (r: seq<byte>)
    requires n < Pow256(width)
    ensures |r| == width
    decreases width
  {
    if width == 0 then [] else ToBE(n / 256, width - 1) + [n % 256]
  }

  /** The number whose big-endian encoding is `s`. */
  function FromBE(s: seq<byte>): (r: nat)
    ensures r < Pow256(|s|)
  {
    if s == [] then 0 else FromBE(s[..|s| - 1]) * 256 + s[|s| - 1]
  }

  lemma {:induction false} FromBEToBE(n: nat, width: nat)
    requires n < Pow256(width)
    ensures FromBE(ToBE(n, width)) == n
    decreases width
  {
    if width > 0 {
      var r := ToBE(n, width);
      assert r[..width - 1] == ToBE(n / 256, width - 1);
      FromBEToBE(n / 256, width - 1);
    }
  }

  lemma {:induction false} ToBEFromBE(s: seq<byte>)
    ensures ToBE(FromBE(s), |s|) == s
  {
    if s != [] {
      var p := s[..|s| - 1];
      ToBEFromBE(p);
      assert s == p + [s[|s| - 1]];
    }
  }

  /** `binary.BigEndian.PutUint32`: the four bytes of `v`, most significant first. */
  function PutUint32(v: uint32): (r: seq<byte>)
    ensures |r| == 4
    ensures FromBE(r) == v
  {
    FromBEToBE(v, 4);
    ToBE(v, 4)
  }

  /** `binary.BigEndian.Uint32` on the first four bytes of `b`. */
  function Uint32(b: seq<byte>): (v: uint32)
    requires |b| >= 4
    ensures PutUint32(v) == b[..4]
  {
    ToBEFromBE(b[..4]);
    FromBE(b[..4])
  }

  /** `binary.BigEndian.Uint64` on the first eight bytes of `b`. */
  function Uint64(b: seq<byte>): (v: uint64)
    requires |b| >= 8
    ensures ToBE(v, 8) == b[..8]
  {
    ToBEFromBE(b[..8]);
    FromBE(b[..8])
  }

  lemma Uint32PutUint32(v: uint32)
    ensures Uint32(PutUint32(v)) == v
  {
    var b := PutUint32(v);
    assert b[..4] == b;
  }

  /** `Uint32` is the shift-and-or formula Go's library evaluates. */
  lemma Uint32Shifts(b: seq<byte>)
    requires |b| >= 4
    ensures Uint32(b) == b[0] as int * 0x100_0000 + b[1] as int * 0x1_0000 + b[2] as int * 0x100 + b[3] as int
  {
  }

  /** `PutUint32` stores `byte(v >> 24)`, `byte(v >> 16)`, `byte(v >> 8)`, `byte(v)`, as Go's library does. */
  lemma PutUint32Shifts(v: uint32)
    ensures PutUint32(v) == [v / 0x100_0000, v / 0x1_0000 % 256, v / 0x100 % 256, v % 256]
  {
  }
}
