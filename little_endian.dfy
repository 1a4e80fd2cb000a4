/** Fixed-width little-endian integers, as encoding/binary.LittleEndian
    writes (PutUint64) and reads (Uint64) them. */
module LittleEndian {

  newtype byte = x: int | 0 <= x < 256

  /** 256^n: the number of distinct values an n-byte field holds. */
  function Pow256(n: nat): (r: nat)
    ensures r > 0
  {
    if n == 0 then 1 else 256 * Pow256(n - 1)
  }

  const Uint64Bound: nat := 0x1_0000_0000_0000_0000

  /** Go's uint64, and its uint on a 64-bit platform. */
  type u64 = x: nat | x < Uint64Bound

  /** The `width` low-order bytes of x, least significant first. */
  function Encode(x: nat, width: nat): (r: seq<byte>)
    ensures |r| == width
  {
    if width == 0 then [] else [(x % 256) as byte] + Encode(x / 256, width - 1)
  }

  /** The value of a little-endian byte string. */
  function Decode(s: seq<byte>): (r: nat)
    ensures r < Pow256(|s|)
  {
    if s == [] then 0
    else
      var rest := Decode(s[1..]);
      assert rest <= Pow256(|s| - 1) - 1;
      assert 256 * rest <= 256 * Pow256(|s| - 1) - 256;
      s[0] as nat + 256 * rest
  }

  lemma {:induction false} DecodeEncode(x: nat, width: nat)
    requires x < Pow256(width)
    ensures Decode(Encode(x, width)) == x
  {
    if width > 0 {
      var e := Encode(x, width);
      assert e[1..] == Encode(x / 256, width - 1);
      DecodeEncode(x / 256, width - 1);
    }
  }

  lemma {:induction false} EncodeDecode(s: seq<byte>)
    ensures Encode(Decode(s), |s|) == s
  {
    if s != [] {
      var x := Decode(s);
      assert x % 256 == s[0] as nat && x / 256 == Decode(s[1..]);
      EncodeDecode(s[1..]);
    }
  }

  /** binary.LittleEndian.PutUint64: the 8-byte image of a 64-bit value. */
  function PutUint64(x: u64): (r: seq<byte>)
    ensures |r| == 8
    ensures Decode(r) == x
  {
    assert Pow256(8) == Uint64Bound;
    DecodeEncode(x, 8);
    Encode(x, 8)
  }

  /** binary.LittleEndian.Uint64: the value of the first 8 bytes of b. */
  function Uint64(b: seq<byte>): (r: u64)
    requires |b| >= 8
    ensures Encode(r, 8) == b[..8]
  {
    assert Pow256(8) == Uint64Bound;
    EncodeDecode(b[..8]);
    Decode(b[..8])
  }

  lemma Uint64OfPutUint64(x: u64)
    ensures Uint64(PutUint64(x)) == x
  {
    assert PutUint64(x)[..8] == PutUint64(x);
  }
}
