/**
 The 8-byte packing of a signed 64-bit integer used for the position key of
 every record: PHP's `pack("q", n)` and `unpack("q", s)`. PHP uses the
 machine byte order for "q"; this model fixes it as little-endian two's
 complement.
 */
module LittleEndian {

  /** One byte of a PHP binary string. */
  type Byte = b: int | 0 <= b < 256

  const TWO_63: int := 0x8000_0000_0000_0000
  const TWO_64: int := 0x1_0000_0000_0000_0000

  /** Bytes in a packed key. */
  const WIDTH: nat := 8

  /** A PHP integer: signed 64-bit. */
  type Int64 = n: int | -TWO_63 <= n < TWO_63

  /** 256 to the power k. */
  function Pow256(k: nat): (r: nat)
    ensures r > 0
  {
    if k == 0 then 1 else 256 * Pow256(k - 1)
  }

  /** The k low-order bytes of u, least significant first. */
  function ToBytes(u: nat, k: nat): (r: seq<Byte>)
    ensures |r| == k
  {
    if k == 0 then [] else [u % 256] + ToBytes(u / 256, k - 1)
  }

  /** The unsigned value of a little-endian byte string. */
  function FromBytes(s: seq<Byte>): (r: nat)
    ensures r < Pow256(|s|)
  {
    if |s| == 0 then 0 else s[0] + 256 * FromBytes(s[1..])
  }

  /** Reading back the k bytes of a value that fits in k bytes gives the value. */
  lemma {:induction false} FromToBytes(u: nat, k: nat)
    requires u < Pow256(k)
    ensures FromBytes(ToBytes(u, k)) == u
  {
    if k > 0 {
      var rest := ToBytes(u / 256, k - 1);
      assert ToBytes(u, k)[1..] == rest;
      FromToBytes(u / 256, k - 1);
    }
  }

  /** Writing the value of a byte string back into as many bytes gives the string. */
  lemma {:induction false} ToFromBytes(s: seq<Byte>)
    ensures ToBytes(FromBytes(s), |s|) == s
  {
    if |s| > 0 {
      var u := FromBytes(s);
      assert u % 256 == s[0] && u / 256 == FromBytes(s[1..]);
      ToFromBytes(s[1..]);
    }
  }

  lemma Pow256Eight()
    ensures Pow256(8) == TWO_64
  {
  }

  /** `pack("q", n)`: eight bytes of n in two's complement, least significant first. */
  function Pack(n: Int64): (r: seq<Byte>)
    ensures |r| == 8
  {
    ToBytes(if n < 0 then n + TWO_64 else n, WIDTH)
  }

  /** The k-th packed key of a string of concatenated keys. */
  function Slot(keys: seq<Byte>, k: nat): (r: seq<Byte>)
    requires 8 * k + 8 <= |keys|
    ensures |r| == 8
  {
    keys[8 * k..8 * k + 8]
  }

  /** `unpack("q", s)[1]` for an eight-byte s. */
  function Unpack(s: seq<Byte>): (r: Int64)
    requires |s| == 8
  {
    Pow256Eight();
    var u := FromBytes(s);
    if u >= TWO_63 then u - TWO_64 else u
  }

  /** Unpacking a packed integer gives the integer back. */
  lemma UnpackPack(n: Int64)
    ensures Unpack(Pack(n)) == n
  {
    Pow256Eight();
    FromToBytes(if n < 0 then n + TWO_64 else n, WIDTH);
  }

  /** Packing an unpacked eight-byte string gives the string back. */
  lemma PackUnpack(s: seq<Byte>)
    requires |s| == 8
    ensures Pack(Unpack(s)) == s
  {
    Pow256Eight();
    ToFromBytes(s);
  }

  /** Distinct integers pack to distinct byte strings. */
  lemma PackInjective(m: Int64, n: Int64)
    ensures Pack(m) == Pack(n) <==> m == n
  {
    if Pack(m) == Pack(n) {
      UnpackPack(m);
      UnpackPack(n);
    }
  }
}
