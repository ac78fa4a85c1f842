/** The hash functions cache_key.go offers for the hashing generator. Each turns the
    buffer's bytes into the lower-case hex rendering of a digest; the digest algorithms
    (MurmurHash3, CityHash, FarmHash, CRC-32, FNV) are library code and are parameters here.
    What is modelled is how each one's digest is laid out and encoded. */
module Hashes {
  import opened GoTypes
  import Hex
  import opened Config
  import opened ByteBuffer
  import opened CacheKeys

  function Pow256(n: nat): (p: nat)
    ensures p > 0
  {
    if n == 0 then 1 else 256 * Pow256(n - 1)
  }

  /** The n low-order bytes of v, least significant first, as binary.LittleEndian lays
      them out (byte i is byte(v >> 8*i)). */
  function LittleEndian(v: nat, n: nat): (r: Bytes)
    ensures |r| == n
  {
    if n == 0 then [] else [v % 256] + LittleEndian(v / 256, n - 1)
  }

  function FromLittleEndian(bs: Bytes): nat {
    if bs == [] then 0 else bs[0] + 256 * FromLittleEndian(bs[1..])
  }

  /** The n low-order bytes of v, most significant first (binary.BigEndian). */
  function BigEndian(v: nat, n: nat): (r: Bytes)
    ensures |r| == n
  {
    if n == 0 then [] else BigEndian(v / 256, n - 1) + [v % 256]
  }

  function FromBigEndian(bs: Bytes): nat {
    if bs == [] then 0 else FromBigEndian(bs[..|bs| - 1]) * 256 + bs[|bs| - 1]
  }

  lemma {:induction false} LittleEndianRoundTrip(v: nat, n: nat)
    requires v < Pow256(n)
    ensures FromLittleEndian(LittleEndian(v, n)) == v
  {
    if n > 0 {
      var bs := LittleEndian(v, n);
      assert bs[1..] == LittleEndian(v / 256, n - 1);
      LittleEndianRoundTrip(v / 256, n - 1);
    }
  }

  lemma {:induction false} BigEndianRoundTrip(v: nat, n: nat)
    requires v < Pow256(n)
    ensures FromBigEndian(BigEndian(v, n)) == v
  {
    if n > 0 {
      var bs := BigEndian(v, n);
      assert bs[..|bs| - 1] == BigEndian(v / 256, n - 1);
      BigEndianRoundTrip(v / 256, n - 1);
    }
  }

  lemma Uint64Fits(v: Uint64)
    ensures v < Pow256(8)
  {
    assert Pow256(8) == 0x1_0000_0000_0000_0000;
  }

  lemma Uint32Fits(v: Uint32)
    ensures v < Pow256(4)
  {
    assert Pow256(4) == 0x1_0000_0000;
  }

  /** binary.LittleEndian.PutUint64(x[off:], v): writes v's eight bytes, least significant
      first, at x[off..off+8] and leaves the rest of x alone. */
  method PutUint64(x: array<Byte>, off: nat, v: Uint64)
    requires off + 8 <= x.Length
    modifies x
    ensures x[..] == old(x[..off]) + LittleEndian(v, 8) + old(x[off + 8..])
  {
    var w: nat := v;
    for i := 0 to 8
      invariant x[..off] == old(x[..off]) && x[off + 8..] == old(x[off + 8..])
      invariant x[off..off + i] + LittleEndian(w, 8 - i) == LittleEndian(v, 8)
    {
      assert LittleEndian(w, 8 - i) == [w % 256] + LittleEndian(w / 256, 8 - i - 1);
      x[off + i] := w % 256;
      assert x[off..off + i + 1] == x[off..off + i] + [w % 256];
      w := w / 256;
    }
    assert x[..] == x[..off] + x[off..off + 8] + x[off + 8..];
  }

  /** FarmHash's result for the pair farm.Hash128 returns: 16 bytes, `lo` little-endian in
      bytes 0-7 and `hi` in bytes 8-15, as 32 hex characters. */
  function FarmHashOf(hash128: Bytes -> (Uint64, Uint64), key: Bytes): (r: Bytes)
    ensures |r| == 32
    ensures Hex.DecodeString(r).Some?
    ensures var bs := Hex.DecodeString(r).value;
            |bs| == 16 && FromLittleEndian(bs[..8]) == hash128(key).0 && FromLittleEndian(bs[8..]) == hash128(key).1
  {
    var (lo, hi) := hash128(key);
    var bs := LittleEndian(lo, 8) + LittleEndian(hi, 8);
    Hex.DecodeEncode(bs);
    assert bs[..8] == LittleEndian(lo, 8) && bs[8..] == LittleEndian(hi, 8);
    Uint64Fits(lo);
    Uint64Fits(hi);
    LittleEndianRoundTrip(lo, 8);
    LittleEndianRoundTrip(hi, 8);
    Hex.EncodeToString(bs)
  }

  /** FarmHash(b): packs the two halves into a fresh 16-byte slice, then hex-encodes it. */
  method FarmHash(b: Buffer, hash128: Bytes -> (Uint64, Uint64)) returns (r: Bytes)
    ensures r == FarmHashOf(hash128, b.data)
    ensures |r| == 32
  {
    var (lo, hi) := hash128(b.Contents());
    var x := new Byte[16];
    PutUint64(x, 0, lo);
    assert x[..8] == LittleEndian(lo, 8);
    PutUint64(x, 8, hi);
    assert x[..] == LittleEndian(lo, 8) + LittleEndian(hi, 8);
    r := Hex.EncodeToString(x[..]);
  }

  /** MurMurHash3(b): the digest mmh3.Sum128 returns, in hex. */
  function MurMurHash3(sum128: Bytes -> Bytes, key: Bytes): (r: Bytes)
    ensures |r| == 2 * |sum128(key)|
    ensures Hex.DecodeString(r) == Some(sum128(key))
  {
    Hex.DecodeEncode(sum128(key));
    Hex.EncodeToString(sum128(key))
  }

  /** CityHash(b): cityhash.CityHash128 of the bytes and their length cut to 32 bits, in hex. */
  function CityHash(cityHash128: (Bytes, Uint32) -> Bytes, key: Bytes): (r: Bytes)
    ensures |r| == 2 * |cityHash128(key, |key| % 0x1_0000_0000)|
    ensures Hex.DecodeString(r) == Some(cityHash128(key, |key| % 0x1_0000_0000))
  {
    var digest := cityHash128(key, |key| % 0x1_0000_0000);
    Hex.DecodeEncode(digest);
    Hex.EncodeToString(digest)
  }

  /** FNVHash(b): the 128-bit FNV digest of the bytes (Sum(nil) appends it to nothing), in hex. */
  function FNVHash(fnv128: Bytes -> Bytes, key: Bytes): (r: Bytes)
    ensures |r| == 2 * |fnv128(key)|
    ensures Hex.DecodeString(r) == Some(fnv128(key))
  {
    Hex.DecodeEncode(fnv128(key));
    Hex.EncodeToString(fnv128(key))
  }

  /** CRC32Hash(b) as written: crc32.NewIEEE().Sum(b.Bytes()) appends the checksum of what
      was written to the new digest (nothing, so its initial checksum 0, big-endian) to the
      key bytes, and that is hex-encoded. The result is the key itself plus "00000000". */
  function CRC32HashAsWritten(key: Bytes): (r: Bytes)
    ensures |r| == 2 * |key| + 8
    ensures Hex.DecodeString(r) == Some(key + [0, 0, 0, 0])
  {
    var bs := key + BigEndian(0, 4);
    assert BigEndian(0, 4) == [0, 0, 0, 0];
    Hex.DecodeEncode(bs);
    Hex.EncodeToString(bs)
  }

  /** The as-written CRC32Hash keeps the whole key in its output, so it compacts nothing:
      "a" becomes "6100000000". */
  lemma CRC32AsWrittenKeepsKey(key: Bytes)
    ensures CRC32HashAsWritten(key) == Hex.EncodeToString(key) + [48, 48, 48, 48, 48, 48, 48, 48]
  {
    assert BigEndian(0, 4) == [0, 0, 0, 0];
    Hex.EncodeAppend(key, [0, 0, 0, 0]);
    ZeroesEncode();
  }

  lemma ZeroesEncode()
    ensures Hex.EncodeToString([0, 0, 0, 0]) == [48, 48, 48, 48, 48, 48, 48, 48]
  {
    var z: Bytes := [0, 0, 0, 0];
    assert z[1..] == [0, 0, 0];
    assert z[1..][1..] == [0, 0];
    assert z[1..][1..][1..] == [0];
  }

  /** The key "a" comes out as "6100000000". */
  lemma CRC32AsWrittenExample()
    ensures CRC32HashAsWritten([97]) == [54, 49, 48, 48, 48, 48, 48, 48, 48, 48]
  {
    CRC32AsWrittenKeepsKey([97]);
    var a: Bytes := [97];
    assert Hex.EncodeToString(a) == [54, 49] + Hex.EncodeToString([]);
  }

  /** CRC32Hash as evidently intended: the IEEE CRC-32 of the key, big-endian, in hex. */
  function CRC32Hash(checksumIEEE: Bytes -> Uint32, key: Bytes): (r: Bytes)
    ensures |r| == 8
    ensures Hex.DecodeString(r).Some?
    ensures var bs := Hex.DecodeString(r).value; |bs| == 4 && FromBigEndian(bs) == checksumIEEE(key)
  {
    var bs := BigEndian(checksumIEEE(key), 4);
    Hex.DecodeEncode(bs);
    Uint32Fits(checksumIEEE(key));
    BigEndianRoundTrip(checksumIEEE(key), 4);
    Hex.EncodeToString(bs)
  }

  /** With FarmHash plugged in, every hashed key of a matched limit is 32 characters long,
      whatever the lengths of prefix, domain and descriptor. */
  lemma FarmHashedKeysAreFixedWidth(prefix: Bytes, hash128: Bytes -> (Uint64, Uint64), domain: Bytes,
                                    descriptor: Descriptor, limit: RateLimit, now: Int64,
                                    unitToDivider: Unit -> Divider)
    ensures |HashedCacheKey(prefix, key => FarmHashOf(hash128, key), domain, descriptor, Some(limit), now,
                            unitToDivider).key| == 32
  {
  }

  /** With the corrected CRC32Hash plugged in, every hashed key of a matched limit is 8
      characters long. */
  lemma CRC32HashedKeysAreFixedWidth(prefix: Bytes, checksumIEEE: Bytes -> Uint32, domain: Bytes,
                                     descriptor: Descriptor, limit: RateLimit, now: Int64,
                                     unitToDivider: Unit -> Divider)
    ensures |HashedCacheKey(prefix, key => CRC32Hash(checksumIEEE, key), domain, descriptor, Some(limit), now,
                            unitToDivider).key| == 8
  {
  }
}
