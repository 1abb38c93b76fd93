// Fixed-width little-endian encoding of the key-value store's record
// descriptor: an unsigned 64-bit uid followed by a signed 64-bit offset and
// a signed 64-bit size, 24 bytes in all. Signed values are stored in two's
// complement.

module KvCodec {

  newtype byte = x: int | 0 <= x < 256

  /** Bytes taken by one encoded record descriptor (three 64-bit fields). */
  const RecordSize: nat := 24

  const U64Limit: nat := 0x1_0000_0000_0000_0000
  const I64Limit: nat := 0x8000_0000_0000_0000

  predicate IsU64(x: int) { 0 <= x < U64Limit }

  predicate IsI64(x: int) { -(I64Limit as int) <= x < I64Limit }

  /** The number of distinct values k bytes can hold. */
  function Pow256(k: nat): (p: nat)
    ensures p > 0
  {
    if k == 0 then 1 else 256 * Pow256(k - 1)
  }

  lemma EightBytesHoldU64()
    ensures Pow256(8) == U64Limit
  {
    assert Pow256(2) == 0x1_0000;
    assert Pow256(4) == 0x1_0000_0000;
    assert Pow256(6) == 0x1_0000_0000_0000;
  }

  /** The k low-order bytes of n, least significant first. */
  function EncodeLE(n: nat, k: nat): (bs: seq<byte>)
    ensures |bs| == k
  {
    if k == 0 then [] else [(n % 256) as byte] + EncodeLE(n / 256, k - 1)
  }

  /** The number whose little-endian bytes are bs. */
  function DecodeLE(bs: seq<byte>): nat
  {
    if |bs| == 0 then 0 else bs[0] as nat + 256 * DecodeLE(bs[1..])
  }

  lemma {:induction false} DecodeLEBound(bs: seq<byte>)
    ensures DecodeLE(bs) < Pow256(|bs|)
  {
    if |bs| > 0 {
      DecodeLEBound(bs[1..]);
      var d := DecodeLE(bs[1..]);
      var p := Pow256(|bs| - 1);
      assert d + 1 <= p;
      assert 256 * (d + 1) <= 256 * p;
    }
  }

  /** Decoding the k low-order bytes of a number below 256^k gives the number back. */
  lemma {:induction false} DecodeEncodeLE(n: nat, k: nat)
    requires n < Pow256(k)
    ensures DecodeLE(EncodeLE(n, k)) == n
  {
    if k > 0 {
      DecodeEncodeLE(n / 256, k - 1);
      var bs := EncodeLE(n, k);
      assert bs[1..] == EncodeLE(n / 256, k - 1);
    }
  }

  /** Every k-byte sequence is the encoding of the number it decodes to. */
  lemma {:induction false} EncodeDecodeLE(bs: seq<byte>)
    ensures EncodeLE(DecodeLE(bs), |bs|) == bs
  {
    if |bs| > 0 {
      EncodeDecodeLE(bs[1..]);
      var d := DecodeLE(bs[1..]);
      var n := bs[0] as nat + 256 * d;
      assert n % 256 == bs[0] as nat;
      assert n / 256 == d;
    }
  }

  /** The unsigned 64-bit pattern of a signed 64-bit value (two's complement). */
  function ToU64(x: int): (u: nat)
    requires IsI64(x)
    ensures IsU64(u)
    ensures u < I64Limit <==> x >= 0
  {
    if x < 0 then x + U64Limit else x
  }

  /** The signed 64-bit value of an unsigned 64-bit pattern. */
  function FromU64(u: nat): (x: int)
    requires IsU64(u)
    ensures IsI64(x)
    ensures x >= 0 <==> u < I64Limit
  {
    if u < I64Limit then u else u - U64Limit
  }

  lemma SignedRoundTrip(x: int)
    requires IsI64(x)
    ensures FromU64(ToU64(x)) == x
  {
  }

  lemma UnsignedRoundTrip(u: nat)
    requires IsU64(u)
    ensures ToU64(FromU64(u)) == u
  {
  }

  /** A record descriptor as written before a value in the store file. */
  datatype KVRecord = KVRecord(uid: int, offset: int, size: int)

  /** The record's fields fit the widths of the on-disk layout. */
  predicate Representable(r: KVRecord)
  {
    IsU64(r.uid) && IsI64(r.offset) && IsI64(r.size)
  }

  function EncodeKVRecord(r: KVRecord): (bs: seq<byte>)
    requires Representable(r)
    ensures |bs| == RecordSize
  {
    EncodeLE(r.uid, 8) + EncodeLE(ToU64(r.offset), 8) + EncodeLE(ToU64(r.size), 8)
  }

  /** Reads a descriptor from the first RecordSize bytes of bs; later bytes are not looked at. */
  function DecodeKVRecord(bs: seq<byte>): (r: KVRecord)
    requires |bs| >= RecordSize
    ensures Representable(r)
  {
    var a := bs[..8];
    var b := bs[8..16];
    var c := bs[16..24];
    DecodeLEBound(a);
    DecodeLEBound(b);
    DecodeLEBound(c);
    EightBytesHoldU64();
    KVRecord(DecodeLE(a), FromU64(DecodeLE(b)), FromU64(DecodeLE(c)))
  }

  /** The three 8-byte fields of a block that starts with x, y and z. */
  lemma Fields(x: seq<byte>, y: seq<byte>, z: seq<byte>, rest: seq<byte>)
    requires |x| == 8 && |y| == 8 && |z| == 8
    ensures var bs := x + y + z + rest; bs[..8] == x && bs[8..16] == y && bs[16..24] == z
  {
    var bs := x + y + z + rest;
    assert bs[..8] == x;
    assert bs[8..16] == y;
    assert bs[16..24] == z;
  }

  /** Decoding an encoded descriptor, whatever follows it, gives the descriptor back. */
  lemma DecodeEncodeKVRecord(r: KVRecord, rest: seq<byte>)
    requires Representable(r)
    ensures DecodeKVRecord(EncodeKVRecord(r) + rest) == r
  {
    var x, y, z := EncodeLE(r.uid, 8), EncodeLE(ToU64(r.offset), 8), EncodeLE(ToU64(r.size), 8);
    Fields(x, y, z, rest);
    EightBytesHoldU64();
    DecodeEncodeLE(r.uid, 8);
    DecodeEncodeLE(ToU64(r.offset), 8);
    DecodeEncodeLE(ToU64(r.size), 8);
    SignedRoundTrip(r.offset);
    SignedRoundTrip(r.size);
  }

  /** One signed 64-bit field: decoding and re-encoding gives the same 8 bytes. */
  lemma SignedFieldRoundTrip(b: seq<byte>)
    requires |b| == 8
    ensures DecodeLE(b) < U64Limit
    ensures EncodeLE(ToU64(FromU64(DecodeLE(b))), 8) == b
  {
    EightBytesHoldU64();
    DecodeLEBound(b);
    UnsignedRoundTrip(DecodeLE(b));
    EncodeDecodeLE(b);
  }

  /** Every 24-byte block is the encoding of the descriptor it decodes to. */
  lemma EncodeDecodeKVRecord(bs: seq<byte>)
    requires |bs| >= RecordSize
    ensures EncodeKVRecord(DecodeKVRecord(bs)) == bs[..RecordSize]
  {
    var r := DecodeKVRecord(bs);
    var a, b, c := bs[..8], bs[8..16], bs[16..24];
    EncodeDecodeLE(a);
    SignedFieldRoundTrip(b);
    SignedFieldRoundTrip(c);
    assert EncodeLE(r.uid, 8) == a;
    assert EncodeLE(ToU64(r.offset), 8) == b;
    assert EncodeLE(ToU64(r.size), 8) == c;
    assert bs[..RecordSize] == bs[..8] + bs[8..16] + bs[16..24];
  }
}
