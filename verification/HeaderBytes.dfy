/** The four header bytes of a sliced block as one 32-bit word. */
module HeaderBytes {
  import opened Bytes

  function HeaderOf(r: seq<bv8>): bv32
    requires |r| == 4
  {
    (r[0] as bv32) | ((r[1] as bv32) << 8) | ((r[2] as bv32) << 16) | ((r[3] as bv32) << 24)
  }

  function HeaderBits(m: bv32): (r: seq<bv8>)
    ensures |r| == 4
  {
    [(m & 0xFF) as bv8, ((m >> 8) & 0xFF) as bv8, ((m >> 16) & 0xFF) as bv8, ((m >> 24) & 0xFF) as bv8]
  }

  function ToBits(r: seq<Byte>): (s: seq<bv8>)
    requires |r| == 4
    ensures |s| == 4
  {
    [r[0] as bv8, r[1] as bv8, r[2] as bv8, r[3] as bv8]
  }

  function FromBits(r: seq<bv8>): (s: seq<Byte>)
    requires |r| == 4
    ensures |s| == 4
  {
    [r[0] as Byte, r[1] as Byte, r[2] as Byte, r[3] as Byte]
  }

  lemma BitsRoundTrip(r: seq<bv8>)
    requires |r| == 4
    ensures ToBits(FromBits(r)) == r
  {
    ByteRoundTrip(r[0]);
    ByteRoundTrip(r[1]);
    ByteRoundTrip(r[2]);
    ByteRoundTrip(r[3]);
  }

  lemma ByteRoundTrip(m: bv8)
    ensures (m as Byte) as bv8 == m
  {
  }

  lemma NextByteValue(v: int)
    requires 0 <= v < 255
    ensures ((v + 1) as bv8) as int == v + 1
  {
  }

  lemma ByteValue(v: Byte)
    ensures (v as bv8) as Byte == v
  {
    if v > 0 {
      NextByteValue(v as int - 1);
    }
  }

  lemma HeaderBytesRoundTrip(r: seq<Byte>)
    requires |r| == 4
    ensures FromBits(ToBits(r)) == r
  {
    ByteValue(r[0]);
    ByteValue(r[1]);
    ByteValue(r[2]);
    ByteValue(r[3]);
  }

  lemma HeaderRoundTrip(m: bv32)
    ensures HeaderOf(HeaderBits(m)) == m
  {
  }

  /** Little-endian: bits 0 to 7 of the bitmap are the first byte of the block, bits 24 to 31 the fourth. */
  lemma HeaderOrder(r: seq<bv8>)
    requires |r| == 4
    ensures (HeaderOf(r) & 0xFF) as bv8 == r[0] && ((HeaderOf(r) >> 8) & 0xFF) as bv8 == r[1]
    ensures ((HeaderOf(r) >> 16) & 0xFF) as bv8 == r[2] && ((HeaderOf(r) >> 24) & 0xFF) as bv8 == r[3]
  {
  }

  lemma HeaderInjective(r: seq<bv8>, s: seq<bv8>)
    requires |r| == |s| == 4
    requires HeaderOf(r) == HeaderOf(s)
    ensures r == s
  {
  }
}
