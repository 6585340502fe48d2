/** Disk blocks as byte strings, and the little-endian words stored in them. */
module Bytes {

  /** One stored byte. */
  newtype Byte = x: int | 0 <= x < 256

  const BLOCK_SIZE: nat := 4096
  const WORDS_PER_BLOCK: nat := 1024
  const WORD_LIMIT: nat := 0x1_0000_0000

  type Block = b: seq<Byte> | |b| == BLOCK_SIZE witness seq(BLOCK_SIZE, _ => 0)

  function Zeros(n: nat): (z: seq<Byte>)
    ensures |z| == n
    ensures forall k :: 0 <= k < n ==> z[k] == 0
  {
    seq(n, _ => 0)
  }

  /** The block memset(block, 0, 4096) leaves behind. */
  function ZeroBlock(): (z: Block)
    ensures forall k :: 0 <= k < BLOCK_SIZE ==> z[k] == 0
  {
    Zeros(BLOCK_SIZE)
  }

  /** `b` with the bytes from `at` on replaced by `data`: memcpy into a buffer. */
  function Splice(b: Block, at: nat, data: seq<Byte>): (r: Block)
    requires at + |data| <= BLOCK_SIZE
    ensures forall k :: 0 <= k < BLOCK_SIZE ==>
              r[k] == if at <= k < at + |data| then data[k - at] else b[k]
  {
    b[..at] + data + b[at + |data|..]
  }

  /** The four bytes of a 32-bit word, least significant first. */
  function WordBytes(w: nat): (r: seq<Byte>)
    requires w < WORD_LIMIT
    ensures |r| == 4
  {
    [(w % 256) as Byte, (w / 256 % 256) as Byte, (w / 256 / 256 % 256) as Byte, (w / 256 / 256 / 256) as Byte]
  }

  function BytesWord(r: seq<Byte>): (w: nat)
    requires |r| == 4
    ensures w < WORD_LIMIT
  {
    r[0] as nat + 256 * (r[1] as nat + 256 * (r[2] as nat + 256 * (r[3] as nat)))
  }

  lemma WordRoundTrip(w: nat)
    requires w < WORD_LIMIT
    ensures BytesWord(WordBytes(w)) == w
  {
    assert w == w % 256 + 256 * (w / 256);
    assert w / 256 == w / 256 % 256 + 256 * (w / 256 / 256);
    assert w / 256 / 256 == w / 256 / 256 % 256 + 256 * (w / 256 / 256 / 256);
  }

  lemma LowByte(x: nat, y: nat)
    requires x < 256
    ensures (x + 256 * y) % 256 == x && (x + 256 * y) / 256 == y
  {
  }

  lemma BytesRoundTrip(r: seq<Byte>)
    requires |r| == 4
    ensures WordBytes(BytesWord(r)) == r
  {
    LowByte(r[2] as nat, r[3] as nat);
    LowByte(r[1] as nat, r[2] as nat + 256 * (r[3] as nat));
    LowByte(r[0] as nat, r[1] as nat + 256 * (r[2] as nat + 256 * (r[3] as nat)));
  }

  /** Different byte strings are different words. */
  lemma WordInjective(r: seq<Byte>, s: seq<Byte>)
    requires |r| == |s| == 4
    requires BytesWord(r) == BytesWord(s)
    ensures r == s
  {
    hide WordBytes, BytesWord;
    BytesRoundTrip(r);
    BytesRoundTrip(s);
  }

  /** The k-th little-endian 32-bit word of a block. */
  function Word(b: Block, k: nat): (w: nat)
    requires k < WORDS_PER_BLOCK
    ensures w < WORD_LIMIT
  {
    BytesWord(b[4 * k..4 * k + 4])
  }

  function PutWord(b: Block, k: nat, w: nat): (r: Block)
    requires k < WORDS_PER_BLOCK && w < WORD_LIMIT
    ensures Word(r, k) == w
    ensures forall j :: 0 <= j < WORDS_PER_BLOCK && j != k ==> Word(r, j) == Word(b, j)
    ensures forall o :: 0 <= o < BLOCK_SIZE && !(4 * k <= o < 4 * k + 4) ==> r[o] == b[o]
  {
    var r := Splice(b, 4 * k, WordBytes(w));
    assert Word(r, k) == w by {
      assert r[4 * k..4 * k + 4] == WordBytes(w);
      WordRoundTrip(w);
    }
    assert forall j :: 0 <= j < WORDS_PER_BLOCK && j != k ==> r[4 * j..4 * j + 4] == b[4 * j..4 * j + 4];
    r
  }

  lemma WordOfZeros(k: nat)
    requires k < WORDS_PER_BLOCK
    ensures Word(ZeroBlock(), k) == 0
  {
  }

  /** Two blocks agree on a word when they agree on its four bytes. */
  lemma WordFrame(a: Block, b: Block, k: nat)
    requires k < WORDS_PER_BLOCK
    requires forall o :: 4 * k <= o < 4 * k + 4 ==> a[o] == b[o]
    ensures Word(a, k) == Word(b, k)
  {
    assert a[4 * k..4 * k + 4] == b[4 * k..4 * k + 4];
  }
}
