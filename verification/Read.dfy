/** custom_read_iter. */
module Read {
  import opened Bytes
  import opened SliceMask
  import opened Volume
  import opened BigFile
  import opened BigWrite

  datatype ReadResult = Data(bytes: seq<Byte>) | ReadError(errno: Errno)

  /** What a read of `count` bytes at `pos` should deliver. */
  function Wanted(c: seq<Byte>, pos: nat, count: nat): (r: seq<Byte>) {
    if pos >= |c| then [] else c[pos..Min(pos + count, |c|)]
  }

  /** The number of bytes a read delivers. */
  function Limited(size: nat, pos: nat, count: nat): nat {
    if pos >= size then 0 else Min(count, size - pos)
  }

  /** The loop over index entries: holes read as zeros, the last chunk ends the request. */
  method ReadBig(disk: seq<Block>, x: Inode, pos: nat, count: nat) returns (out: seq<Byte>)
    requires IsBig(x) && BigOk(disk, x) && FileOk(disk, x)
    requires pos + count <= x.size
    ensures out == Content(disk, x)[pos..pos + count]
  {
    hide Word, Content;
    var p, left := pos, count;
    out := [];
    while left > 0
      invariant pos <= p <= p + left == pos + count
      invariant out == Content(disk, x)[pos..p]
      decreases left
    {
      var toRead := ChunkSize(p, left);
      var e := Word(disk[x.index], p / BLOCK_SIZE);
      var part: seq<Byte> := if e == 0 then Zeros(toRead) else disk[e][p % BLOCK_SIZE..p % BLOCK_SIZE + toRead];
      ChunkContent(disk, x, p, toRead);
      SliceJoin(Content(disk, x), pos, p, p + toRead);
      out := out + part;
      p := p + toRead;
      left := left - toRead;
    }
  }

  lemma SliceJoin<T>(s: seq<T>, a: nat, b: nat, c: nat)
    requires a <= b <= c <= |s|
    ensures s[a..b] + s[b..c] == s[a..c]
  {
  }

  /** One chunk of a read never crosses a block, so its bytes come from one index entry. */
  lemma ChunkContent(disk: seq<Block>, x: Inode, p: nat, n: nat)
    requires IsBig(x) && BigOk(disk, x) && FileOk(disk, x)
    requires 0 < n && p + n <= x.size && p % BLOCK_SIZE + n <= BLOCK_SIZE
    ensures p / BLOCK_SIZE < INDEX_ENTRIES
    ensures var e := Word(disk[x.index], p / BLOCK_SIZE);
            && e < |disk|
            && Content(disk, x)[p..p + n] == if e == 0 then Zeros(n) else disk[e][p % BLOCK_SIZE..p % BLOCK_SIZE + n]
  {
    hide Word;
    var e := Word(disk[x.index], p / BLOCK_SIZE);
    var part := if e == 0 then Zeros(n) else disk[e][p % BLOCK_SIZE..p % BLOCK_SIZE + n];
    forall k | 0 <= k < n
      ensures Content(disk, x)[p + k] == part[k]
    {
      assert (p + k) / BLOCK_SIZE == p / BLOCK_SIZE && (p + k) % BLOCK_SIZE == p % BLOCK_SIZE + k;
    }
  }

  /** custom_read_iter: a small file is read from its first byte, whatever the position. */
  method ReadIter(disk: seq<Block>, x: Inode, pos: nat, count: nat) returns (r: ReadResult)
    requires x.kind == File && FileOk(disk, x)
    requires x.blocks == 0 && x.index != 0 ==> SmallOk(disk, x)
    ensures r.Data?
    ensures |r.bytes| == if pos >= x.size then 0 else if pos + count <= x.size then count else x.size - pos
    ensures IsBig(x) ==> forall k :: 0 <= k < |r.bytes| ==> r.bytes[k] == Content(disk, x)[pos + k]
    ensures !IsBig(x) ==> forall k :: 0 <= k < |r.bytes| ==> r.bytes[k] == Content(disk, x)[k]
    ensures IsBig(x) ==> r.bytes == Wanted(Content(disk, x), pos, count)
    ensures !IsBig(x) ==> r.bytes == Content(disk, x)[..Limited(x.size, pos, count)]
  {
    hide Word;
    if pos >= x.size {
      return Data([]);
    }
    var n := if pos + count > x.size then x.size - pos else count;
    if n == 0 {
      return Data([]);
    }
    if x.blocks == 0 {
      var bno := x.index / 32;
      var slice := x.index % 32;
      if bno >= |disk| || slice == 0 {
        return ReadError(EIO);
      }
      SmallInBlock(disk, x);
      r := Data(disk[bno][slice * SLICE_SIZE..slice * SLICE_SIZE + n]);
    } else {
      if x.index == 0 {
        return Data([]);
      }
      var out := ReadBig(disk, x, pos, n);
      r := Data(out);
    }
  }

  lemma SmallInBlock(disk: seq<Block>, x: Inode)
    requires SmallOk(disk, x)
    ensures x.index % 32 * SLICE_SIZE + x.size <= BLOCK_SIZE
  {
  }

  /** What should be delivered, byte by byte: those from pos on, as many as asked for or as there are. */
  lemma WantedBytes(c: seq<Byte>, pos: nat, count: nat)
    ensures |Wanted(c, pos, count)| == if pos >= |c| then 0 else if pos + count <= |c| then count else |c| - pos
    ensures forall k :: 0 <= k < |Wanted(c, pos, count)| ==> pos + k < |c| && Wanted(c, pos, count)[k] == c[pos + k]
    ensures Limited(|c|, pos, count) == |Wanted(c, pos, count)|
  {
  }

  /** A small read always delivers as many bytes as it should, and the wrong ones wherever the first one wanted differs. */
  lemma SmallReadAt(c: seq<Byte>, pos: nat, count: nat)
    requires pos < |c| && count > 0
    ensures c[pos] != c[0] ==> c[..Limited(|c|, pos, count)] != Wanted(c, pos, count)
    ensures |c[..Limited(|c|, pos, count)]| == |Wanted(c, pos, count)|
  {
    var n := Limited(|c|, pos, count);
    assert c[..n][0] == c[0] && Wanted(c, pos, count)[0] == c[pos];
  }

  /** A read of a small file is right for every content exactly at offset 0, and when there is nothing to deliver. */
  lemma SmallRead(size: nat, pos: nat, count: nat)
    ensures (forall c: seq<Byte> :: |c| == size ==> c[..Limited(size, pos, count)] == Wanted(c, pos, count)) <==>
            pos == 0 || pos >= size || count == 0
  {
    if 0 < pos < size && count > 0 {
      var c: seq<Byte> := Zeros(size)[0 := 1];
      SmallReadAt(c, pos, count);
      assert c[..Limited(size, pos, count)] != Wanted(c, pos, count);
    }
  }

  /** Reading back a range just written delivers the data. */
  lemma ReadOverlay(c: seq<Byte>, pos: nat, data: seq<Byte>)
    ensures Wanted(Overlay(c, pos, data), pos, |data|) == data
  {
    forall k | 0 <= k < |data|
      ensures Overlay(c, pos, data)[pos + k] == data[k]
    {
      assert Overlay(c, pos, data)[pos + k] == Overwritten(if pos + k < |c| then c[pos + k] else 0, pos, data, pos + k);
    }
  }
}
