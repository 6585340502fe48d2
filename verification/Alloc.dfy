/** Block and inode allocation: first set bit of a free bitmap, with the superblock counter. */
module Alloc {
  import opened Bytes
  import opened Bitmap
  import opened Volume

  /** get_free_block: the lowest free block, now used, or 0. */
  function GetFreeBlock(v: Volume): (Volume, nat) {
    var b := FirstSet(v.bfree, 0);
    if b == |v.bfree| then (v, 0)
    else (v.(bfree := v.bfree[b := false], freeBlocks := if b == 0 then v.freeBlocks else v.freeBlocks - 1), b)
  }

  /** put_block. */
  function PutBlock(v: Volume, b: nat): Volume
    requires b != |v.bfree|
  {
    if b > |v.bfree| then v else v.(bfree := v.bfree[b := true], freeBlocks := v.freeBlocks + 1)
  }

  function GetFreeInode(v: Volume): (Volume, nat) {
    var i := FirstSet(v.ifree, 0);
    if i == |v.ifree| then (v, 0)
    else (v.(ifree := v.ifree[i := false], freeInodes := if i == 0 then v.freeInodes else v.freeInodes - 1), i)
  }

  function PutInode(v: Volume, i: nat): Volume
    requires i != |v.ifree|
  {
    if i > |v.ifree| then v else v.(ifree := v.ifree[i := true], freeInodes := v.freeInodes + 1)
  }

  /** Giving a used block back sets its bit and counts it; a number above the size is refused and changes nothing. */
  lemma PutBlockOk(v: Volume, b: nat)
    requires b != |v.bfree|
    ensures b < |v.bfree| && !v.bfree[b] && v.freeBlocks == Count(v.bfree) ==>
              && PutBlock(v, b) == v.(bfree := v.bfree[b := true], freeBlocks := v.freeBlocks + 1)
              && PutBlock(v, b).freeBlocks == Count(PutBlock(v, b).bfree)
    ensures b > |v.bfree| ==> PutBlock(v, b) == v
  {
    if b < |v.bfree| {
      CountUpdate(v.bfree, b, true);
    }
  }

  /** The same for an inode number. */
  lemma PutInodeOk(v: Volume, i: nat)
    requires i != |v.ifree|
    ensures i < |v.ifree| && !v.ifree[i] ==>
              && PutInode(v, i) == v.(ifree := v.ifree[i := true], freeInodes := v.freeInodes + 1)
              && PutInode(v, i).freeInodes - Count(PutInode(v, i).ifree) == v.freeInodes - Count(v.ifree)
    ensures i > |v.ifree| ==> PutInode(v, i) == v
  {
    if i < |v.ifree| {
      CountUpdate(v.ifree, i, true);
    }
  }

  /**
   * Under the invariant an allocation fails exactly when the counter is 0, and otherwise takes a free, zeroed block.
   */
  lemma GetFreeBlockOk(v: Volume, chain: seq<nat>, own: seq<Owner>, held: Option<Run>)
    requires Core(v, chain, own, held)
    ensures |own| == |v.disk| == |v.bfree| <= MAX_BLOCKS
    ensures var (u, b) := GetFreeBlock(v);
            && (b == 0 <==> v.freeBlocks == 0)
            && (b == 0 ==> u == v)
            && (b != 0 ==>
                  && v.firstData <= b < |v.disk| && own[b] == Free && v.bfree[b] && v.disk[b] == ZeroBlock()
                  && u == v.(bfree := v.bfree[b := false], freeBlocks := v.freeBlocks - 1)
                  && Count(u.bfree) == Count(v.bfree) - 1
                  && forall c :: 0 <= c < b ==> !v.bfree[c])
  {
    hide SlicesOk, FilesOk;
    var b := FirstSet(v.bfree, 0);
    CountPositive(v.bfree);
    assert Claims(v, chain, 0, Meta);
    assert !Claims(v, chain, 0, Free);
    if b < |v.bfree| {
      CountUpdate(v.bfree, b, false);
      assert Claims(v, chain, b, Free);
      assert !Claims(v, chain, b, Meta);
      assert v.bfree[b];
    }
  }
}
