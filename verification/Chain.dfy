/** The sliced chain as an on-disk linked list: appending a block, and the sweep that drops empty blocks. */
module Chain {
  import opened Bytes
  import opened SliceMask
  import opened Bitmap
  import opened Volume
  import opened Frames
  import opened Alloc
  import opened Slices

  // ----- dropping an empty block from the list

  function Without<T>(s: seq<T>, p: nat): (r: seq<T>)
    requires p < |s|
    ensures |r| == |s| - 1
    ensures forall k :: 0 <= k < |r| ==> r[k] == s[if k < p then k else k + 1]
  {
    s[..p] + s[p + 1..]
  }

  /** The repointing and the scrub in delete_slice's sweep, for the block at position p of the chain. */
  function DropDisk(disk: seq<Block>, chain: seq<nat>, p: nat): seq<Block>
    requires p < |chain| && forall k :: 0 <= k < |chain| ==> chain[k] < |disk|
  {
    var next := Next(disk[chain[p]]);
    var d := if p > 0 then disk[chain[p - 1] := PutWord(disk[chain[p - 1]], 1, next)] else disk;
    d[chain[p] := ZeroBlock()]
  }

  /** Setting the link word leaves bitmap and slices alone. */
  lemma LinkKeeps(blk: Block, next: nat)
    requires next < WORD_LIMIT
    ensures Header(PutWord(blk, 1, next)) == Header(blk)
    ensures forall o :: 8 <= o < BLOCK_SIZE ==> PutWord(blk, 1, next)[o] == blk[o]
    ensures Next(PutWord(blk, 1, next)) == next
  {
    hide Header, Word, PutWord;
    HeaderFrame(PutWord(blk, 1, next), blk);
  }

  lemma LinkedBlock(blk: Block, next: nat, b: nat, t: seq<Option<Run>>)
    requires next < WORD_LIMIT && SlicedBlockOk(blk, b, t)
    ensures SlicedBlockOk(PutWord(blk, 1, next), b, t)
  {
    hide Header, Word, PutWord, IsFree, Covered;
    LinkKeeps(blk, next);
  }

  lemma DropDiskAt(disk: seq<Block>, chain: seq<nat>, p: nat, k: nat)
    requires ChainOk(disk, chain) && p < |chain| && k < |chain| && k != p
    ensures |DropDisk(disk, chain, p)| == |disk|
    ensures DropDisk(disk, chain, p)[chain[k]] ==
            if k + 1 == p then PutWord(disk[chain[k]], 1, Next(disk[chain[p]])) else disk[chain[k]]
  {
    hide Word, PutWord;
    assert chain[k] != chain[p];
    if p > 0 && k != p - 1 {
      assert chain[k] != chain[p - 1];
    }
  }

  lemma DropChain(disk: seq<Block>, chain: seq<nat>, p: nat)
    requires ChainOk(disk, chain) && p < |chain|
    ensures ChainOk(DropDisk(disk, chain, p), Without(chain, p))
  {
    hide Word, PutWord, Without, DropDisk;
    var disk' := DropDisk(disk, chain, p);
    var chain' := Without(chain, p);
    if |chain| > 1 {
      DropDiskAt(disk, chain, p, if p == 0 then 1 else 0);
    }
    forall k | 0 <= k < |chain'|
      ensures Next(disk'[chain'[k]]) == ChainNext(chain', k)
    {
      var q := if k < p then k else k + 1;
      DropDiskAt(disk, chain, p, q);
      assert Next(disk[chain[q]]) == ChainNext(chain, q);
      if q + 1 == p {
        LinkKeeps(disk[chain[q]], Next(disk[chain[p]]));
        assert Next(disk[chain[p]]) == ChainNext(chain, p);
      }
    }
  }

  lemma EmptyNotCovered(disk: seq<Block>, chain: seq<nat>, t: seq<Option<Run>>, p: nat)
    requires SlicesOk(disk, chain, t) && p < |chain| && Header(disk[chain[p]]) == ALL_FREE
    ensures forall i :: 0 <= i < |t| && t[i].Some? ==> t[i].value.block != chain[p]
  {
    hide Header, IsFree, Word;
    forall i | 0 <= i < |t| && t[i].Some?
      ensures t[i].value.block != chain[p]
    {
      var r := t[i].value;
      assert RunOk(r, chain);
      if r.block == chain[p] {
        FreeNotCovered(disk, chain, t, chain[p], i, r.first);
        AllFreeBit(r.first);
      }
    }
  }

  lemma DropBlocks(disk: seq<Block>, chain: seq<nat>, t: seq<Option<Run>>, p: nat, k: nat)
    requires SlicesOk(disk, chain, t) && p < |chain| && k < |chain| - 1
    ensures var disk' := DropDisk(disk, chain, p);
            var b := Without(chain, p)[k];
            b < |disk'| && SlicedBlockOk(disk'[b], b, t)
  {
    hide Header, IsFree, Word, PutWord, SlicedBlockOk, Covers, DropDisk, Without, RunOk;
    var q := if k < p then k else k + 1;
    DropDiskAt(disk, chain, p, q);
    assert SlicedBlockOk(disk[chain[q]], chain[q], t);
    if q + 1 == p {
      LinkedBlock(disk[chain[q]], Next(disk[chain[p]]), chain[q], t);
    }
  }

  lemma RunStays(chain: seq<nat>, p: nat, r: Run)
    requires p < |chain| && RunOk(r, chain) && r.block != chain[p]
    ensures RunOk(r, Without(chain, p))
  {
    var q :| 0 <= q < |chain| && chain[q] == r.block;
    assert Without(chain, p)[if q < p then q else q - 1] == r.block;
  }

  lemma DropSlices(disk: seq<Block>, chain: seq<nat>, t: seq<Option<Run>>, p: nat)
    requires SlicesOk(disk, chain, t) && p < |chain| && Header(disk[chain[p]]) == ALL_FREE
    ensures SlicesOk(DropDisk(disk, chain, p), Without(chain, p), t)
  {
    hide Header, IsFree, Word, PutWord, SlicedBlockOk, Covers, DropDisk, Without, RunOk;
    DropChain(disk, chain, p);
    forall k | 0 <= k < |chain| - 1
      ensures var b := Without(chain, p)[k];
              b < |DropDisk(disk, chain, p)| && SlicedBlockOk(DropDisk(disk, chain, p)[b], b, t)
    {
      DropBlocks(disk, chain, t, p, k);
    }
    EmptyNotCovered(disk, chain, t, p);
    forall i | 0 <= i < |t| && t[i].Some?
      ensures RunOk(t[i].value, Without(chain, p))
    {
      RunStays(chain, p, t[i].value);
    }
  }

  // ----- the same on the volume

  predicate InRange(v: Volume, chain: seq<nat>) {
    |v.disk| == |v.bfree| && forall k :: 0 <= k < |chain| ==> chain[k] < |v.disk|
  }

  /** One turn of the sweep on an all-free block: unlink it, scrub it, free it. */
  function Drop(v: Volume, chain: seq<nat>, p: nat): Volume
    requires p < |chain| && InRange(v, chain)
  {
    PutBlock(
      v.(disk := DropDisk(v.disk, chain, p),
         head := if p > 0 then v.head else Next(v.disk[chain[p]]),
         nrSliced := v.nrSliced - 1),
      chain[p])
  }

  /** Owners after the block at position p left the chain. */
  function DropOwner(o: Owner, p: nat): Owner {
    match o
    case Sliced(k) => if k == p then Free else if k > p then Sliced(k - 1) else o
    case _ => o
  }

  function DropOwners(own: seq<Owner>, p: nat): (own': seq<Owner>)
    ensures |own'| == |own| && forall b :: 0 <= b < |own| ==> own'[b] == DropOwner(own[b], p)
  {
    seq(|own|, b requires 0 <= b < |own| => DropOwner(own[b], p))
  }

  /** Chain blocks hold no index block, so relinking changes no claim of a file. */
  lemma DropPartition(v: Volume, chain: seq<nat>, own: seq<Owner>, held: Option<Run>, p: nat)
    requires p < |chain| && InRange(v, chain)
    requires Core(v, chain, own, held)
    ensures Partition(Drop(v, chain, p), Without(chain, p), DropOwners(own, p))
  {
    hide Word, PutWord, SlicesOk, FilesOk, FreeClean;
    var w := Drop(v, chain, p);
    var chain' := Without(chain, p);
    var own' := DropOwners(own, p);
    assert Claims(v, chain, chain[p], Sliced(p));
    if p > 0 {
      assert Claims(v, chain, chain[p - 1], Sliced(p - 1));
    }
    forall b, o | 0 <= b < |own|
      ensures Claims(w, chain', b, o) <==> own'[b] == o
    {
      assert Claims(v, chain, b, o) <==> own[b] == o;
      assert Claims(v, chain, b, Free) <==> own[b] == Free;
      assert Claims(v, chain, b, Sliced(p)) <==> own[b] == Sliced(p);
      match o {
        case DataOf(i, j) =>
          if i < |v.inodes| && IsBig(v.inodes[i]) && v.inodes[i].index < |v.disk| {
            assert Claims(v, chain, v.inodes[i].index, IndexOf(i));
          }
        case Sliced(k) =>
          if k < |chain'| {
            var q := if k < p then k else k + 1;
            assert chain'[k] == chain[q];
            assert Claims(v, chain, b, Sliced(q)) <==> own[b] == Sliced(q);
          }
          if own'[b] == o {
            assert Claims(v, chain, b, own[b]);
          }
        case _ =>
      }
    }
  }

  /** A change of one sliced block's link, or of free or dropped blocks, is out of every file's reach. */
  lemma LinkReach(blk: Block, disk: seq<Block>, disk': seq<Block>, x: Inode, b: nat)
    requires b < |disk| && disk' == disk[b := blk]
    requires x.kind == Directory ==> x.index != b
    requires IsBig(x) ==> x.index != b
    requires IsBig(x) && x.index < |disk| ==> forall t :: 0 <= t < INDEX_ENTRIES ==> Word(disk[x.index], t) != b
    requires IsSmall(x) && x.index / 32 == b ==>
               forall o :: x.index % 32 * SLICE_SIZE <= o < (x.index % 32 + x.slices) * SLICE_SIZE && o < BLOCK_SIZE ==>
                 blk[o] == disk[b][o]
    ensures SameReach(disk, disk', x)
  {
    hide Word;
  }

  /** The blocks inode j reaches outside the chain. */
  lemma ChainReach(v: Volume, chain: seq<nat>, own: seq<Owner>, held: Option<Run>, p: nat, j: nat)
    requires Core(v, chain, own, held) && p < |chain| && j < |v.inodes|
    ensures chain[p] < |v.disk| == |v.bfree| && own[chain[p]] == Sliced(p) && v.firstData <= chain[p]
    ensures !v.bfree[chain[p]]
    ensures v.inodes[j].kind == Directory ==> v.inodes[j].index != chain[p]
    ensures IsBig(v.inodes[j]) ==> v.inodes[j].index != chain[p]
    ensures IsBig(v.inodes[j]) && v.inodes[j].index < |v.disk| ==>
              forall t :: 0 <= t < INDEX_ENTRIES ==> Word(v.disk[v.inodes[j].index], t) != chain[p]
    ensures IsSmall(v.inodes[j]) ==> v.inodes[j].index % 32 >= 1
  {
    hide Word, SlicesOk;
    var b := chain[p];
    assert SlicesOk(v.disk, chain, Tenants(v.inodes, held));
    ChainBound(v.disk, chain, Tenants(v.inodes, held), p);
    assert Claims(v, chain, b, Sliced(p));
    assert !Claims(v, chain, b, Meta) && !Claims(v, chain, b, Free);
    assert !Claims(v, chain, b, DirOf(j)) && !Claims(v, chain, b, IndexOf(j));
    assert FileOk(v.disk, v.inodes[j]);
    if IsBig(v.inodes[j]) {
      forall t | 0 <= t < INDEX_ENTRIES
        ensures Word(v.disk[v.inodes[j].index], t) != b
      {
        assert !Claims(v, chain, b, DataOf(j, t));
      }
    }
  }

  lemma ChainBound(disk: seq<Block>, chain: seq<nat>, t: seq<Option<Run>>, p: nat)
    requires SlicesOk(disk, chain, t) && p < |chain|
    ensures 0 < chain[p] < |disk|
  {
    hide Header, IsFree, Word;
  }

  lemma DropReach(v: Volume, chain: seq<nat>, own: seq<Owner>, held: Option<Run>, p: nat, j: nat)
    requires Core(v, chain, own, held) && p < |chain| && j < |v.inodes|
    requires InRange(v, chain)
    requires Header(v.disk[chain[p]]) == ALL_FREE
    ensures SameReach(v.disk, Drop(v, chain, p).disk, v.inodes[j])
  {
    hide Word, Header, PutWord, Partition, SlicesOk, FilesOk, FreeClean, CountersOk, InodesMatch;
    var next := Next(v.disk[chain[p]]);
    var x := v.inodes[j];
    ChainReach(v, chain, own, held, p, j);
    EmptyNotCovered(v.disk, chain, Tenants(v.inodes, held), p);
    assert Tenants(v.inodes, held)[j] == Tenant(x);
    var d := v.disk;
    if p > 0 {
      ChainReach(v, chain, own, held, p - 1, j);
      LinkKeeps(v.disk[chain[p - 1]], next);
      d := d[chain[p - 1] := PutWord(d[chain[p - 1]], 1, next)];
      LinkReach(PutWord(v.disk[chain[p - 1]], 1, next), v.disk, d, x, chain[p - 1]);
    } else {
      LinkReach(v.disk[chain[p]], v.disk, d, x, chain[p]);
    }
    ScrubReach(v.disk, d, x, chain[p]);
  }

  lemma ScrubReach(disk: seq<Block>, d: seq<Block>, x: Inode, b: nat)
    requires SameReach(disk, d, x) && b < |d|
    requires x.kind == Directory ==> x.index != b
    requires IsBig(x) ==> x.index != b
    requires IsBig(x) && x.index < |disk| ==> forall t :: 0 <= t < INDEX_ENTRIES ==> Word(disk[x.index], t) != b
    requires IsSmall(x) ==> x.index / 32 != b
    ensures SameReach(disk, d[b := ZeroBlock()], x)
  {
    hide Word;
  }

  /** A step that touches no inode and nothing any inode reaches. */
  lemma QuietFiles(v: Volume, w: Volume)
    requires FilesOk(v) && w.inodes == v.inodes
    requires forall j :: 0 <= j < |v.inodes| ==> SameReach(v.disk, w.disk, v.inodes[j])
    ensures FilesOk(w)
  {
    hide SameReach, FileOk;
    forall j | 0 <= j < |v.inodes|
      ensures FileOk(w.disk, w.inodes[j])
    {
      FileFrame(v.disk, w.disk, v.inodes[j]);
    }
  }

  lemma {:induction false} KeptWithout(chain: seq<nat>, p: nat, inodes: seq<Inode>, i: nat)
    requires p < |chain| && !UsedByOther(chain[p], inodes, i)
    ensures Kept(Without(chain, p), inodes, i) == Kept(chain, inodes, i)
  {
    var n := |chain| - 1;
    if p == n {
      assert Without(chain, p) == chain[..n];
    } else {
      assert Without(chain, p)[..n - 1] == Without(chain[..n], p);
      KeptWithout(chain[..n], p, inodes, i);
    }
  }

  /** Dropping an empty block keeps the invariant and touches no file. */
  lemma DropCore(v: Volume, chain: seq<nat>, own: seq<Owner>, held: Option<Run>, p: nat, i: nat)
    requires Core(v, chain, own, held) && p < |chain|
    requires InRange(v, chain)
    requires Header(v.disk[chain[p]]) == ALL_FREE
    ensures var w := Drop(v, chain, p);
            && Core(w, Without(chain, p), DropOwners(own, p), held)
            && SameElsewhere(v, chain, w, Without(chain, p), i)
  {
    hide Word, Header, PutWord, Partition, SlicesOk, FilesOk, SameReach, Kept, DropDisk, Without, UsedByOther;
    var w := Drop(v, chain, p);
    forall j | 0 <= j < |v.inodes|
      ensures SameReach(v.disk, w.disk, v.inodes[j])
    {
      DropReach(v, chain, own, held, p, j);
    }
    QuietFiles(v, w);
    DropPartition(v, chain, own, held, p);
    DropSlices(v.disk, chain, Tenants(v.inodes, held), p);
    DropCounters(v, chain, own, held, p);
    DropUnused(v, chain, held, p, i);
    KeptWithout(chain, p, v.inodes, i);
  }

  lemma DropUnused(v: Volume, chain: seq<nat>, held: Option<Run>, p: nat, i: nat)
    requires SlicesOk(v.disk, chain, Tenants(v.inodes, held)) && p < |chain| && chain[p] < |v.disk|
    requires Header(v.disk[chain[p]]) == ALL_FREE
    ensures !UsedByOther(chain[p], v.inodes, i)
  {
    hide Word, Header, SlicesOk;
    EmptyNotCovered(v.disk, chain, Tenants(v.inodes, held), p);
    forall j | 0 <= j < |v.inodes| && IsSmall(v.inodes[j])
      ensures v.inodes[j].index / 32 != chain[p]
    {
      assert Tenants(v.inodes, held)[j] == Tenant(v.inodes[j]);
    }
  }

  lemma ChainBlock(v: Volume, chain: seq<nat>, own: seq<Owner>, held: Option<Run>, p: nat)
    requires Core(v, chain, own, held) && p < |chain|
    ensures 0 < v.firstData <= chain[p] < |v.disk| == |v.bfree| && !v.bfree[chain[p]]
    ensures own[chain[p]] == Sliced(p) && Next(v.disk[chain[p]]) == ChainNext(chain, p)
  {
    hide Word, Header, FilesOk, FreeClean, SlicedBlockOk, Covers, RunOk;
    assert Claims(v, chain, chain[p], Sliced(p));
    assert !Claims(v, chain, chain[p], Meta) && !Claims(v, chain, chain[p], Free);
  }

  lemma DropCounters(v: Volume, chain: seq<nat>, own: seq<Owner>, held: Option<Run>, p: nat)
    requires Core(v, chain, own, held) && p < |chain|
    requires InRange(v, chain)
    ensures var w := Drop(v, chain, p);
            && CountersOk(w, Without(chain, p)) && FreeClean(w) && Shape(w) && InodesMatch(w)
            && w.firstData == v.firstData
            && forall b :: 0 <= b < v.firstData ==> w.disk[b] == v.disk[b]
  {
    hide Word, Header, PutWord, FilesOk, Partition, SlicesOk;
    var w := Drop(v, chain, p);
    ChainBlock(v, chain, own, held, p);
    CountUpdate(v.bfree, chain[p], true);
    if p > 0 {
      ChainBlock(v, chain, own, held, p - 1);
    }
    assert ChainHead(Without(chain, p)) == if p > 0 then chain[0] else ChainNext(chain, 0);
  }

  // ----- the sweep

  /** The sweep of delete_slice from position p on: drop every all-free block, step over the others. */
  ghost function Sweep(v: Volume, chain: seq<nat>, p: nat): (r: (Volume, seq<nat>))
    requires InRange(v, chain)
    decreases |chain| - p
  {
    if p >= |chain| then (v, chain)
    else if Header(v.disk[chain[p]]) == ALL_FREE then Sweep(Drop(v, chain, p), Without(chain, p), p)
    else Sweep(v, chain, p + 1)
  }

  /** The blocks of s with a slice in use, in order. */
  ghost function InUse(disk: seq<Block>, s: seq<nat>): seq<nat>
    requires forall k :: 0 <= k < |s| ==> s[k] < |disk|
  {
    if |s| == 0 then []
    else (if Header(disk[s[0]]) == ALL_FREE then [] else [s[0]]) + InUse(disk, s[1..])
  }

  lemma {:induction false} InUseSame(disk: seq<Block>, disk': seq<Block>, s: seq<nat>)
    requires |disk| == |disk'| && forall k :: 0 <= k < |s| ==> s[k] < |disk|
    requires forall k :: 0 <= k < |s| ==> Header(disk'[s[k]]) == Header(disk[s[k]])
    ensures InUse(disk', s) == InUse(disk, s)
  {
    hide Header;
    if |s| > 0 {
      InUseSame(disk, disk', s[1..]);
    }
  }

  lemma DropHeaders(v: Volume, chain: seq<nat>, p: nat, k: nat)
    requires InRange(v, chain) && ChainOk(v.disk, chain) && p < |chain| && k < |chain| - 1
    ensures var w := Drop(v, chain, p);
            var b := Without(chain, p)[k];
            |w.disk| == |v.disk| && Header(w.disk[b]) == Header(v.disk[b])
  {
    hide Header, Word, PutWord, DropDisk, Without;
    var q := if k < p then k else k + 1;
    DropDiskAt(v.disk, chain, p, q);
    LinkKeeps(v.disk[chain[q]], Next(v.disk[chain[p]]));
  }

  /** What the sweep from position p has achieved. */
  ghost predicate Swept(
      v: Volume, chain: seq<nat>, held: Option<Run>, p: nat, i: nat, w: Volume, chain': seq<nat>, own': seq<Owner>)
    requires InRange(v, chain) && p <= |chain|
  {
    && Core(w, chain', own', held)
    && SameElsewhere(v, chain, w, chain', i)
    && w.inodes == v.inodes && w.ifree == v.ifree && w.nrUsed == v.nrUsed
    && InRange(w, chain')
    && chain' == chain[..p] + InUse(v.disk, chain[p..])
    && (forall k :: p <= k < |chain'| ==> Header(w.disk[chain'[k]]) != ALL_FREE)
    && (forall k :: 0 <= k < |chain'| ==> Header(w.disk[chain'[k]]) == Header(v.disk[chain'[k]]))
  }

  lemma {:induction false} SweepOk(v: Volume, chain: seq<nat>, own: seq<Owner>, held: Option<Run>, p: nat, i: nat)
    returns (own': seq<Owner>)
    requires InRange(v, chain) && p <= |chain| && Core(v, chain, own, held)
    ensures var (w, chain') := Sweep(v, chain, p);
            Swept(v, chain, held, p, i, w, chain', own')
    decreases |chain| - p
  {
    hide Header, Core, SameElsewhere, Drop, Without;
    if p == |chain| {
      own' := own;
      SweepNothing(v, chain, own, held, i);
    } else if Header(v.disk[chain[p]]) == ALL_FREE {
      DropCore(v, chain, own, held, p, i);
      var u := Drop(v, chain, p);
      DropRange(v, chain, p);
      own' := SweepOk(u, Without(chain, p), DropOwners(own, p), held, p, i);
      assert ChainOk(v.disk, chain) by {
        CoreChain(v, chain, own, held);
      }
      SweepAfterDrop(v, chain, own, held, p, i, own');
    } else {
      own' := SweepOk(v, chain, own, held, p + 1, i);
      SweepPast(v, chain, held, p, i, own');
    }
  }

  lemma DropRange(v: Volume, chain: seq<nat>, p: nat)
    requires InRange(v, chain) && p < |chain|
    ensures InRange(Drop(v, chain, p), Without(chain, p))
    ensures Drop(v, chain, p).inodes == v.inodes && Drop(v, chain, p).ifree == v.ifree
    ensures Drop(v, chain, p).nrUsed == v.nrUsed && |Drop(v, chain, p).disk| == |v.disk|
  {
    hide Word, PutWord;
  }

  lemma CoreChain(v: Volume, chain: seq<nat>, own: seq<Owner>, held: Option<Run>)
    requires Core(v, chain, own, held)
    ensures Shape(v) && ChainOk(v.disk, chain) && InRange(v, chain)
  {
    hide Word, Header, Partition, SlicedBlockOk;
  }

  /** Each block that leaves the chain is freed once, and the count of sliced blocks falls with it. */
  lemma {:induction false} SweepCounts(v: Volume, chain: seq<nat>, p: nat)
    requires InRange(v, chain) && p <= |chain|
    ensures var (w, chain') := Sweep(v, chain, p);
            && |chain'| <= |chain|
            && w.freeBlocks == v.freeBlocks + |chain| - |chain'|
            && w.nrSliced == v.nrSliced - |chain| + |chain'|
    decreases |chain| - p
  {
    hide Header, Word, DropDisk, Without;
    if p < |chain| {
      SweepUnfold(v, chain, p);
      if Header(v.disk[chain[p]]) == ALL_FREE {
        SweepCounts(Drop(v, chain, p), Without(chain, p), p);
      } else {
        SweepCounts(v, chain, p + 1);
      }
    }
  }

  lemma SweepNothing(v: Volume, chain: seq<nat>, own: seq<Owner>, held: Option<Run>, i: nat)
    requires InRange(v, chain) && Core(v, chain, own, held)
    ensures Swept(v, chain, held, |chain|, i, v, chain, own)
  {
    hide Header, Core;
    assert chain[..|chain|] + InUse(v.disk, chain[|chain|..]) == chain;
    assert forall j :: 0 <= j < |v.inodes| ==> SameReach(v.disk, v.disk, v.inodes[j]);
  }

  lemma SweepPast(v: Volume, chain: seq<nat>, held: Option<Run>, p: nat, i: nat, own': seq<Owner>)
    requires InRange(v, chain) && p < |chain| && Header(v.disk[chain[p]]) != ALL_FREE
    requires var (w, chain') := Sweep(v, chain, p + 1); Swept(v, chain, held, p + 1, i, w, chain', own')
    ensures var (w, chain') := Sweep(v, chain, p); Swept(v, chain, held, p, i, w, chain', own')
  {
    hide Header, Core, SameElsewhere, InUse, Sweep;
    SweepUnfold(v, chain, p);
    InUseUnfold(v.disk, chain, p);
    var (w, chain') := Sweep(v, chain, p + 1);
    assert chain'[p] == chain[p];
  }

  lemma SweepUnfold(v: Volume, chain: seq<nat>, p: nat)
    requires InRange(v, chain) && p < |chain|
    ensures Header(v.disk[chain[p]]) != ALL_FREE ==> Sweep(v, chain, p) == Sweep(v, chain, p + 1)
    ensures Header(v.disk[chain[p]]) == ALL_FREE ==>
              && InRange(Drop(v, chain, p), Without(chain, p))
              && Sweep(v, chain, p) == Sweep(Drop(v, chain, p), Without(chain, p), p)
  {
    hide Header, Drop, Without;
    DropRange(v, chain, p);
  }

  lemma InUseUnfold(disk: seq<Block>, chain: seq<nat>, p: nat)
    requires p < |chain| && forall k :: 0 <= k < |chain| ==> chain[k] < |disk|
    ensures Header(disk[chain[p]]) != ALL_FREE ==>
              chain[..p + 1] + InUse(disk, chain[p + 1..]) == chain[..p] + InUse(disk, chain[p..])
    ensures Header(disk[chain[p]]) == ALL_FREE ==> InUse(disk, chain[p..]) == InUse(disk, chain[p + 1..])
  {
    hide Header, InUse;
    InUseCons(disk, chain[p..]);
    SplitAt(chain, p, InUse(disk, chain[p + 1..]));
  }

  lemma SplitAt<T>(s: seq<T>, p: nat, rest: seq<T>)
    requires p < |s|
    ensures s[p..][1..] == s[p + 1..]
    ensures s[..p] + ([s[p]] + rest) == s[..p + 1] + rest
  {
  }

  lemma InUseCons(disk: seq<Block>, s: seq<nat>)
    requires |s| > 0 && forall k :: 0 <= k < |s| ==> s[k] < |disk|
    ensures Header(disk[s[0]]) != ALL_FREE ==> InUse(disk, s) == [s[0]] + InUse(disk, s[1..])
    ensures Header(disk[s[0]]) == ALL_FREE ==> InUse(disk, s) == InUse(disk, s[1..])
  {
    hide Header;
  }

  lemma SweepAfterDrop(
      v: Volume, chain: seq<nat>, own: seq<Owner>, held: Option<Run>, p: nat, i: nat, own': seq<Owner>)
    requires InRange(v, chain) && p < |chain| && ChainOk(v.disk, chain)
    requires Header(v.disk[chain[p]]) == ALL_FREE
    requires var u := Drop(v, chain, p);
             var c := Without(chain, p);
             && InRange(u, c) && |u.disk| == |v.disk|
             && u.inodes == v.inodes && u.ifree == v.ifree && u.nrUsed == v.nrUsed
             && SameElsewhere(v, chain, u, c, i)
             && var (w, chain') := Sweep(u, c, p);
             Swept(u, c, held, p, i, w, chain', own')
    ensures var (w, chain') := Sweep(v, chain, p); Swept(v, chain, held, p, i, w, chain', own')
  {
    hide Header, Core, SameElsewhere, Drop, Without, InUse, Sweep;
    var u := Drop(v, chain, p);
    var c := Without(chain, p);
    var (w, chain') := Sweep(u, c, p);
    SweepUnfold(v, chain, p);
    InUseUnfold(v.disk, chain, p);
    ElsewhereTrans(v, chain, u, c, w, chain', i);
    assert c[..p] == chain[..p] && c[p..] == chain[p + 1..];
    DropHeadersAll(v, chain, p, chain');
  }

  lemma DropHeadersAll(v: Volume, chain: seq<nat>, p: nat, chain': seq<nat>)
    requires InRange(v, chain) && p < |chain| && ChainOk(v.disk, chain)
    requires var u := Drop(v, chain, p);
             var c := Without(chain, p);
             InRange(u, c) && |u.disk| == |v.disk| && chain' == c[..p] + InUse(u.disk, c[p..])
    ensures var u := Drop(v, chain, p);
            && InUse(u.disk, Without(chain, p)[p..]) == InUse(v.disk, Without(chain, p)[p..])
            && forall k :: 0 <= k < |chain'| ==>
                 chain'[k] < |v.disk| && Header(u.disk[chain'[k]]) == Header(v.disk[chain'[k]])
  {
    hide Header, Drop, Without;
    var u := Drop(v, chain, p);
    var c := Without(chain, p);
    forall k | 0 <= k < |c|
      ensures Header(u.disk[c[k]]) == Header(v.disk[c[k]])
    {
      DropHeaders(v, chain, p, k);
    }
    InUseSame(v.disk, u.disk, c[p..]);
    InUseFrom(u.disk, c, p, chain');
  }

  /** Elements of the swept chain come from the chain. */
  lemma InUseFrom(disk: seq<Block>, c: seq<nat>, p: nat, chain': seq<nat>)
    requires p <= |c| && forall k :: 0 <= k < |c| ==> c[k] < |disk|
    requires chain' == c[..p] + InUse(disk, c[p..])
    ensures forall k :: 0 <= k < |chain'| ==> exists q :: 0 <= q < |c| && c[q] == chain'[k]
  {
    hide Header;
    InUseMembers(disk, c[p..]);
    forall k | 0 <= k < |chain'|
      ensures exists q :: 0 <= q < |c| && c[q] == chain'[k]
    {
      if k < p {
        assert c[k] == chain'[k];
      } else {
        assert chain'[k] in InUse(disk, c[p..]);
        var q :| 0 <= q < |c[p..]| && c[p..][q] == chain'[k];
        assert c[p + q] == chain'[k];
      }
    }
  }

  lemma {:induction false} InUseMembers(disk: seq<Block>, s: seq<nat>)
    requires forall k :: 0 <= k < |s| ==> s[k] < |disk|
    ensures forall b :: b in InUse(disk, s) <==> b in s && Header(disk[b]) != ALL_FREE
  {
    hide Header;
    if |s| > 0 {
      InUseMembers(disk, s[1..]);
      assert s == [s[0]] + s[1..];
    }
  }
}
