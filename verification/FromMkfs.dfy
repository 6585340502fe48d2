/** Runs that start on a partition that mkfs has just written. */
module FromMkfs {
  import opened Bytes
  import opened Volume
  import opened Chain
  import opened Failure
  import opened Namespace
  import opened Runs
  import opened SliceCount
  import opened Mkfs
  import opened Sync
  import opened Format
  import opened Durable

  /** The sizes mkfs computes with in 32 bits. */
  predicate Sized(n: nat) {
    MIN_BLOCKS <= n && n + 50 < WORD_LIMIT
  }

  /** Mounting what mkfs wrote gives the fresh volume exactly if one bitmap block counts the used blocks. */
  lemma MountFresh(before: seq<Block>)
    requires Sized(|before|)
    ensures Mount(Image(before)) == Mounted(Fresh(|before|, Image(before))) <==> Formattable(|before|)
  {
    hide Mount, Image, Layout, From, FreshInodes;
    MountImage(before);
    var n := |before|;
    var v := Mount(Image(before)).v;
    RegionsOrdered(n);
    if Formattable(n) {
      assert v.bfree == From(n, NrUsed(Layout(n)));
    } else {
      assert v.bfree[BITS_PER_BLOCK] != From(n, NrUsed(Layout(n)))[BITS_PER_BLOCK];
    }
  }

  /** The part of the partition that mkfs does not write holds zeros. */
  ghost predicate Blank(before: seq<Block>) {
    forall b :: FirstData(Layout(|before|)) < b < |before| ==> before[b] == ZeroBlock()
  }

  /** The first mount makes sense exactly if the size is formattable and the partition was blank. */
  lemma FirstMount(before: seq<Block>)
    requires Sized(|before|)
    ensures var m := Mount(Image(before));
            m.Mounted? && (Meaningful(m.v) <==> Formattable(|before|) && Blank(before))
  {
    hide Mount, Core, Layout, Image;
    MountImage(before);
    var m := Mount(Image(before));
    if Formattable(|before|) {
      MountFresh(before);
      if Blank(before) {
        ImageZeroed(before);
        FreshStorage(|before|, Image(before));
      } else {
        forall chain, own, held
          ensures !Core(m.v, chain, own, held)
        {
          DirtyMount(before, chain, own, held);
        }
      }
    } else {
      forall chain, own, held
        ensures !Core(m.v, chain, own, held)
      {
        OverrunMount(before, chain, own, held);
      }
    }
  }

  lemma ImageZeroed(before: seq<Block>)
    requires Formattable(|before|) && Blank(before)
    ensures Zeroed(|before|, Image(before))
  {
    hide Layout, Superblock, RootStore, FirstIfree, Ones;
    RegionsOrdered(|before|);
  }

  /** Free space that mkfs did not clear is not clean. */
  lemma DirtyMount(before: seq<Block>, chain: seq<nat>, own: seq<Owner>, held: Option<Run>)
    requires Sized(|before|) && Formattable(|before|) && !Blank(before)
    ensures Mount(Image(before)).Mounted? && !Core(Mount(Image(before)).v, chain, own, held)
  {
    hide Mount, Partition, SlicesOk, FilesOk, InodesMatch, CountersOk, Layout, Superblock, RootStore, FirstIfree, Ones;
    MountImage(before);
    RegionsOrdered(|before|);
    var v := Mount(Image(before)).v;
    var b :| FirstData(Layout(|before|)) < b < |before| && before[b] != ZeroBlock();
    assert Image(before)[b] == before[b];
    assert v.bfree[b] && v.disk[b] != ZeroBlock();
  }

  /** With more used blocks than one bitmap block counts, block 32768 is marked free although it is in use. */
  lemma OverrunMount(before: seq<Block>, chain: seq<nat>, own: seq<Owner>, held: Option<Run>)
    requires Sized(|before|) && !Formattable(|before|)
    ensures Mount(Image(before)).Mounted? && !Core(Mount(Image(before)).v, chain, own, held)
  {
    hide Mount, SlicesOk, FilesOk, FreeClean, InodesMatch, CountersOk, Layout, Image;
    MountImage(before);
    var n := |before|;
    RegionsOrdered(n);
    var v := Mount(Image(before)).v;
    var b := BITS_PER_BLOCK;
    assert Claims(v, chain, b, Free);
    assert Claims(v, chain, b, if b < FirstData(Layout(n)) then Meta else DirOf(ROOT));
  }

  /** The state after mkfs on a blank partition and the first mount. */
  ghost predicate Begins(before: seq<Block>, s: State) {
    && Formattable(|before|) && Blank(before)
    && Mount(Image(before)) == Mounted(s.v) && s.chain == []
  }

  lemma BeginSized(n: nat)
    requires Formattable(n)
    ensures Sized(n) && n <= MAX_BLOCKS
  {
    hide Layout;
    FormattableSizes(n);
  }

  lemma BeginMagic(before: seq<Block>)
    requires Formattable(|before|)
    ensures Word(Image(before)[0], 0) == MAGIC
  {
    hide Word, Layout, RootStore, FirstIfree, Ones, Superblock;
    BeginSized(|before|);
    ImageCounters(|before|);
  }

  lemma FreshTidy(before: seq<Block>)
    requires Formattable(|before|)
    ensures var v := Fresh(|before|, Image(before)); Laid(v) && Tidy(v)
  {
    hide Word, Image, From;
    BeginMagic(before);
    RegionsOrdered(|before|);
  }

  /** What a user finds: an empty root directory, and nothing else; no slice is in use. */
  lemma StartFacts(before: seq<Block>, s: State)
    requires Begins(before, s)
    ensures Lasting(s) && NamesOk(s)
    ensures forall i :: 0 <= i < |View(s.v)| ==> View(s.v)[i] == if i == ROOT then Dir([]) else Absent
    ensures InRange(s.v, s.chain) && Drift(s.v, s.chain) == 0
  {
    hide Word, Laid, Tidy, Mount, Sound, View, FilesOk, Zeroed, Image, Layout, Blank;
    var n := |before|;
    BeginSized(n);
    MountFresh(before);
    ImageZeroed(before);
    FreshSound(n, Image(before));
    FreshTidy(before);
    SoundDrift(s);
    assert UsedIn(s.v.disk, []) == 0;
  }

  /**
   * Any run from there: the invariant holds in every state, and the slice counter is ahead of the bitmaps by exactly
   * the slices of the in-place rewrites so far.
   */
  lemma RunFromMkfs(before: seq<Block>, trace: seq<State>, ops: seq<Op>, k: nat)
    requires IsRun(trace, ops) && k <= |ops| && Begins(before, trace[0])
    ensures Sound(trace[k]) && InRange(trace[k].v, trace[k].chain)
    ensures Drift(trace[k].v, trace[k].chain) == TotalExtra(trace, ops, k) % WORD_LIMIT
  {
    hide Begins, Sound, Laid, Tidy, Follows, TotalExtra, Drift, View, FilesOk;
    StartFacts(before, trace[0]);
    RunSound(trace, ops, k);
    RunDrift(trace, ops, k);
  }

  /** No directory ever lists a name twice, exactly if no step that took effect had a clashing name. */
  lemma NamesFromMkfs(before: seq<Block>, trace: seq<State>, ops: seq<Op>, k: nat)
    requires IsRun(trace, ops) && k <= |ops| && Begins(before, trace[0])
    ensures (forall j :: 0 <= j <= k ==> NamesOk(trace[j])) <==> (forall j :: 0 <= j < k ==> NoClash(trace, ops, j))
  {
    hide Begins, Sound, Laid, Tidy, Follows, View, FilesOk, NoClash, NamesOk;
    StartFacts(before, trace[0]);
    RunDistinct(trace, ops, k);
  }

  /** The whole life of a partition from mkfs on, with syncs and mounts anywhere in between. */
  lemma LifeFromMkfs(before: seq<Block>, trace: seq<State>, ops: seq<Option<Op>>, k: nat)
    requires IsLife(trace, ops) && k < |ops| && Begins(before, trace[0])
    ensures Lasting(trace[k]) && Lasting(trace[k + 1]) && PassesWell(trace[k], ops[k], trace[k + 1])
  {
    hide Begins, Lasting, Passes, PassesWell, View, NamesOk, Drift;
    StartFacts(before, trace[0]);
    LifeDurable(trace, ops, k);
    LifeRefines(trace, ops, k);
  }
}
