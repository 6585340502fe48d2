/** The used-slice counter against the bitmaps: which operations keep it exact, and by how much the others miss. */
module SliceCount {
  import opened Bytes
  import opened SliceMask
  import opened Volume
  import opened BigWrite
  import opened Chain
  import opened SmallFile
  import opened Place
  import opened SmallWrite
  import opened WriteIter
  import opened Reclaim
  import opened Failure
  import opened DirBlock
  import opened Namespace
  import opened NsOps
  import opened Runs

  // ----- counting slices in use

  /** The slices of one block that its bitmap says are in use. */
  ghost function Taken(m: bv32): set<nat> {
    set k: nat | 1 <= k < 32 && !IsFree(m, k)
  }

  ghost function FreeSlices(m: bv32): set<nat> {
    set k: nat | 1 <= k < 32 && IsFree(m, k)
  }

  /** Slices in use in all blocks of the chain, by the bitmaps. */
  ghost function UsedIn(disk: seq<Block>, chain: seq<nat>): nat
    requires forall k :: 0 <= k < |chain| ==> chain[k] < |disk|
  {
    if |chain| == 0 then 0
    else UsedIn(disk, chain[..|chain| - 1]) + |Taken(Header(disk[chain[|chain| - 1]]))|
  }

  ghost function FreeIn(disk: seq<Block>, chain: seq<nat>): nat
    requires forall k :: 0 <= k < |chain| ==> chain[k] < |disk|
  {
    if |chain| == 0 then 0
    else FreeIn(disk, chain[..|chain| - 1]) + |FreeSlices(Header(disk[chain[|chain| - 1]]))|
  }

  function Length(t: Option<Run>): nat {
    if t.Some? then t.value.count else 0
  }

  function TotalLength(t: seq<Option<Run>>): nat {
    if |t| == 0 then 0 else TotalLength(t[..|t| - 1]) + Length(t[|t| - 1])
  }

  /** Slices held by the small files, by their inodes. */
  function Owned(inodes: seq<Inode>): nat {
    if |inodes| == 0 then 0 else Owned(inodes[..|inodes| - 1]) + Length(Tenant(inodes[|inodes| - 1]))
  }

  ghost function CoveredSet(t: seq<Option<Run>>, b: nat): set<nat> {
    set k: nat | 1 <= k < 32 && Covered(t, b, k)
  }

  ghost function ChainUse(chain: seq<nat>, t: seq<Option<Run>>): nat {
    if |chain| == 0 then 0 else ChainUse(chain[..|chain| - 1], t) + |CoveredSet(t, chain[|chain| - 1])|
  }

  function Interval(lo: nat, n: nat): (s: set<nat>)
    ensures forall k: nat :: k in s <==> lo <= k < lo + n
  {
    if n == 0 then {} else Interval(lo, n - 1) + {lo + n - 1}
  }

  lemma {:induction false} IntervalSize(lo: nat, n: nat)
    ensures |Interval(lo, n)| == n
  {
    if n > 0 {
      IntervalSize(lo, n - 1);
    }
  }

  lemma CoveredAppend(t: seq<Option<Run>>, x: Option<Run>, b: nat, k: nat)
    ensures Covered(t + [x], b, k) <==> Covered(t, b, k) || Covers(x, b, k)
  {
    hide Covers;
    var s := t + [x];
    if Covers(x, b, k) {
      assert Covers(s[|t|], b, k);
    }
    if i :| 0 <= i < |t| && Covers(t[i], b, k) {
      assert Covers(s[i], b, k);
    }
  }

  function RunSlices(x: Option<Run>, b: nat): (s: set<nat>)
    ensures forall k: nat :: k in s <==> Covers(x, b, k)
  {
    if x.Some? && x.value.block == b then Interval(x.value.first, x.value.count) else {}
  }

  /** Slices are counted once each: of two runs in a block none covers a slice of the other. */
  lemma CoveredMore(t: seq<Option<Run>>, x: Option<Run>, b: nat)
    requires x.Some? ==> 1 <= x.value.first && x.value.first + x.value.count <= 32
    requires forall k: nat :: Covers(x, b, k) ==> !Covered(t, b, k)
    ensures |CoveredSet(t + [x], b)| == |CoveredSet(t, b)| + (if x.Some? && x.value.block == b then x.value.count else 0)
  {
    var run := RunSlices(x, b);
    if x.Some? && x.value.block == b {
      IntervalSize(x.value.first, x.value.count);
    }
    CoveredUnion(t, x, b);
    hide CoveredSet, Interval, Covered;
    assert |CoveredSet(t, b) + run| == |CoveredSet(t, b)| + |run|;
  }

  lemma CoveredUnion(t: seq<Option<Run>>, x: Option<Run>, b: nat)
    requires x.Some? ==> 1 <= x.value.first && x.value.first + x.value.count <= 32
    requires forall k: nat :: Covers(x, b, k) ==> !Covered(t, b, k)
    ensures CoveredSet(t + [x], b) == CoveredSet(t, b) + RunSlices(x, b) && CoveredSet(t, b) !! RunSlices(x, b)
  {
    hide Covered, RunSlices;
    forall k: nat
      ensures Covered(t + [x], b, k) <==> Covered(t, b, k) || Covers(x, b, k)
    {
      CoveredAppend(t, x, b, k);
    }
  }

  lemma {:induction false} ChainMore(chain: seq<nat>, t: seq<Option<Run>>, x: Option<Run>)
    requires x.Some? ==> 1 <= x.value.first && x.value.first + x.value.count <= 32
    requires forall b: nat, k: nat :: Covers(x, b, k) ==> !Covered(t, b, k)
    requires forall j, k :: 0 <= j < k < |chain| ==> chain[j] != chain[k]
    ensures ChainUse(chain, t + [x]) ==
            ChainUse(chain, t) + (if x.Some? && x.value.block in chain then x.value.count else 0)
  {
    hide CoveredSet, Covers, Covered;
    if |chain| > 0 {
      var c := chain[|chain| - 1];
      ChainMore(chain[..|chain| - 1], t, x);
      CoveredMore(t, x, c);
      assert chain == chain[..|chain| - 1] + [c];
    }
  }

  lemma {:induction false} ChainNothing(chain: seq<nat>)
    ensures ChainUse(chain, []) == 0
  {
    if |chain| > 0 {
      ChainNothing(chain[..|chain| - 1]);
      assert CoveredSet([], chain[|chain| - 1]) == {};
    }
  }

  lemma LastApart(t: seq<Option<Run>>, b: nat, k: nat)
    requires |t| > 0
    requires forall i, j :: 0 <= i < |t| && 0 <= j < |t| && Covers(t[i], b, k) && Covers(t[j], b, k) ==> i == j
    ensures Covers(t[|t| - 1], b, k) ==> !Covered(t[..|t| - 1], b, k)
  {
    hide Covers;
    var u := t[..|t| - 1];
    var x := t[|t| - 1];
    forall i | 0 <= i < |u|
      ensures !(Covers(x, b, k) && Covers(u[i], b, k))
    {
      assert u[i] == t[i];
    }
  }

  lemma {:induction false} ChainTotal(chain: seq<nat>, t: seq<Option<Run>>)
    requires forall j, k :: 0 <= j < k < |chain| ==> chain[j] != chain[k]
    requires forall i :: 0 <= i < |t| && t[i].Some? ==> RunOk(t[i].value, chain)
    requires forall i, j, b, k :: 0 <= i < |t| && 0 <= j < |t| && Covers(t[i], b, k) && Covers(t[j], b, k) ==> i == j
    ensures ChainUse(chain, t) == TotalLength(t)
  {
    hide Covers;
    if |t| == 0 {
      ChainNothing(chain);
    } else {
      var n := |t| - 1;
      var u := t[..n];
      ChainTotal(chain, u);
      forall b: nat, k: nat
        ensures Covers(t[n], b, k) ==> !Covered(u, b, k)
      {
        LastApart(t, b, k);
      }
      assert t == u + [t[n]];
      ChainMore(chain, u, t[n]);
    }
  }

  lemma {:induction false} UsedIsChainUse(disk: seq<Block>, chain: seq<nat>, t: seq<Option<Run>>)
    requires forall k :: 0 <= k < |chain| ==> chain[k] < |disk| && SlicedBlockOk(disk[chain[k]], chain[k], t)
    ensures UsedIn(disk, chain) == ChainUse(chain, t)
    ensures UsedIn(disk, chain) + FreeIn(disk, chain) == 31 * |chain|
  {
    hide Header, IsFree, Covered;
    if |chain| > 0 {
      var c := chain[|chain| - 1];
      UsedIsChainUse(disk, chain[..|chain| - 1], t);
      assert SlicedBlockOk(disk[c], c, t);
      var m := Header(disk[c]);
      assert Taken(m) == CoveredSet(t, c);
      assert Taken(m) + FreeSlices(m) == Interval(1, 31);
      IntervalSize(1, 31);
    }
  }

  lemma {:induction false} TotalIsOwned(inodes: seq<Inode>)
    ensures TotalLength(Tenants(inodes, None)) == Owned(inodes)
  {
    if |inodes| > 0 {
      var n := |inodes| - 1;
      TotalIsOwned(inodes[..n]);
      var t := Tenants(inodes, None);
      assert t[..n + 1][..n] == Tenants(inodes[..n], None)[..n];
      assert TotalLength(t) == TotalLength(t[..n + 1]);
    }
  }

  /** The bitmaps and the inodes agree on how many slices are in use; all others are free. */
  lemma UsedIsOwned(v: Volume, chain: seq<nat>, own: seq<Owner>)
    requires Core(v, chain, own, None)
    ensures InRange(v, chain)
    ensures UsedIn(v.disk, chain) == Owned(v.inodes)
    ensures UsedIn(v.disk, chain) + FreeIn(v.disk, chain) == 31 * |chain|
  {
    hide Word, Header, Partition, FilesOk, FreeClean, SlicedBlockOk, Covers;
    CoreChain(v, chain, own, None);
    var t := Tenants(v.inodes, None);
    UsedIsChainUse(v.disk, chain, t);
    ChainTotal(chain, t);
    TotalIsOwned(v.inodes);
  }

  // ----- the counter

  /** How far the counter is ahead of the bitmaps, in 32-bit arithmetic. */
  ghost function Drift(v: Volume, chain: seq<nat>): nat
    requires InRange(v, chain)
  {
    (v.nrUsed - UsedIn(v.disk, chain)) % WORD_LIMIT
  }

  /** What the sysfs file shows as free slices: a 32-bit difference of two counters. */
  function ShownFree(v: Volume): nat {
    if v.head == 0 then 0 else (v.nrSliced * 31 - v.nrUsed) % WORD_LIMIT
  }

  /** It is short of the free slices by exactly the drift; without sliced blocks it shows 0. */
  lemma ShownFreeExact(v: Volume, chain: seq<nat>, own: seq<Owner>)
    requires Core(v, chain, own, None)
    ensures InRange(v, chain)
    ensures ShownFree(v) == if chain == [] then 0 else (FreeIn(v.disk, chain) - Drift(v, chain)) % WORD_LIMIT
  {
    hide UsedIn, FreeIn, Word, Header, Partition, SlicedBlockOk, FilesOk, FreeClean;
    UsedIsOwned(v, chain, own);
    ModSub(FreeIn(v.disk, chain), v.nrUsed - UsedIn(v.disk, chain));
    if chain != [] {
      assert chain[0] > 0;
    }
  }

  lemma ModSub(a: int, b: int)
    ensures (a - b % WORD_LIMIT) % WORD_LIMIT == (a - b) % WORD_LIMIT
  {
    ModShift(a - b, b / WORD_LIMIT);
    assert a - b % WORD_LIMIT == a - b + WORD_LIMIT * (b / WORD_LIMIT);
  }

  lemma ModShift(a: int, q: int)
    ensures (a + WORD_LIMIT * q) % WORD_LIMIT == a % WORD_LIMIT
  {
  }

  lemma ModAdd(a: int, b: int)
    ensures (a % WORD_LIMIT + b) % WORD_LIMIT == (a + b) % WORD_LIMIT
  {
    ModShift(a + b, -(a / WORD_LIMIT));
    assert a % WORD_LIMIT + b == a + b + WORD_LIMIT * -(a / WORD_LIMIT);
  }

  lemma {:induction false} OwnedUpdate(inodes: seq<Inode>, i: nat, x: Inode)
    requires i < |inodes|
    ensures Owned(inodes[i := x]) == Owned(inodes) - Length(Tenant(inodes[i])) + Length(Tenant(x))
  {
    var n := |inodes| - 1;
    if i == n {
      assert inodes[i := x][..n] == inodes[..n];
    } else {
      assert inodes[i := x][..n] == inodes[..n][i := x];
      OwnedUpdate(inodes[..n], i, x);
    }
  }

  /** The slices an in-place rewrite counts a second time. */
  function Recounted(x: Inode, kiPos: nat, append: bool, count: nat): nat {
    var size := Max(WritePos(x, kiPos, append) + count, x.size);
    if IsSmall(x) && WillBeSmall(Max(kiPos + count, x.size)) && x.slices == SlicesFor(size) then x.slices else 0
  }

  /** The counter after a write: exact for fresh, relocated, converted and big files, too high after a rewrite. */
  lemma WriteCounter(
      v: Volume, chain: seq<nat>, own: seq<Owner>, i: nat, kiPos: nat, append: bool, data: seq<Byte>)
    requires i < |v.inodes| && v.inodes[i].kind == File && FileOk(v.disk, v.inodes[i])
    requires Shape(v) && InRange(v, chain)
    requires v.inodes[i].index != 0 && v.inodes[i].blocks == 0 ==> RunFits(v, v.inodes[i])
    requires Core(v, chain, own, None) && NoneEmpty(v.disk, chain)
    requires Admissible(v.inodes[i], kiPos, append, |data|) && CanWrite(v, chain, i, kiPos, append, data)
    ensures var o := Write(v, chain, i, kiPos, append, data);
            && i < |o.v.inodes|
            && (o.v.nrUsed - Length(Tenant(o.v.inodes[i]))) % WORD_LIMIT ==
               (v.nrUsed - Length(Tenant(v.inodes[i])) + Recounted(v.inodes[i], kiPos, append, |data|)) % WORD_LIMIT
  {
    hide Header, Core, SameElsewhere, WriteBig, WriteSmall, Convert, FileOk, NoneEmpty, HasRoom, ConvertBlocks,
      SmallOk, RunFits, SlicesFor, Overlay, Content;
    var x := v.inodes[i];
    WriteReady(v, chain, own, i);
    var small := WillBeSmall(Max(kiPos + |data|, x.size));
    if (x.index == 0 && !small) || (x.index != 0 && x.blocks != 0) {
      WriteBigIff(v, chain, own, None, i, kiPos, append, data);
      WriteBigInodes(v, i, kiPos, append, data);
    } else if small {
      SmallCounter(v, chain, own, i, kiPos, append, data);
    } else {
      var own' := ConvertOk(v, chain, own, i, kiPos, append, data);
      ModAdd(v.nrUsed + WORD_LIMIT - x.slices, 0);
      ModShift(v.nrUsed - x.slices, 1);
    }
  }

  lemma NewUsed(
      v: Volume, chain: seq<nat>, own: seq<Owner>, i: nat, pos: nat, data: seq<Byte>)
    requires i < |v.inodes| && IsNew(v.inodes[i]) && FileOk(v.disk, v.inodes[i])
    requires Shape(v) && InRange(v, chain) && Core(v, chain, own, None)
    requires 1 <= pos + |data| <= SMALL_LIMIT && HasRoom(v, chain, i, pos, |data|)
    ensures WriteNew(v, chain, i, pos, data).v.nrUsed == (v.nrUsed + SlicesFor(pos + |data|)) % WORD_LIMIT
  {
    hide Core, WriteNew, FileOk, FirstRoom, NoneEmpty, SlicesFor, Written;
    var own' := WriteNewOk(v, chain, own, None, i, pos, data);
  }

  lemma MovedUsed(
      v: Volume, chain: seq<nat>, own: seq<Owner>, i: nat, pos: nat, data: seq<Byte>)
    requires i < |v.inodes| && IsSmall(v.inodes[i]) && SmallOk(v.disk, v.inodes[i]) && FileOk(v.disk, v.inodes[i])
    requires Shape(v) && InRange(v, chain) && RunFits(v, v.inodes[i]) && Core(v, chain, own, None)
    requires SlicesFor(Max(pos + |data|, v.inodes[i].size)) != v.inodes[i].slices
    requires 1 <= Max(pos + |data|, v.inodes[i].size) <= SMALL_LIMIT && HasRoom(v, chain, i, pos, |data|)
    ensures var x := v.inodes[i];
            Relocate(v, chain, i, pos, data).v.nrUsed ==
            (v.nrUsed + SlicesFor(Max(pos + |data|, x.size)) + WORD_LIMIT - x.slices) % WORD_LIMIT
  {
    hide Core, Relocate, FileOk, FirstRoom, NoneEmpty, SlicesFor, Written, Content, SameElsewhere;
    WholeIsOverlay(v, v.inodes[i], pos, data);
    var own' := RelocateOk(v, chain, own, i, pos, data);
  }

  /** What write_small_file adds to the counter in each of its three branches. */
  lemma SmallUsed(
      v: Volume, chain: seq<nat>, own: seq<Owner>, i: nat, kiPos: nat, append: bool, data: seq<Byte>)
    requires i < |v.inodes| && v.inodes[i].kind == File && FileOk(v.disk, v.inodes[i]) && !IsBig(v.inodes[i])
    requires Shape(v) && InRange(v, chain)
    requires v.inodes[i].index != 0 ==> RunFits(v, v.inodes[i])
    requires Core(v, chain, own, None) && NoneEmpty(v.disk, chain)
    requires 1 <= Max(WritePos(v.inodes[i], kiPos, append) + |data|, v.inodes[i].size) <= SMALL_LIMIT
    requires HasRoom(v, chain, i, WritePos(v.inodes[i], kiPos, append), |data|)
    ensures var x := v.inodes[i];
            var n := SlicesFor(Max(WritePos(x, kiPos, append) + |data|, x.size));
            WriteSmall(v, chain, i, kiPos, append, data).v.nrUsed ==
            (v.nrUsed + n + (if x.index == 0 || x.slices == n then 0 else WORD_LIMIT - x.slices)) % WORD_LIMIT
  {
    hide Core, WriteNew, Relocate, FileOk, FirstRoom, NoneEmpty, SlicesFor, Content, RewriteRun, HasRoom;
    var x := v.inodes[i];
    var pos := WritePos(x, kiPos, append);
    SmallReady(v, chain, own, i);
    if x.index == 0 {
      NewUsed(v, chain, own, i, pos, data);
    } else if x.slices == SlicesFor(Max(pos + |data|, x.size)) {
      InPlaceOk(v, chain, own, i, pos, data);
      InRun(x.index % 32, x.slices, pos + |data|);
      RewriteUsed(v, i, pos, data);
    } else {
      MovedUsed(v, chain, own, i, pos, data);
    }
  }

  lemma SmallCounter(
      v: Volume, chain: seq<nat>, own: seq<Owner>, i: nat, kiPos: nat, append: bool, data: seq<Byte>)
    requires i < |v.inodes| && v.inodes[i].kind == File && FileOk(v.disk, v.inodes[i]) && !IsBig(v.inodes[i])
    requires Shape(v) && InRange(v, chain)
    requires v.inodes[i].index != 0 ==> RunFits(v, v.inodes[i])
    requires Core(v, chain, own, None) && NoneEmpty(v.disk, chain)
    requires 1 <= Max(WritePos(v.inodes[i], kiPos, append) + |data|, v.inodes[i].size) <= SMALL_LIMIT
    requires HasRoom(v, chain, i, WritePos(v.inodes[i], kiPos, append), |data|)
    requires WillBeSmall(Max(kiPos + |data|, v.inodes[i].size))
    ensures var o := WriteSmall(v, chain, i, kiPos, append, data);
            && i < |o.v.inodes|
            && (o.v.nrUsed - Length(Tenant(o.v.inodes[i]))) % WORD_LIMIT ==
               (v.nrUsed - Length(Tenant(v.inodes[i])) + Recounted(v.inodes[i], kiPos, append, |data|)) % WORD_LIMIT
  {
    hide Header, Core, SameElsewhere, WriteSmall, FileOk, NoneEmpty, SlicesFor, Content, HasRoom, RunFits;
    var x := v.inodes[i];
    var pos := WritePos(x, kiPos, append);
    var n: int := SlicesFor(Max(pos + |data|, x.size));
    SmallReady(v, chain, own, i);
    var o := WriteSmall(v, chain, i, kiPos, append, data);
    var own' := WriteSmallOk(v, chain, own, i, kiPos, append, data);
    SmallUsed(v, chain, own, i, kiPos, append, data);
    SmallSlices(o.v.disk, o.v.inodes[i], Content(v.disk, x), pos, data);
    var more := if x.index == 0 || x.slices == n then 0 else WORD_LIMIT - x.slices;
    ModAdd(v.nrUsed + n + more, 0 - n);
    ModShift(v.nrUsed - x.slices, 1);
  }

  lemma SmallSlices(disk: seq<Block>, y: Inode, c: seq<Byte>, pos: nat, data: seq<Byte>)
    requires IsSmall(y) && FileOk(disk, y) && Content(disk, y) == Overlay(c, pos, data)
    ensures y.slices == SlicesFor(Max(pos + |data|, |c|))
  {
    hide Word;
  }

  lemma InRun(first: nat, n: nat, size: nat)
    requires first + n <= 32 && size <= n * SLICE_SIZE
    ensures first * SLICE_SIZE + size <= BLOCK_SIZE
  {
  }

  lemma RewriteUsed(v: Volume, i: nat, pos: nat, data: seq<Byte>)
    requires i < |v.inodes|
    requires var x := v.inodes[i];
             x.index / 32 < |v.disk| && x.index % 32 * SLICE_SIZE + pos + |data| <= BLOCK_SIZE
    ensures RewriteRun(v, i, pos, data).nrUsed == (v.nrUsed + SlicesFor(Max(pos + |data|, v.inodes[i].size))) % WORD_LIMIT
  {
    hide SlicesFor;
  }

  // ----- the counter over whole runs

  /** What an operation adds to the counter without using a slice more. */
  ghost function Extra(s: State, op: Op): nat {
    if op.Put? && Ready(s, op) && Succeeds(s, op) then Recounted(s.v.inodes[op.i], op.kiPos, op.append, |op.data|) else 0
  }

  /** Inodes that hold as many slices each hold as many together. */
  lemma {:induction false} OwnedSame(a: seq<Inode>, b: seq<Inode>)
    requires |a| == |b| && forall j :: 0 <= j < |a| ==> Length(Tenant(a[j])) == Length(Tenant(b[j]))
    ensures Owned(a) == Owned(b)
  {
    hide Length, Tenant;
    if |a| > 0 {
      OwnedSame(a[..|a| - 1], b[..|b| - 1]);
    }
  }

  function Plus(a: nat, b: nat): nat {
    (a + b) % WORD_LIMIT
  }

  /** The counter less the slices the inodes hold. */
  ghost function Ahead(v: Volume): nat {
    (v.nrUsed - Owned(v.inodes)) % WORD_LIMIT
  }

  lemma AheadPut(s: State, own: seq<Owner>, home: seq<(nat, nat)>, op: Op, t: State)
    requires FsOk(s.v, s.chain, own, home) && op.Put? && Follows(s, op, t)
    ensures Ahead(t.v) == Plus(Ahead(s.v), Extra(s, op))
  {
    hide Core, NoneEmpty, NsOk, SameElsewhere, Write, CanWrite, CleanFailure, RunFits, Admissible, Tenant, Length,
      Recounted, FileOk, Owned, Content, FailedAt, Remaining;
    var v := s.v;
    var i := op.i;
    WriteReady(v, s.chain, own, i);
    var own' := WriteSurvives(v, s.chain, own, i, op.kiPos, op.append, op.data);
    if Succeeds(s, op) {
      WriteCounter(v, s.chain, own, i, op.kiPos, op.append, op.data);
      ElsewhereAll(v, s.chain, t.v, t.chain, i);
      AheadWrote(v, t.v, i, Extra(s, op));
    }
  }

  lemma AheadWrote(v: Volume, w: Volume, i: nat, extra: nat)
    requires i < |v.inodes| == |w.inodes| && w.inodes == v.inodes[i := w.inodes[i]]
    requires (w.nrUsed - Length(Tenant(w.inodes[i]))) % WORD_LIMIT ==
             (v.nrUsed - Length(Tenant(v.inodes[i])) + extra) % WORD_LIMIT
    ensures Ahead(w) == Plus(Ahead(v), extra)
  {
    hide Tenant, Length, Owned;
    OwnedUpdate(v.inodes, i, w.inodes[i]);
    var rest := Length(Tenant(v.inodes[i])) - Owned(v.inodes);
    ModAdd(w.nrUsed - Length(Tenant(w.inodes[i])), rest);
    ModAdd(v.nrUsed - Length(Tenant(v.inodes[i])) + extra, rest);
    ModAdd(v.nrUsed - Owned(v.inodes), extra);
  }

  lemma CreateUsed(v: Volume, d: nat, name: seq<Byte>, dir: bool)
    requires Shape(v) && IsDir(v, d)
    requires SpawnsApart(v, d, dir)
    ensures Create(v, d, name, dir).0.nrUsed == v.nrUsed
  {
    hide Word, SlotIno, Insert, Used;
  }

  lemma AheadMake(s: State, own: seq<Owner>, home: seq<(nat, nat)>, op: Op)
    requires FsOk(s.v, s.chain, own, home) && op.Make? && Ready(s, op)
    ensures Ahead(After(s, op).v) == Ahead(s.v)
  {
    hide Core, NoneEmpty, NsOk, Create, NewInode, Listing, Used, SameReach;
    var own' := CreateOk(s.v, s.chain, own, home, op.d, op.name, op.dir);
    CreateUsed(s.v, op.d, op.name, op.dir);
    OwnedSame(s.v.inodes, After(s, op).v.inodes);
  }

  lemma RenameUsed(v: Volume, d1: nat, before: seq<Byte>, d2: nat, after: seq<Byte>, i: nat)
    requires RenameReady(v, d1, d2, after, i)
    ensures var r := Rename(v, d1, before, d2, after, i);
            r.Renamed? ==> r.v.nrUsed == v.nrUsed && (d1 == d2 ==> r.v.inodes == v.inodes)
  {
    hide Word, SlotIno, DirBlock.Remove, Insert, AnySlot, PutName, NameMatches, Used, SlotOf;
  }

  lemma AheadMove(s: State, own: seq<Owner>, home: seq<(nat, nat)>, op: Op)
    requires FsOk(s.v, s.chain, own, home) && op.Move? && Ready(s, op)
    ensures Ahead(After(s, op).v) == Ahead(s.v)
  {
    hide FsOk, RenameReady, Rename, LookedUp, Used, LastNamed, Owned, Tenant, IsDir;
    RenameUsed(s.v, op.d, op.before, op.d2, op.after, op.i);
    var t := After(s, op);
    if op.d != op.d2 && t != s {
      AwayFrame(s, own, home, op);
      DirsOwn(s.v, t.v, op.d, op.d2);
    }
  }

  lemma DirsOwn(v: Volume, w: Volume, d1: nat, d2: nat)
    requires |w.inodes| == |v.inodes| && IsDir(v, d1) && IsDir(v, d2) && IsDir(w, d1) && IsDir(w, d2)
    requires forall j :: 0 <= j < |w.inodes| && j != d1 && j != d2 ==> w.inodes[j] == v.inodes[j]
    ensures Owned(w.inodes) == Owned(v.inodes)
  {
    OwnedSame(w.inodes, v.inodes);
  }

  lemma AwayFrame(s: State, own: seq<Owner>, home: seq<(nat, nat)>, op: Op)
    requires FsOk(s.v, s.chain, own, home) && op.Move? && op.d != op.d2 && Ready(s, op) && After(s, op) != s
    ensures var w := After(s, op).v;
            && |w.inodes| == |s.v.inodes| && IsDir(s.v, op.d) && IsDir(s.v, op.d2) && IsDir(w, op.d) && IsDir(w, op.d2)
            && forall j :: 0 <= j < |w.inodes| && j != op.d && j != op.d2 ==> w.inodes[j] == s.v.inodes[j]
  {
    hide FsOk, Listing, Used, SameReach, Word, SlotIno, SlotOf, Register, Unregister, AnySlot, PutName, NameMatches,
      Shifted, FindName,
      RenameReady;
    SlotNames(s.v, op.d, op.i);
    RenameAway(s.v, s.chain, own, home, op.d, op.before, op.d2, op.after, op.i, SlotOf(s.v, op.d, op.i));
  }

  lemma AheadRemove(s: State, own: seq<Owner>, home: seq<(nat, nat)>, op: Op)
    requires FsOk(s.v, s.chain, own, home) && (op.Erase? || op.EraseDir?) && Ready(s, op)
    ensures Ahead(After(s, op).v) == Ahead(s.v)
  {
    hide Core, NoneEmpty, TreeBut, LinksOk, Listing, Used, FileOk, SameReach, Unlink, Unregister, CanReclaim,
      RmdirRefuses,
      Word, SlotIno, SlotOf, Shifted, Owned;
    var v := s.v;
    var (d, i) := (op.d, op.i);
    if op.EraseDir? {
      RmdirTest(v, home, i);
      ListingEmpty(DirBlk(v, i));
    }
    if op.Erase? || !RmdirRefuses(v, i) {
      SlotNames(v, d, i);
      var own' := UnlinkOk(v, s.chain, own, home, d, i, SlotOf(v, d, i));
      var w := After(s, op).v;
      OwnedSame(w.inodes, v.inodes[i := w.inodes[i]]);
      OwnedUpdate(v.inodes, i, w.inodes[i]);
      UsedSmall(v, s.chain, own, i);
      ModAdd(w.nrUsed, 0);
      ModAdd(v.nrUsed + WORD_LIMIT - Length(Tenant(v.inodes[i])), 0 - Owned(w.inodes));
      ModShift(v.nrUsed - Owned(v.inodes), 1);
    }
  }

  lemma UsedSmall(v: Volume, chain: seq<nat>, own: seq<Owner>, i: nat)
    requires Core(v, chain, own, None) && i < |v.inodes|
    ensures UsedWithout(v, i) == if IsSmall(v.inodes[i]) then (v.nrUsed + WORD_LIMIT - v.inodes[i].slices) % WORD_LIMIT else v.nrUsed
    ensures IsSmall(v.inodes[i]) ==> v.inodes[i].slices <= 31
  {
    hide Word, Partition, SlicesOk, FreeClean;
    assert FileOk(v.disk, v.inodes[i]);
  }

  lemma SoundDrift(s: State)
    requires Sound(s)
    ensures InRange(s.v, s.chain) && Drift(s.v, s.chain) == Ahead(s.v)
  {
    hide Core, NsOk, NoneEmpty, Owned;
    var own, home :| FsOk(s.v, s.chain, own, home);
    UsedIsOwned(s.v, s.chain, own);
  }

  lemma DriftStep(s: State, op: Op, t: State)
    requires Sound(s) && Follows(s, op, t)
    ensures Ahead(t.v) == Plus(Ahead(s.v), Extra(s, op))
  {
    hide FsOk, Ready, Goes, After, Recounted;
    var own, home :| FsOk(s.v, s.chain, own, home);
    match op {
      case Make(d, name, dir) => AheadMake(s, own, home, op);
      case Put(i, kiPos, append, data) => AheadPut(s, own, home, op, t);
      case Erase(d, i) => AheadRemove(s, own, home, op);
      case EraseDir(d, i) => AheadRemove(s, own, home, op);
      case Move(d, before, d2, after, i) => AheadMove(s, own, home, op);
    }
  }

  ghost function TotalExtra(trace: seq<State>, ops: seq<Op>, k: nat): nat
    requires k <= |ops| < |trace|
  {
    if k == 0 then 0 else TotalExtra(trace, ops, k - 1) + Extra(trace[k - 1], ops[k - 1])
  }

  /**
   * The used-slice counter after any run: ahead of the bitmaps by what it was ahead at the start, plus once more the
   * slice count of every in-place rewrite of a small file. It is exact exactly as long as there was none
   * (or 2^32 slices' worth of them).
   */
  lemma {:induction false} RunDrift(trace: seq<State>, ops: seq<Op>, k: nat)
    requires IsRun(trace, ops) && Sound(trace[0]) && k <= |ops|
    ensures InRange(trace[0].v, trace[0].chain) && InRange(trace[k].v, trace[k].chain)
    ensures Drift(trace[k].v, trace[k].chain) ==
            Plus(Drift(trace[0].v, trace[0].chain), TotalExtra(trace, ops, k))
  {
    hide Sound, Follows, Extra, Drift;
    SoundDrift(trace[0]);
    if k > 0 {
      RunDrift(trace, ops, k - 1);
      RunSound(trace, ops, k - 1);
      RunSound(trace, ops, k);
      SoundDrift(trace[k - 1]);
      SoundDrift(trace[k]);
      DriftStep(trace[k - 1], ops[k - 1], trace[k]);
      ModAdd(Ahead(trace[0].v) + TotalExtra(trace, ops, k - 1), Extra(trace[k - 1], ops[k - 1]));
    }
  }
}
