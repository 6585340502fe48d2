/** Steps that leave other inodes alone keep their invariants and their bytes. */
module Frames {
  import opened Bytes
  import opened Volume

  /** An inode whose reach is unchanged stays well formed and reads the same. */
  lemma FileFrame(disk: seq<Block>, disk': seq<Block>, x: Inode)
    requires FileOk(disk, x) && SameReach(disk, disk', x)
    ensures FileOk(disk', x)
    ensures x.kind == File ==> Content(disk', x) == Content(disk, x)
  {
    hide Word;
    if IsBig(x) {
      forall o | 0 <= o < MAX_FILE
        ensures BigByte(disk', disk'[x.index], o) == BigByte(disk, disk[x.index], o)
      {
        var t := o / BLOCK_SIZE;
        assert 0 <= t < INDEX_ENTRIES;
      }
    }
  }

  lemma ElsewhereFiles(v: Volume, chain: seq<nat>, w: Volume, chain': seq<nat>, i: nat)
    requires FilesOk(v) && SameElsewhere(v, chain, w, chain', i)
    ensures forall j :: 0 <= j < |v.inodes| && j != i ==> FileOk(w.disk, w.inodes[j])
    ensures forall j :: 0 <= j < |v.inodes| && j != i && v.inodes[j].kind == File ==>
              Content(w.disk, w.inodes[j]) == Content(v.disk, v.inodes[j])
  {
    hide FileOk, SameReach, Content;
    forall j | 0 <= j < |v.inodes| && j != i
      ensures FileOk(w.disk, w.inodes[j])
      ensures v.inodes[j].kind == File ==> Content(w.disk, w.inodes[j]) == Content(v.disk, v.inodes[j])
    {
      FileFrame(v.disk, w.disk, v.inodes[j]);
    }
  }

  lemma ReachTrans(a: seq<Block>, b: seq<Block>, c: seq<Block>, x: Inode)
    requires SameReach(a, b, x) && SameReach(b, c, x)
    ensures SameReach(a, c, x)
  {
    hide Word;
  }

  /** Nothing changed at all. */
  lemma SelfElsewhere(v: Volume, chain: seq<nat>, i: nat)
    ensures SameElsewhere(v, chain, v, chain, i)
  {
    hide Word, Kept;
    assert forall j :: 0 <= j < |v.inodes| ==> SameReach(v.disk, v.disk, v.inodes[j]);
  }

  lemma ElsewhereTrans(u: Volume, cu: seq<nat>, v: Volume, cv: seq<nat>, w: Volume, cw: seq<nat>, i: nat)
    requires SameElsewhere(u, cu, v, cv, i) && SameElsewhere(v, cv, w, cw, i)
    ensures SameElsewhere(u, cu, w, cw, i)
  {
    hide SameReach, Kept;
    forall j | 0 <= j < |u.inodes| && j != i
      ensures SameReach(u.disk, w.disk, u.inodes[j])
    {
      ReachTrans(u.disk, v.disk, w.disk, u.inodes[j]);
    }
  }

  /** Which blocks are kept depends on the other inodes only. */
  lemma {:induction false} KeptSame(chain: seq<nat>, inodes: seq<Inode>, inodes': seq<Inode>, i: nat)
    requires |inodes| == |inodes'|
    requires forall j :: 0 <= j < |inodes| && j != i ==> inodes'[j] == inodes[j]
    ensures Kept(chain, inodes', i) == Kept(chain, inodes, i)
  {
    if |chain| > 0 {
      KeptSame(chain[..|chain| - 1], inodes, inodes', i);
    }
  }

  lemma KeptAppend(chain: seq<nat>, b: nat, inodes: seq<Inode>, i: nat)
    requires !UsedByOther(b, inodes, i)
    ensures Kept(chain + [b], inodes, i) == Kept(chain, inodes, i)
  {
    assert (chain + [b])[..|chain|] == chain;
  }

  /** A chain whose blocks are all used by others is kept whole. */
  lemma {:induction false} KeptAll(chain: seq<nat>, inodes: seq<Inode>, i: nat)
    requires forall k :: 0 <= k < |chain| ==> UsedByOther(chain[k], inodes, i)
    ensures Kept(chain, inodes, i) == chain
  {
    if |chain| > 0 {
      KeptAll(chain[..|chain| - 1], inodes, i);
    }
  }

  /** The sizes and the metadata blocks are as before. */
  ghost predicate SameGround(v: Volume, w: Volume) {
    && w.firstData == v.firstData && |w.disk| == |v.disk|
    && |w.inodes| == |v.inodes| && |w.ifree| == |v.ifree|
    && forall b :: 0 <= b < v.firstData && b < |v.disk| ==> w.disk[b] == v.disk[b]
  }

  lemma ElsewhereGround(v: Volume, chain: seq<nat>, w: Volume, chain': seq<nat>, i: nat)
    requires SameElsewhere(v, chain, w, chain', i)
    ensures SameGround(v, w)
  {
    hide SameReach, Kept;
  }
}
