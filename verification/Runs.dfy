/** Whole runs: the concrete operations against a file system of plain byte strings and listings. */
module Runs {
  import opened Bytes
  import opened Volume
  import opened Frames
  import opened BigWrite
  import opened Chain
  import opened SmallWrite
  import opened WriteIter
  import opened Failure
  import opened DirBlock
  import opened Namespace
  import opened NsOps
  import opened RoundTrip

  // ----- the file system a user sees

  datatype Node = Absent | Plain(content: seq<Byte>) | Dir(entries: seq<Entry>)

  ghost function NodeOf(disk: seq<Block>, x: Inode): Node
    requires FileOk(disk, x)
  {
    match x.kind
    case Unused => Absent
    case Directory => Dir(Listing(disk[x.index]))
    case File => Plain(Content(disk, x))
  }

  /** Every inode number with what it stands for. */
  ghost function View(v: Volume): (a: seq<Node>)
    requires FilesOk(v)
    ensures |a| == |v.inodes|
    ensures forall j :: 0 <= j < |a| ==> FileOk(v.disk, v.inodes[j]) && a[j] == NodeOf(v.disk, v.inodes[j])
  {
    seq(|v.inodes|, j requires 0 <= j < |v.inodes| => NodeOf(v.disk, v.inodes[j]))
  }

  // ----- operations

  datatype Op =
    | Make(d: nat, name: seq<Byte>, dir: bool)
    | Put(i: nat, kiPos: nat, append: bool, data: seq<Byte>)
    | Erase(d: nat, i: nat)
    | EraseDir(d: nat, i: nat)
    | Move(d: nat, before: seq<Byte>, d2: nat, after: seq<Byte>, i: nat)

  datatype State = State(v: Volume, chain: seq<nat>)

  /** What the VFS guarantees about directory d and the inode i it looked up there. */
  ghost predicate LookedUp(v: Volume, d: nat, i: nat) {
    0 < i < |v.inodes| && IsDir(v, d) && SlotOf(v, d, i) < SLOTS && i != d
  }

  /** The calls a run may contain. */
  ghost predicate Allowed(v: Volume, op: Op) {
    match op
    case Make(d, name, dir) => IsDir(v, d) && ValidName(name)
    case Put(i, kiPos, append, data) =>
      i < |v.inodes| && v.inodes[i].kind == File && Admissible(v.inodes[i], kiPos, append, |data|)
    case Erase(d, i) => LookedUp(v, d, i) && v.inodes[i].kind == File
    case EraseDir(d, i) => LookedUp(v, d, i) && IsDir(v, i)
    case Move(d, before, d2, after, i) =>
      && LookedUp(v, d, i) && IsDir(v, d2) && i != d2 && ValidName(before) && ValidName(after)
      && !RenameOutside(v, d, before, d2, after)
  }

  /** The operation stays inside the arrays it works on. */
  ghost predicate Ready(s: State, op: Op) {
    var v := s.v;
    && Shape(v) && InRange(v, s.chain) && Allowed(v, op)
    && match op
       case Make(d, name, dir) => SpawnsApart(v, d, dir)
       case Put(i, kiPos, append, data) =>
         v.inodes[i].index != 0 && v.inodes[i].blocks == 0 ==> RunFits(v, v.inodes[i])
       case Erase(d, i) => CanReclaim(Unregister(v, d, SlotOf(v, d, i), i), s.chain, i)
       case EraseDir(d, i) =>
         RmdirRefuses(v, i) || CanReclaim(Unregister(v, d, SlotOf(v, d, i), i), s.chain, i)
       case Move(d, before, d2, after, i) => RenameReady(v, d, d2, after, i)
  }

  /** Every call is a step of a run, but for the writes whose failure leaves a volume that makes no sense. */
  ghost predicate Goes(s: State, op: Op)
    requires Ready(s, op)
  {
    op.Put? ==> Survives(s.v, s.chain, op.i, op.kiPos, op.append, op.data)
  }

  /** Of the writes in a run, those that report success. */
  ghost predicate Succeeds(s: State, op: Op)
    requires Ready(s, op)
  {
    op.Put? ==> CanWrite(s.v, s.chain, op.i, op.kiPos, op.append, op.data)
  }

  ghost function After(s: State, op: Op): State
    requires Ready(s, op)
  {
    var v := s.v;
    match op
    case Make(d, name, dir) => State(Create(v, d, name, dir).0, s.chain)
    case Put(i, kiPos, append, data) =>
      var o := Write(v, s.chain, i, kiPos, append, data);
      State(o.v, o.chain)
    case Erase(d, i) =>
      var (w, c) := Unlink(v, s.chain, d, i);
      State(w, c)
    case EraseDir(d, i) =>
      if RmdirRefuses(v, i) then s
      else
        var (w, c) := Unlink(v, s.chain, d, i);
        State(w, c)
    case Move(d, before, d2, after, i) =>
      var r := Rename(v, d, before, d2, after, i);
      if r.Renamed? then State(r.v, s.chain) else s
  }

  // ----- the same operations on the user's view

  /** Entry f of listing l is the last one called `name`, as far as 28 characters go. */
  ghost predicate LastCalled(l: seq<Entry>, name: seq<Byte>, f: nat) {
    && f < |l| && l[f].name == Cut(name)
    && forall k :: f < k < |l| ==> l[k].name != Cut(name)
  }

  /** The part of a name that strncmp looks at. */
  function Cut(name: seq<Byte>): seq<Byte> {
    if |name| > NAME_LEN then name[..NAME_LEN] else name
  }

  ghost predicate SpecMake(a: seq<Node>, d: nat, name: seq<Byte>, dir: bool, b: seq<Node>) {
    && d < |a| && a[d].Dir?
    && (|name| > NAME_LEN || |a[d].entries| == SLOTS ==> b == a)
    && (b == a || exists i :: Made(a, d, name, dir, b, i))
  }

  ghost predicate Made(a: seq<Node>, d: nat, name: seq<Byte>, dir: bool, b: seq<Node>, i: nat) {
    && d < |a| && a[d].Dir? && 0 < i < |a| && a[i].Absent?
    && b == a[i := if dir then Dir([]) else Plain([])][d := Dir(a[d].entries + [Entry(i, Stored(name))])]
  }

  ghost predicate SpecRemove(a: seq<Node>, d: nat, i: nat, b: seq<Node>) {
    exists f :: Removed(a, d, i, b, f)
  }

  ghost predicate Removed(a: seq<Node>, d: nat, i: nat, b: seq<Node>, f: nat) {
    && d < |a| && a[d].Dir? && i < |a| && i != d && f < |a[d].entries| && a[d].entries[f].ino == i
    && b == a[d := Dir(Without(a[d].entries, f))][i := Absent]
  }

  /** A rename is refused exactly when the new name is too long or taken, or the new directory is full. */
  ghost predicate SpecMove(
      a: seq<Node>, d: nat, before: seq<Byte>, d2: nat, after: seq<Byte>, i: nat, b: seq<Node>)
  {
    && d < |a| && a[d].Dir? && d2 < |a| && a[d2].Dir?
    && if |after| > NAME_LEN || FindName(a[d2].entries, after) < |a[d2].entries|
          || (d != d2 && |a[d2].entries| == SLOTS) then b == a
       else exists f :: RenamedAt(a, d, before, d2, after, i, b, f)
  }

  ghost predicate RenamedAt(
      a: seq<Node>, d: nat, before: seq<Byte>, d2: nat, after: seq<Byte>, i: nat, b: seq<Node>, f: nat)
  {
    && d < |a| && a[d].Dir? && d2 < |a| && a[d2].Dir? && f < |a[d].entries|
    && if d == d2 then
         && LastCalled(a[d].entries, before, f)
         && b == a[d := Dir(a[d].entries[f := Entry(a[d].entries[f].ino, Stored(after))])]
       else
         && a[d].entries[f].ino == i
         && b == a[d := Dir(Without(a[d].entries, f))][d2 := Dir(a[d2].entries + [Entry(i, Stored(after))])]
  }

  /** A write that succeeded stored all of its data; one that failed stored a part of it, inside the old end of file. */
  ghost predicate SpecPut(
      a: seq<Node>, i: nat, kiPos: nat, append: bool, data: seq<Byte>, done: bool, b: seq<Node>)
  {
    && i < |a| && a[i].Plain?
    && if done then b == a[i := Plain(Overlay(a[i].content, if append then |a[i].content| else kiPos, data))]
       else exists n: nat :: StoredPart(a, i, kiPos, append, data, b, n)
  }

  ghost predicate StoredPart(
      a: seq<Node>, i: nat, kiPos: nat, append: bool, data: seq<Byte>, b: seq<Node>, n: nat)
  {
    && i < |a| && a[i].Plain? && n <= |data|
    && var c := a[i].content;
    b == a[i := Plain(Overlay(c, if append then |c| else kiPos, data[..n])[..|c|])]
  }

  /** What the operation may do to the user's view; done tells whether a write succeeded. */
  ghost predicate Spec(a: seq<Node>, op: Op, done: bool, b: seq<Node>) {
    match op
    case Make(d, name, dir) => SpecMake(a, d, name, dir, b)
    case Put(i, kiPos, append, data) => SpecPut(a, i, kiPos, append, data, done, b)
    case Erase(d, i) => SpecRemove(a, d, i, b)
    case EraseDir(d, i) => i < |a| && a[i].Dir? && if a[i].entries != [] then b == a else SpecRemove(a, d, i, b)
    case Move(d, before, d2, after, i) => SpecMove(a, d, before, d2, after, i, b)
  }

  // ----- one step

  lemma NodeSame(v: Volume, w: Volume, j: nat)
    requires j < |v.inodes| == |w.inodes| && FileOk(v.disk, v.inodes[j])
    requires w.inodes[j] == v.inodes[j] && SameReach(v.disk, w.disk, v.inodes[j])
    ensures FileOk(w.disk, w.inodes[j]) && NodeOf(w.disk, w.inodes[j]) == NodeOf(v.disk, v.inodes[j])
  {
    hide Word, Content, Listing;
    FileFrame(v.disk, w.disk, v.inodes[j]);
  }

  /** A step that leaves all inodes but p and q alone changes at most their nodes. */
  lemma ViewSet(v: Volume, w: Volume, p: nat, q: nat)
    requires FilesOk(v) && FilesOk(w) && p < |v.inodes| == |w.inodes| && q < |v.inodes|
    requires forall j :: 0 <= j < |v.inodes| && j != p && j != q ==>
               w.inodes[j] == v.inodes[j] && SameReach(v.disk, w.disk, v.inodes[j])
    ensures View(w) == View(v)[p := NodeOf(w.disk, w.inodes[p])][q := NodeOf(w.disk, w.inodes[q])]
  {
    hide FileOk, NodeOf, SameReach;
    forall j | 0 <= j < |v.inodes| && j != p && j != q
      ensures View(w)[j] == View(v)[j]
    {
      NodeSame(v, w, j);
    }
    assert View(w) == View(v)[p := NodeOf(w.disk, w.inodes[p])][q := NodeOf(w.disk, w.inodes[q])];
  }

  lemma DirNode(v: Volume, d: nat)
    requires FilesOk(v) && IsDir(v, d)
    ensures d < |View(v)| && View(v)[d] == Dir(Listing(DirBlk(v, d)))
  {
    hide FileOk, Listing;
  }

  /** Inode i as a user sees it. */
  lemma UsualNode(v: Volume, i: nat)
    requires FilesOk(v) && i < |v.inodes|
    ensures FileOk(v.disk, v.inodes[i])
    ensures v.inodes[i].kind == Unused ==> View(v)[i] == Absent
    ensures v.inodes[i].kind == File ==> View(v)[i] == Plain(Content(v.disk, v.inodes[i]))
    ensures v.inodes[i].kind == Directory ==> IsDir(v, i) && View(v)[i] == Dir(Listing(DirBlk(v, i)))
  {
    hide Listing, Content, Word;
    assert FileOk(v.disk, v.inodes[i]);
  }

  lemma CoreFiles(v: Volume, chain: seq<nat>, own: seq<Owner>, home: seq<(nat, nat)>)
    requires FsOk(v, chain, own, home)
    ensures FilesOk(v) && Shape(v) && InRange(v, chain)
  {
    hide Partition, SlicesOk, FilesOk, FreeClean, NsOk;
    CoreChain(v, chain, own, None);
  }

  /** The invariant holds, and the user's view changed as the operation says. */
  ghost predicate Refined(s: State, op: Op, t: State, own': seq<Owner>, home': seq<(nat, nat)>) {
    && FsOk(t.v, t.chain, own', home') && |t.v.inodes| == |s.v.inodes|
    && FilesOk(s.v) && FilesOk(t.v) && Ready(s, op) && Spec(View(s.v), op, Succeeds(s, op), View(t.v))
  }

  lemma StepMake(s: State, own: seq<Owner>, home: seq<(nat, nat)>, d: nat, name: seq<Byte>, dir: bool)
    returns (own': seq<Owner>, home': seq<(nat, nat)>)
    requires FsOk(s.v, s.chain, own, home) && Allowed(s.v, Make(d, name, dir))
    ensures Ready(s, Make(d, name, dir))
    ensures Refined(s, Make(d, name, dir), After(s, Make(d, name, dir)), own', home')
  {
    hide Core, NoneEmpty, NsOk, Listing, Used, Create, FileOk, NewInode, SameReach, Content, FsOk;
    var v := s.v;
    CoreFiles(v, s.chain, own, home);
    own' := CreateOk(v, s.chain, own, home, d, name, dir);
    home' := home;
    DirNode(v, d);
    var (w, t) := Create(v, d, name, dir);
    if t.Error? {
      own' := own;
    } else {
      home' := home[t.ino := (d, Used(DirBlk(v, d)))];
      CoreFiles(w, s.chain, own', home');
      ViewSet(v, w, t.ino, d);
      DirNode(w, d);
      UsualNode(v, t.ino);
      UsualNode(w, t.ino);
      if !dir {
        NewIsOk(w.disk, w.inodes[t.ino]);
      }
      assert View(w)[t.ino] == if dir then Dir([]) else Plain([]);
      assert Made(View(v), d, name, dir, View(w), t.ino);
      FullDir(v, d, name, dir, t.ino);
    }
  }

  /** A create that succeeds had a short enough name and a directory with room. */
  lemma FullDir(v: Volume, d: nat, name: seq<Byte>, dir: bool, i: nat)
    requires Shape(v) && IsDir(v, d)
    requires SpawnsApart(v, d, dir)
    requires Create(v, d, name, dir).1.Done?
    ensures |name| <= NAME_LEN && Used(DirBlk(v, d)) < SLOTS
  {
    hide Word, SlotIno, NewInode, Register;
  }

  lemma StepPut(s: State, own: seq<Owner>, home: seq<(nat, nat)>, op: Op)
    returns (own': seq<Owner>)
    requires FsOk(s.v, s.chain, own, home) && op.Put? && Allowed(s.v, op)
    ensures Ready(s, op)
    ensures Goes(s, op) ==> Refined(s, op, After(s, op), own', home)
  {
    hide Core, NoneEmpty, NsOk, FileOk, SameReach, Content, Write, CanWrite, CleanFailure, Admissible, RunFits,
      SameElsewhere, Overlay, FailedAt, Remaining;
    var v := s.v;
    var i := op.i;
    CoreFiles(v, s.chain, own, home);
    WriteReady(v, s.chain, own, i);
    own' := WriteSurvives(v, s.chain, own, i, op.kiPos, op.append, op.data);
    if Goes(s, op) {
      var t := After(s, op);
      UsualNode(v, i);
      WriteKeepsNames(v, s.chain, own, home, t.v, t.chain, own', i);
      CoreFiles(t.v, t.chain, own', home);
      ElsewhereAll(v, s.chain, t.v, t.chain, i);
      ViewSet(v, t.v, i, i);
      UsualNode(t.v, i);
      PutContent(s, op, View(v), View(t.v));
    }
  }

  lemma PutContent(s: State, op: Op, a: seq<Node>, b: seq<Node>)
    requires op.Put? && Ready(s, op) && op.i < |a| && a[op.i].Plain?
    requires FailedAt(s.v, op.i, op.kiPos, op.append, |op.data|) <= |op.data|
    requires b == a[op.i := Plain(Remaining(s.v, s.chain, op.i, op.kiPos, op.append, op.data, a[op.i].content))]
    ensures Spec(a, op, Succeeds(s, op), b)
  {
    hide CanWrite, FailedAt, RunFits, Admissible;
    assert !Succeeds(s, op) ==>
        StoredPart(a, op.i, op.kiPos, op.append, op.data, b, FailedAt(s.v, op.i, op.kiPos, op.append, |op.data|));
  }

  /** A write is a step of a run exactly if the state after it still makes sense. */
  lemma GoesExact(s: State, op: Op)
    requires Sound(s) && op.Put? && Allowed(s.v, op)
    ensures Ready(s, op)
    ensures Goes(s, op) <==> Sound(After(s, op))
  {
    hide Core, NoneEmpty, NsOk, FileOk, Content, Write, CanWrite, CleanFailure, Admissible, RunFits, SameElsewhere,
      Refined;
    var own, home :| FsOk(s.v, s.chain, own, home);
    CoreFiles(s.v, s.chain, own, home);
    var own' := StepPut(s, own, home, op);
    WriteReady(s.v, s.chain, own, op.i);
    var own'' := WriteSurvives(s.v, s.chain, own, op.i, op.kiPos, op.append, op.data);
    if Goes(s, op) {
      RefinedSound(s, op, After(s, op), own', home);
    }
  }

  lemma RefinedSound(s: State, op: Op, t: State, own': seq<Owner>, home': seq<(nat, nat)>)
    requires Refined(s, op, t, own', home')
    ensures Sound(t)
  {
    hide FsOk, Spec;
  }

  lemma ElsewhereAll(v: Volume, chain: seq<nat>, w: Volume, chain': seq<nat>, i: nat)
    requires SameElsewhere(v, chain, w, chain', i)
    ensures forall j :: 0 <= j < |v.inodes| && j != i ==>
              j < |w.inodes| && w.inodes[j] == v.inodes[j] && SameReach(v.disk, w.disk, v.inodes[j])
  {
    hide SameReach, Kept;
  }

  lemma StepRemove(s: State, own: seq<Owner>, home: seq<(nat, nat)>, op: Op)
    returns (own': seq<Owner>, home': seq<(nat, nat)>)
    requires FsOk(s.v, s.chain, own, home) && (op.Erase? || op.EraseDir?) && Allowed(s.v, op)
    ensures Ready(s, op)
    ensures Refined(s, op, After(s, op), own', home')
  {
    hide Core, NoneEmpty, TreeBut, LinksOk, Listing, Used, FileOk, SameReach, Content, Unlink, Unregister,
      CanReclaim, RmdirRefuses,
      Word, SlotIno, SlotOf, Shifted;
    var v := s.v;
    var (d, i) := (op.d, op.i);
    CoreFiles(v, s.chain, own, home);
    UsualNode(v, i);
    SlotNames(v, d, i);
    var f := SlotOf(v, d, i);
    own', home' := own, home;
    if op.EraseDir? {
      RmdirTest(v, home, i);
      ListingEmpty(DirBlk(v, i));
    }
    if op.Erase? || !RmdirRefuses(v, i) {
      own' := UnlinkOk(v, s.chain, own, home, d, i, f);
      home' := Shifted(home, d, f);
      var (w, c) := Unlink(v, s.chain, d, i);
      CoreFiles(w, c, own', home');
      ViewSet(v, w, d, i);
      DirNode(v, d);
      DirNode(w, d);
      UsualNode(w, i);
      ListingAt(DirBlk(v, d), f);
      assert Removed(View(v), d, i, View(w), f);
    }
  }

  lemma SlotNames(v: Volume, d: nat, i: nat)
    requires LookedUp(v, d, i)
    ensures Names(v, i, d, SlotOf(v, d, i))
  {
    hide Word, SlotIno;
  }

  lemma ListingEmpty(b: Block)
    ensures Used(b) == 0 <==> Listing(b) == []
  {
    hide Word, SlotIno;
  }

  lemma ListingAt(b: Block, f: nat)
    requires f < Used(b)
    ensures Listing(b)[f].ino == SlotIno(b, f) && Listing(b)[f].name == CString(SlotName(b, f))
  {
    hide Word, SlotIno;
  }

  lemma StepMove(s: State, own: seq<Owner>, home: seq<(nat, nat)>, op: Op)
    returns (home': seq<(nat, nat)>)
    requires FsOk(s.v, s.chain, own, home) && op.Move? && Allowed(s.v, op)
    ensures Ready(s, op)
    ensures Refined(s, op, After(s, op), own, home')
  {
    hide Core, NoneEmpty, TreeBut, LinksOk, Listing, Used, FileOk, SameReach, Content, Rename, Word, SlotIno, SlotOf,
      Shifted;
    CoreFiles(s.v, s.chain, own, home);
    if op.d == op.d2 {
      StepInPlace(s, own, home, op);
      home' := home;
    } else {
      home' := StepAway(s, own, home, op);
    }
  }

  lemma StepInPlace(s: State, own: seq<Owner>, home: seq<(nat, nat)>, op: Op)
    requires FsOk(s.v, s.chain, own, home) && op.Move? && op.d == op.d2 && Allowed(s.v, op)
    ensures Ready(s, op)
    ensures Refined(s, op, After(s, op), own, home)
  {
    hide Core, NoneEmpty, TreeBut, LinksOk, Listing, Used, FileOk, SameReach, Content, Word, SlotIno, SlotOf, Shifted,
      AnySlot, FindName, PutName, NameMatches, SlotName, CString, Stored;
    var v := s.v;
    var d := op.d;
    CoreFiles(v, s.chain, own, home);
    DirNode(v, d);
    if |op.after| <= NAME_LEN {
      RenameInPlace(v, s.chain, own, home, d, op.before, op.after, op.i);
      var r := Rename(v, d, op.before, d, op.after, op.i);
      if r.Renamed? {
        var f := LastNamed(DirBlk(v, d), op.before, SLOTS);
        CoreFiles(r.v, s.chain, own, home);
        ElsewhereAll(v, s.chain, r.v, s.chain, d);
        ViewSet(v, r.v, d, d);
        DirNode(r.v, d);
        LastIsCalled(DirBlk(v, d), op.before);
        assert RenamedAt(View(v), d, op.before, d, op.after, op.i, View(r.v), f);
      }
    }
  }

  lemma LastIsCalled(b: Block, name: seq<Byte>)
    requires Used(b) <= SLOTS && LastNamed(b, name, SLOTS) < |Listing(b)|
    ensures LastCalled(Listing(b), name, LastNamed(b, name, SLOTS))
  {
    hide Word, SlotIno, SlotName, CString, Used;
  }

  lemma StepAway(s: State, own: seq<Owner>, home: seq<(nat, nat)>, op: Op)
    returns (home': seq<(nat, nat)>)
    requires FsOk(s.v, s.chain, own, home) && op.Move? && op.d != op.d2 && Allowed(s.v, op)
    ensures Ready(s, op)
    ensures Refined(s, op, After(s, op), own, home')
  {
    hide FsOk, Listing, Used, FileOk, SameReach, Content, Word, SlotIno, SlotOf, Shifted,
      AnySlot, FindName, NameMatches, SlotName, CString, Stored, RenameReady, Register, Unregister;
    var v := s.v;
    CoreFiles(v, s.chain, own, home);
    SlotNames(v, op.d, op.i);
    var f := SlotOf(v, op.d, op.i);
    home' := home;
    DirNode(v, op.d);
    DirNode(v, op.d2);
    RenameIsReady(v, s.chain, own, home, op.d, op.d2, op.after, op.i, f);
    if |op.after| <= NAME_LEN {
      RenameAway(v, s.chain, own, home, op.d, op.before, op.d2, op.after, op.i, f);
      var r := Rename(v, op.d, op.before, op.d2, op.after, op.i);
      AnySlotListed(DirBlk(v, op.d2), op.after);
      if r.Renamed? {
        home' := Shifted(home, op.d, f)[op.i := (op.d2, |Listing(DirBlk(v, op.d2))|)];
        CoreFiles(r.v, s.chain, own, home');
        ViewSet(v, r.v, op.d, op.d2);
        DirNode(r.v, op.d);
        DirNode(r.v, op.d2);
        ListingAt(DirBlk(v, op.d), f);
        assert RenamedAt(View(v), op.d, op.before, op.d2, op.after, op.i, View(r.v), f);
      }
    }
  }

  /**
   * Every allowed call is defined, keeps the invariant, and does to the user's view what the operation says:
   * to the named file and directory exactly that, to everything else nothing.
   */
  lemma StepOk(s: State, own: seq<Owner>, home: seq<(nat, nat)>, op: Op)
    returns (own': seq<Owner>, home': seq<(nat, nat)>)
    requires FsOk(s.v, s.chain, own, home) && Allowed(s.v, op)
    ensures Ready(s, op)
    ensures Goes(s, op) ==> Refined(s, op, After(s, op), own', home')
  {
    hide FsOk, Allowed, Ready, Refined, After, Goes;
    own', home' := own, home;
    match op {
      case Make(d, name, dir) => own', home' := StepMake(s, own, home, d, name, dir);
      case Put(i, kiPos, append, data) => own' := StepPut(s, own, home, op);
      case Erase(d, i) => own', home' := StepRemove(s, own, home, op);
      case EraseDir(d, i) => own', home' := StepRemove(s, own, home, op);
      case Move(d, before, d2, after, i) => home' := StepMove(s, own, home, op);
    }
  }

  // ----- whole runs

  /** Each state follows from the one before by the operation in between. */
  ghost predicate IsRun(trace: seq<State>, ops: seq<Op>) {
    && |trace| == |ops| + 1
    && forall k :: 0 <= k < |ops| ==> Follows(trace[k], ops[k], trace[k + 1])
  }

  ghost predicate Follows(s: State, op: Op, t: State) {
    Ready(s, op) && Goes(s, op) && t == After(s, op)
  }

  /** The invariant holds for some owners and some places of the names. */
  ghost predicate Sound(s: State) {
    exists own: seq<Owner>, home: seq<(nat, nat)> :: FsOk(s.v, s.chain, own, home)
  }

  lemma FollowsOk(s: State, op: Op, t: State)
    requires Sound(s) && Follows(s, op, t)
    ensures Ready(s, op) && Sound(t) && FilesOk(s.v) && FilesOk(t.v)
    ensures Spec(View(s.v), op, Succeeds(s, op), View(t.v))
  {
    hide FsOk, Allowed, After, Goes;
    var own, home :| FsOk(s.v, s.chain, own, home);
    var own', home' := StepOk(s, own, home, op);
  }

  /** Safety over all runs: every state a run reaches keeps the invariant. */
  lemma {:induction false} RunSound(trace: seq<State>, ops: seq<Op>, k: nat)
    requires IsRun(trace, ops) && Sound(trace[0]) && k <= |ops|
    ensures Sound(trace[k])
  {
    hide Sound, Follows;
    if k > 0 {
      RunSound(trace, ops, k - 1);
      FollowsOk(trace[k - 1], ops[k - 1], trace[k]);
    }
  }

  /** Refinement over all runs: each step of a run is a step of the byte-string file system. */
  lemma RunRefines(trace: seq<State>, ops: seq<Op>, k: nat)
    requires IsRun(trace, ops) && Sound(trace[0]) && k < |ops|
    ensures FilesOk(trace[k].v) && FilesOk(trace[k + 1].v)
    ensures Ready(trace[k], ops[k])
    ensures Spec(View(trace[k].v), ops[k], Succeeds(trace[k], ops[k]), View(trace[k + 1].v))
  {
    hide Sound, Follows;
    RunSound(trace, ops, k);
    FollowsOk(trace[k], ops[k], trace[k + 1]);
  }

  // ----- what a user can rely on over a run

  ghost predicate Touches(op: Op, i: nat) {
    (op.Put? && op.i == i) || (op.Erase? && op.i == i)
  }

  lemma SpecFrame(a: seq<Node>, op: Op, done: bool, b: seq<Node>, i: nat)
    requires Spec(a, op, done, b) && i < |a| && a[i].Plain? && !Touches(op, i)
    ensures i < |b| && b[i] == a[i]
  {
    hide FindName, Cut, Stored;
  }

  /** A file keeps its bytes for as long as nobody writes or unlinks it, whatever else happens. */
  lemma {:induction false} Untouched(trace: seq<State>, ops: seq<Op>, i: nat, j: nat, k: nat)
    requires IsRun(trace, ops) && Sound(trace[0]) && j <= k <= |ops|
    requires forall m :: j <= m < k ==> !Touches(ops[m], i)
    requires FilesOk(trace[j].v) && i < |View(trace[j].v)| && View(trace[j].v)[i].Plain?
    ensures FilesOk(trace[k].v) && i < |View(trace[k].v)| && View(trace[k].v)[i] == View(trace[j].v)[i]
    decreases k - j
  {
    hide Sound, Follows, FilesOk, Spec, View, Touches;
    if j < k {
      Untouched(trace, ops, i, j, k - 1);
      RunRefines(trace, ops, k - 1);
      SpecFrame(View(trace[k - 1].v), ops[k - 1], Succeeds(trace[k - 1], ops[k - 1]), View(trace[k].v), i);
    }
  }

  /** What was written stays readable: the bytes of a write, over the old ones, until the file is touched again. */
  lemma ReadBack(trace: seq<State>, ops: seq<Op>, i: nat, j: nat, k: nat)
    requires IsRun(trace, ops) && Sound(trace[0]) && j < k <= |ops|
    requires ops[j].Put? && ops[j].i == i && Ready(trace[j], ops[j]) && Succeeds(trace[j], ops[j])
    requires forall m :: j < m < k ==> !Touches(ops[m], i)
    ensures FilesOk(trace[j].v) && FilesOk(trace[k].v)
    ensures i < |View(trace[j].v)| && View(trace[j].v)[i].Plain? && i < |View(trace[k].v)|
    ensures var c := View(trace[j].v)[i].content;
            View(trace[k].v)[i] == Plain(Overlay(c, if ops[j].append then |c| else ops[j].kiPos, ops[j].data))
  {
    hide Sound, Follows, FilesOk, View, Overlay, Touches;
    RunRefines(trace, ops, j);
    Untouched(trace, ops, i, j + 1, k);
  }

  ghost predicate AllDistinct(a: seq<Node>) {
    forall d :: 0 <= d < |a| && a[d].Dir? ==> Distinct(a[d].entries)
  }

  /** The name as it will be stored is already listed, by an entry other than the one being renamed. */
  ghost predicate Clash(a: seq<Node>, op: Op) {
    match op
    case Make(d, name, dir) => d < |a| && a[d].Dir? && Lists(a[d].entries, Stored(name))
    case Move(d, before, d2, after, i) =>
      && d2 < |a| && a[d2].Dir? && Lists(a[d2].entries, Stored(after))
      && (d == d2 ==> Stored(after) != Cut(before))
    case _ => false
  }

  predicate Lists(l: seq<Entry>, name: seq<Byte>) {
    FindName(l, name) < |l|
  }

  /** Names stay distinct exactly if the operation was refused or the stored name was not listed by another entry. */
  lemma SpecDistinct(a: seq<Node>, op: Op, done: bool, b: seq<Node>)
    requires Spec(a, op, done, b) && AllDistinct(a)
    ensures AllDistinct(b) <==> b == a || !Clash(a, op)
  {
    hide Spec, Clash, AllDistinct;
    if b != a {
      match op {
        case Make(d, name, dir) => MakeDistinct(a, op, done, b);
        case Put(i, kiPos, append, data) => PutDistinct(a, op, done, b);
        case Erase(d, i) => RemoveDistinct(a, op, done, b);
        case EraseDir(d, i) => RemoveDistinct(a, op, done, b);
        case Move(d, before, d2, after, i) =>
          if d == d2 {
            InPlaceDistinct(a, op, done, b);
          } else {
            AwayDistinct(a, op, done, b);
          }
      }
    }
  }

  lemma DistinctAdd(l: seq<Entry>, e: Entry)
    requires Distinct(l)
    ensures Distinct(l + [e]) <==> !Lists(l, e.name)
  {
    hide FindName;
    var f := FindName(l, e.name);
    if f < |l| {
      assert (l + [e])[f].name == (l + [e])[|l|].name;
    }
  }

  lemma DistinctRename(l: seq<Entry>, f: nat, e: Entry)
    requires Distinct(l) && f < |l|
    ensures Distinct(l[f := e]) <==> !(Lists(l, e.name) && l[f].name != e.name)
  {
    hide FindName;
    var k := FindName(l, e.name);
    if k < |l| && k != f {
      assert l[f := e][k].name == l[f := e][f].name;
    }
  }

  lemma MakeDistinct(a: seq<Node>, op: Op, done: bool, b: seq<Node>)
    requires op.Make? && Spec(a, op, done, b) && AllDistinct(a) && b != a
    ensures AllDistinct(b) <==> !Clash(a, op)
  {
    hide Lists, Stored, Distinct;
    var i: nat :| Made(a, op.d, op.name, op.dir, b, i);
    DistinctAdd(a[op.d].entries, Entry(i, Stored(op.name)));
    DistinctNone();
    assert b[op.d].Dir?;
  }

  lemma DistinctNone()
    ensures Distinct([])
  {
  }

  lemma PutDistinct(a: seq<Node>, op: Op, done: bool, b: seq<Node>)
    requires op.Put? && Spec(a, op, done, b) && AllDistinct(a)
    ensures AllDistinct(b) && !Clash(a, op)
  {
    hide Overlay, Distinct;
  }

  lemma RemoveDistinct(a: seq<Node>, op: Op, done: bool, b: seq<Node>)
    requires (op.Erase? || op.EraseDir?) && Spec(a, op, done, b) && AllDistinct(a)
    ensures AllDistinct(b) && !Clash(a, op)
  {
  }

  lemma DistinctWithout(l: seq<Entry>, f: nat)
    requires Distinct(l) && f < |l|
    ensures Distinct(Without(l, f))
  {
  }

  lemma InPlaceDistinct(a: seq<Node>, op: Op, done: bool, b: seq<Node>)
    requires op.Move? && op.d == op.d2 && Spec(a, op, done, b) && AllDistinct(a) && b != a
    ensures AllDistinct(b) <==> !Clash(a, op)
  {
    hide FindName, Cut, Stored, Distinct, Lists;
    var f: nat :| RenamedAt(a, op.d, op.before, op.d2, op.after, op.i, b, f);
    DistinctRename(a[op.d].entries, f, Entry(a[op.d].entries[f].ino, Stored(op.after)));
    assert b[op.d].Dir?;
  }

  lemma AwayDistinct(a: seq<Node>, op: Op, done: bool, b: seq<Node>)
    requires op.Move? && op.d != op.d2 && Spec(a, op, done, b) && AllDistinct(a) && b != a
    ensures AllDistinct(b) <==> !Clash(a, op)
  {
    hide FindName, Cut, Stored, Distinct, Lists;
    var f: nat :| RenamedAt(a, op.d, op.before, op.d2, op.after, op.i, b, f);
    DistinctWithout(a[op.d].entries, f);
    DistinctAdd(a[op.d2].entries, Entry(op.i, Stored(op.after)));
    assert b[op.d2].Dir?;
  }

  /** A 28-character name that no lookup finds, and whose creation still makes the directory list a name twice. */
  lemma NameCutShort()
    ensures var name := seq(NAME_LEN, _ => 97);
            var a := [Absent, Dir([Entry(2, Stored(name))]), Plain([]), Absent];
            var b := [Absent, Dir([Entry(2, Stored(name)), Entry(3, Stored(name))]), Plain([]), Plain([])];
            && ValidName(name) && !Lists(a[1].entries, name) && AllDistinct(a)
            && Spec(a, Make(1, name, false), true, b) && !AllDistinct(b)
  {
    var name: seq<Byte> := seq(NAME_LEN, _ => 97);
    var s := Stored(name);
    var a := [Absent, Dir([Entry(2, s)]), Plain([]), Absent];
    var b := [Absent, Dir([Entry(2, s), Entry(3, s)]), Plain([]), Plain([])];
    assert |s| != |name|;
    assert [Entry(2, s)] + [Entry(3, s)] == [Entry(2, s), Entry(3, s)];
    assert b == a[3 := Plain([])][1 := Dir(a[1].entries + [Entry(3, s)])];
    assert Made(a, 1, name, false, b, 3);
    assert b[1].entries[0].name == b[1].entries[1].name && b[1].Dir?;
  }

  /** Step j listed no name that another entry has. */
  ghost predicate NoClash(trace: seq<State>, ops: seq<Op>, j: nat)
    requires j < |ops| && |trace| == |ops| + 1
  {
    FilesOk(trace[j].v) && FilesOk(trace[j + 1].v) &&
    (View(trace[j + 1].v) == View(trace[j].v) || !Clash(View(trace[j].v), ops[j]))
  }

  ghost predicate NamesOk(s: State) {
    FilesOk(s.v) && AllDistinct(View(s.v))
  }

  lemma StepDistinct(trace: seq<State>, ops: seq<Op>, k: nat)
    requires IsRun(trace, ops) && Sound(trace[0]) && k < |ops| && NamesOk(trace[k])
    ensures NamesOk(trace[k + 1]) <==> NoClash(trace, ops, k)
  {
    hide Sound, Follows, FilesOk, View, Spec, AllDistinct, Clash, Succeeds, Ready;
    RunRefines(trace, ops, k);
    SpecDistinct(View(trace[k].v), ops[k], Succeeds(trace[k], ops[k]), View(trace[k + 1].v));
  }

  /** Names are distinct in every directory all along a run exactly if no step that took effect had a clashing name. */
  lemma {:induction false} RunDistinct(trace: seq<State>, ops: seq<Op>, k: nat)
    requires IsRun(trace, ops) && Sound(trace[0]) && k <= |ops| && NamesOk(trace[0])
    ensures (forall j :: 0 <= j <= k ==> NamesOk(trace[j])) <==> (forall j :: 0 <= j < k ==> NoClash(trace, ops, j))
  {
    hide Sound, Follows, NamesOk, NoClash;
    if k > 0 {
      RunDistinct(trace, ops, k - 1);
      if NamesOk(trace[k - 1]) {
        StepDistinct(trace, ops, k - 1);
      }
    }
  }
}
