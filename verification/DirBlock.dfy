/** Directory blocks: 128 slots of an inode number and a 28-byte name, the used ones forming a prefix. */
module DirBlock {
  import opened Bytes
  import opened Volume
  import opened BigFile
  import opened Chain

  const SLOTS: nat := 128
  const SLOT_SIZE: nat := 32
  const NAME_LEN: nat := 28
  const DOT: Byte := 46

  function SlotIno(b: Block, k: nat): nat
    requires k < SLOTS
  {
    Word(b, 8 * k)
  }

  function SlotName(b: Block, k: nat): (n: seq<Byte>)
    requires k < SLOTS
    ensures |n| == NAME_LEN
  {
    b[SLOT_SIZE * k + 4..SLOT_SIZE * k + 32]
  }

  // ----- C strings

  /** A NUL-free, nonempty name as the VFS passes it. */
  predicate ValidName(name: seq<Byte>) {
    |name| > 0 && forall k :: 0 <= k < |name| ==> name[k] != 0
  }

  /** The characters before the first NUL. */
  function CString(s: seq<Byte>): (c: seq<Byte>)
    ensures |c| <= |s| && (|c| < |s| ==> s[|c|] == 0)
    ensures forall k :: 0 <= k < |c| ==> c[k] == s[k] && c[k] != 0
  {
    if |s| == 0 || s[0] == 0 then [] else [s[0]] + CString(s[1..])
  }

  lemma {:induction false} CStringOf(s: seq<Byte>, name: seq<Byte>)
    requires |name| <= |s| && s[..|name|] == name && (|name| < |s| ==> s[|name|] == 0)
    requires forall k :: 0 <= k < |name| ==> name[k] != 0
    ensures CString(s) == name
  {
    if |name| > 0 {
      assert s[0] == name[0];
      assert s[1..][..|name| - 1] == name[1..];
      CStringOf(s[1..], name[1..]);
    }
  }

  /** strncmp(slot, name, 28) == 0 for a name without NUL: equal up to 28 characters. */
  predicate NameMatches(slot: seq<Byte>, name: seq<Byte>)
    requires |slot| == NAME_LEN
  {
    CString(slot) == if |name| > NAME_LEN then name[..NAME_LEN] else name
  }

  /** strncmp: characters are compared one by one until they differ, both end, or 28 are read. */
  method StrNCmpEqual(slot: seq<Byte>, name: seq<Byte>) returns (equal: bool)
    requires |slot| == NAME_LEN && ValidName(name)
    ensures equal == NameMatches(slot, name)
  {
    var k := 0;
    while k < NAME_LEN
      invariant k <= NAME_LEN && k <= |name|
      invariant slot[..k] == name[..k]
    {
      var c: Byte := if k < |name| then name[k] else 0;
      if slot[k] != c {
        assert CString(slot) != if |name| > NAME_LEN then name[..NAME_LEN] else name;
        return false;
      }
      if c == 0 {
        CStringOf(slot, name);
        return true;
      }
      k := k + 1;
    }
    CStringOf(slot, name[..NAME_LEN]);
    return true;
  }

  /** What strscpy into a 28-byte field keeps of a name. */
  function Stored(name: seq<Byte>): (s: seq<Byte>)
    ensures |s| <= NAME_LEN - 1
  {
    if |name| < NAME_LEN then name else name[..NAME_LEN - 1]
  }

  /** A stored name is found again under the name it was stored for exactly when that has at most 27 characters. */
  lemma StoredIsFound(slot: seq<Byte>, name: seq<Byte>)
    requires |slot| == NAME_LEN && ValidName(name) && CString(slot) == Stored(name)
    ensures NameMatches(slot, name) <==> |name| <= NAME_LEN - 1
  {
  }

  // ----- slots

  /** strscpy(slot name, name, 28): the kept characters and a NUL; the rest of the field stays. */
  function PutName(b: Block, k: nat, name: seq<Byte>): (r: Block)
    requires k < SLOTS
  {
    Splice(b, SLOT_SIZE * k + 4, Stored(name) + [0])
  }

  /** Registering an inode in slot k. */
  function Insert(b: Block, k: nat, ino: nat, name: seq<Byte>): (r: Block)
    requires k < SLOTS && ino < WORD_LIMIT
  {
    PutName(PutWord(b, 8 * k, ino), k, name)
  }

  /** The memmove and memset that take slot f out of the first n slots. */
  function Remove(b: Block, f: nat, n: nat): (r: Block)
    requires f < n <= SLOTS
  {
    b[..SLOT_SIZE * f] + b[SLOT_SIZE * (f + 1)..SLOT_SIZE * n] + Zeros(SLOT_SIZE) + b[SLOT_SIZE * n..]
  }

  /** The 32 bytes of slot k. */
  function Slot(b: Block, k: nat): (s: seq<Byte>)
    requires k < SLOTS
    ensures |s| == SLOT_SIZE
  {
    b[SLOT_SIZE * k..SLOT_SIZE * k + 32]
  }

  lemma SlotParts(b: Block, c: Block, j: nat, k: nat)
    requires j < SLOTS && k < SLOTS && Slot(b, j) == Slot(c, k)
    ensures SlotIno(b, j) == SlotIno(c, k) && SlotName(b, j) == SlotName(c, k)
  {
    assert b[4 * (8 * j)..4 * (8 * j) + 4] == Slot(b, j)[..4];
    assert c[4 * (8 * k)..4 * (8 * k) + 4] == Slot(c, k)[..4];
    assert SlotName(b, j) == Slot(b, j)[4..];
    assert SlotName(c, k) == Slot(c, k)[4..];
  }

  lemma SlotZero(b: Block, k: nat)
    requires k < SLOTS && Slot(b, k) == Zeros(SLOT_SIZE)
    ensures SlotIno(b, k) == 0 && CString(SlotName(b, k)) == []
  {
    assert forall o :: 0 <= o < SLOT_SIZE ==> Slot(b, k)[o] == b[SLOT_SIZE * k + o];
    WordFrame(b, ZeroBlock(), 8 * k);
    WordOfZeros(8 * k);
  }

  lemma RemoveSlot(b: Block, f: nat, n: nat, k: nat)
    requires f < n <= SLOTS && k < SLOTS
    ensures Slot(Remove(b, f, n), k) ==
            if k < f || n <= k then Slot(b, k) else if k < n - 1 then Slot(b, k + 1) else Zeros(SLOT_SIZE)
  {
    var r := Remove(b, f, n);
    var s := if k < f || n <= k then Slot(b, k) else if k < n - 1 then Slot(b, k + 1) else Zeros(SLOT_SIZE);
    forall o | 0 <= o < SLOT_SIZE
      ensures Slot(r, k)[o] == s[o]
    {
      assert Slot(r, k)[o] == r[SLOT_SIZE * k + o];
    }
  }

  lemma InsertSlot(b: Block, k: nat, ino: nat, name: seq<Byte>, j: nat)
    requires k < SLOTS && j < SLOTS && ino < WORD_LIMIT
    ensures j != k ==> Slot(Insert(b, k, ino, name), j) == Slot(b, j)
    ensures j == k ==> SlotIno(Insert(b, k, ino, name), j) == ino
    ensures j == k && ValidName(name) ==> CString(SlotName(Insert(b, k, ino, name), j)) == Stored(name)
  {
    hide Word, PutWord;
    var p := PutWord(b, 8 * k, ino);
    var r := Insert(b, k, ino, name);
    if j != k {
      forall o | 0 <= o < SLOT_SIZE
        ensures Slot(r, j)[o] == Slot(b, j)[o]
      {
        assert Slot(r, j)[o] == r[SLOT_SIZE * j + o];
      }
    } else {
      WordFrame(r, p, 8 * k);
      NameStored(p, k, name);
    }
  }

  lemma NameStored(p: Block, k: nat, name: seq<Byte>)
    requires k < SLOTS
    ensures ValidName(name) ==> CString(SlotName(PutName(p, k, name), k)) == Stored(name)
    ensures forall j :: 0 <= j < SLOTS && j != k ==> Slot(PutName(p, k, name), j) == Slot(p, j)
    ensures SlotIno(PutName(p, k, name), k) == SlotIno(p, k)
  {
    hide Word;
    var r := PutName(p, k, name);
    var m := |Stored(name)|;
    if ValidName(name) {
      assert SlotName(r, k)[..m] == Stored(name);
      assert SlotName(r, k)[m] == 0;
      CStringOf(SlotName(r, k), Stored(name));
    }
    forall j | 0 <= j < SLOTS && j != k
      ensures Slot(r, j) == Slot(p, j)
    {
      forall o | 0 <= o < SLOT_SIZE
        ensures Slot(r, j)[o] == Slot(p, j)[o]
      {
        assert Slot(r, j)[o] == r[SLOT_SIZE * j + o];
      }
    }
    WordFrame(r, p, 8 * k);
  }

  /** An entry byte by byte: the inode number, at most 27 characters and a NUL; every other byte stays. */
  lemma InsertBytes(b: Block, k: nat, ino: nat, name: seq<Byte>, o: nat)
    requires k < SLOTS && ino < WORD_LIMIT && o < BLOCK_SIZE
    ensures var m := if |name| < 28 then |name| else 27;
            Insert(b, k, ino, name)[o] ==
            if 32 * k <= o < 32 * k + 4 then WordBytes(ino)[o - 32 * k]
            else if 32 * k + 4 <= o < 32 * k + 4 + m then name[o - 32 * k - 4]
            else if o == 32 * k + 4 + m then 0
            else b[o]
  {
    hide WordBytes;
    if 32 * k <= o < 32 * k + 4 {
      WordIs(b, 8 * k, ino, o);
    }
  }

  lemma WordIs(b: Block, j: nat, w: nat, o: nat)
    requires j < WORDS_PER_BLOCK && w < WORD_LIMIT && 4 * j <= o < 4 * j + 4
    ensures PutWord(b, j, w)[o] == WordBytes(w)[o - 4 * j]
  {
    hide WordBytes;
  }

  // ----- the listing of a directory

  datatype Entry = Entry(ino: nat, name: seq<Byte>)

  function UsedFrom(b: Block, k: nat): (n: nat)
    requires k <= SLOTS
    ensures k <= n <= SLOTS
    ensures forall j :: k <= j < n ==> SlotIno(b, j) != 0
    ensures n < SLOTS ==> SlotIno(b, n) == 0
    decreases SLOTS - k
  {
    if k == SLOTS || SlotIno(b, k) == 0 then k else UsedFrom(b, k + 1)
  }

  /** The number of slots before the first free one. */
  function Used(b: Block): (n: nat)
    ensures n <= SLOTS
    ensures forall j :: 0 <= j < n ==> SlotIno(b, j) != 0
    ensures n < SLOTS ==> SlotIno(b, n) == 0
  {
    UsedFrom(b, 0)
  }

  /** From the first free slot on every byte is zero. */
  ghost predicate Packed(b: Block) {
    forall k :: Used(b) <= k < SLOTS ==> Slot(b, k) == Zeros(SLOT_SIZE)
  }

  function EntryAt(b: Block, k: nat): Entry
    requires k < SLOTS
  {
    Entry(SlotIno(b, k), CString(SlotName(b, k)))
  }

  /** What the directory contains, in slot order. */
  function Listing(b: Block): (l: seq<Entry>)
    ensures |l| == Used(b)
    ensures forall k :: 0 <= k < |l| ==> l[k] == EntryAt(b, k)
  {
    seq(Used(b), k requires 0 <= k < Used(b) => EntryAt(b, k))
  }

  /** A block whose first n slots are used and whose others are zero. */
  lemma UsedIs(b: Block, n: nat)
    requires n <= SLOTS
    requires forall j :: 0 <= j < n ==> SlotIno(b, j) != 0
    requires forall k :: n <= k < SLOTS ==> Slot(b, k) == Zeros(SLOT_SIZE)
    ensures Used(b) == n && Packed(b)
  {
    hide Word, SlotIno;
    if n < SLOTS {
      SlotZero(b, n);
    }
  }

  /** Creating an entry appends it to the listing and keeps the directory packed. */
  lemma InsertListing(b: Block, ino: nat, name: seq<Byte>)
    requires Packed(b) && Used(b) < SLOTS && 0 < ino < WORD_LIMIT && ValidName(name)
    ensures var r := Insert(b, Used(b), ino, name);
            Packed(r) && Used(r) == Used(b) + 1 && Listing(r) == Listing(b) + [Entry(ino, Stored(name))]
  {
    hide Word, SlotIno, Insert, CString, SlotName;
    var n := Used(b);
    var r := Insert(b, n, ino, name);
    forall j | 0 <= j < SLOTS
      ensures j != n ==> Slot(r, j) == Slot(b, j) && EntryAt(r, j) == EntryAt(b, j)
      ensures j == n ==> EntryAt(r, j) == Entry(ino, Stored(name))
    {
      InsertSlot(b, n, ino, name, j);
      if j != n {
        SlotParts(r, b, j, j);
      }
    }
    forall j | 0 <= j < n + 1
      ensures SlotIno(r, j) != 0
    {
      assert EntryAt(r, j).ino != 0;
    }
    UsedIs(r, n + 1);
  }

  /** Unlinking entry f takes it out of the listing, keeps the order and keeps the directory packed. */
  lemma RemoveListing(b: Block, f: nat)
    requires Packed(b) && f < Used(b)
    ensures var r := Remove(b, f, Used(b));
            Packed(r) && Used(r) == Used(b) - 1 && Listing(r) == Without(Listing(b), f)
  {
    hide Word, SlotIno, Remove, CString, SlotName;
    var n := Used(b);
    var r := Remove(b, f, n);
    forall j | 0 <= j < SLOTS
      ensures j < n - 1 ==> EntryAt(r, j) == EntryAt(b, if j < f then j else j + 1)
      ensures n - 1 <= j ==> Slot(r, j) == Zeros(SLOT_SIZE)
    {
      RemoveSlot(b, f, n, j);
      if j < n - 1 {
        SlotParts(r, b, j, if j < f then j else j + 1);
      }
    }
    forall j | 0 <= j < n - 1
      ensures SlotIno(r, j) != 0
    {
      assert EntryAt(r, j) == EntryAt(b, if j < f then j else j + 1);
    }
    UsedIs(r, n - 1);
  }

  /** Renaming in place changes one name and nothing else. */
  lemma RenameListing(b: Block, f: nat, name: seq<Byte>)
    requires Packed(b) && f < Used(b) && ValidName(name)
    ensures var r := PutName(b, f, name);
            && Packed(r) && Used(r) == Used(b)
            && Listing(r) == Listing(b)[f := Entry(Listing(b)[f].ino, Stored(name))]
  {
    hide Word, SlotIno, PutName, CString, SlotName;
    var n := Used(b);
    var r := PutName(b, f, name);
    NameStored(b, f, name);
    forall j | 0 <= j < SLOTS && j != f
      ensures EntryAt(r, j) == EntryAt(b, j)
    {
      SlotParts(r, b, j, j);
    }
    forall j | 0 <= j < n
      ensures SlotIno(r, j) != 0
    {
      assert j != f ==> EntryAt(r, j) == EntryAt(b, j);
    }
    UsedIs(r, n);
  }

  /** Create then unlink restores the directory block byte for byte. */
  lemma RemoveInsert(b: Block, ino: nat, name: seq<Byte>)
    requires Packed(b) && Used(b) < SLOTS && ino < WORD_LIMIT
    ensures Remove(Insert(b, Used(b), ino, name), Used(b), Used(b) + 1) == b
  {
    hide Word, PutWord;
    var n := Used(b);
    var i := Insert(b, n, ino, name);
    var r := Remove(i, n, n + 1);
    assert Slot(b, n) == Zeros(SLOT_SIZE);
    forall o | 0 <= o < BLOCK_SIZE
      ensures r[o] == b[o]
    {
      if SLOT_SIZE * n <= o < SLOT_SIZE * n + 32 {
        assert Slot(b, n)[o - SLOT_SIZE * n] == b[o];
      }
    }
  }

  // ----- lookup

  /** The first entry with this name. */
  function FindName(l: seq<Entry>, name: seq<Byte>): (r: nat)
    ensures r <= |l|
    ensures r < |l| ==> l[r].name == name
    ensures forall k :: 0 <= k < r ==> l[k].name != name
  {
    if |l| == 0 || l[0].name == name then 0 else 1 + FindName(l[1..], name)
  }

  /** ouichefs_lookup: the inode number, or 0 if no used slot has the name; a name of more than 28 characters is an error. */
  method Lookup(b: Block, name: seq<Byte>) returns (error: Option<Errno>, ino: nat)
    requires ValidName(name)
    ensures error == if |name| > 28 then Some(ENAMETOOLONG) else None
    ensures var l := Listing(b);
            var k := FindName(l, name);
            ino == if |name| <= 28 && k < |l| then l[k].ino else 0
  {
    hide Word, SlotIno, CString, SlotName, UsedFrom;
    if |name| > NAME_LEN {
      return Some(ENAMETOOLONG), 0;
    }
    var i := 0;
    while i < SLOTS
      invariant i <= Used(b)
      invariant forall k :: 0 <= k < i ==> Listing(b)[k].name != name
    {
      if SlotIno(b, i) == 0 {
        break;
      }
      assert i < Used(b);
      var equal := StrNCmpEqual(SlotName(b, i), name);
      if equal {
        FindFirst(Listing(b), name, i);
        return None, SlotIno(b, i);
      }
      i := i + 1;
    }
    FindNone(Listing(b), name);
    return None, 0;
  }

  lemma FindFirst(l: seq<Entry>, name: seq<Byte>, i: nat)
    requires i < |l| && l[i].name == name && forall k :: 0 <= k < i ==> l[k].name != name
    ensures FindName(l, name) == i
  {
  }

  lemma FindNone(l: seq<Entry>, name: seq<Byte>)
    requires forall k :: 0 <= k < |l| ==> l[k].name != name
    ensures FindName(l, name) == |l|
  {
  }

  /** The number of slots in use, as the create loop finds the first free one. */
  method FindFreeSlot(b: Block) returns (i: nat)
    ensures i == Used(b)
  {
    hide Word, SlotIno;
    i := 0;
    while i < SLOTS && SlotIno(b, i) != 0
      invariant i <= SLOTS && UsedFrom(b, 0) == UsedFrom(b, i)
    {
      i := i + 1;
    }
  }

  /** Last slot before the first free one that holds the inode; the number of slots if there is none. */
  function LastWith(b: Block, ino: nat, n: nat): (f: nat)
    requires n <= SLOTS
    ensures f == SLOTS || (f < n && SlotIno(b, f) == ino)
    ensures f == SLOTS ==> forall k :: 0 <= k < n ==> SlotIno(b, k) != ino
    ensures f < SLOTS ==> forall k :: f < k < n ==> SlotIno(b, k) != ino
  {
    if n == 0 then SLOTS
    else if SlotIno(b, n - 1) == ino then n - 1
    else LastWith(b, ino, n - 1)
  }

  /** The search loop of unlink: where the inode is registered, and how many slots are used. */
  method FindInode(b: Block, ino: nat) returns (f: nat, n: nat)
    requires ino != 0
    ensures n == Used(b) && f == LastWith(b, ino, n)
  {
    hide Word, SlotIno;
    f, n := SLOTS, 0;
    while n < SLOTS
      invariant n <= SLOTS && UsedFrom(b, 0) == UsedFrom(b, n) && f == LastWith(b, ino, n)
    {
      if SlotIno(b, n) == ino {
        f := n;
      } else if SlotIno(b, n) == 0 {
        break;
      }
      n := n + 1;
    }
  }

  // ----- reading a directory

  /** A used slot as a directory reader gets it: all 28 bytes of the name field. */
  function RawAt(b: Block, k: nat): (e: Entry)
    requires k < SLOTS
    ensures |e.name| == NAME_LEN
  {
    Entry(SlotIno(b, k), SlotName(b, k))
  }

  /** What a directory reader sees: the two dots, then the used slots. */
  function Emitted(self: nat, parent: nat, b: Block): (all: seq<Entry>)
    ensures |all| == Used(b) + 2
    ensures forall k :: 0 <= k < Used(b) ==> all[k + 2] == RawAt(b, k)
  {
    [Entry(self, [DOT]), Entry(parent, [DOT, DOT])] + seq(Used(b), k requires 0 <= k < Used(b) => RawAt(b, k))
  }

  /** Behind the dots, a reader that stops at the first NUL finds the listing. */
  lemma EmittedListing(self: nat, parent: nat, b: Block, k: nat)
    requires k < Used(b)
    ensures var e := Emitted(self, parent, b)[k + 2];
            Entry(e.ino, CString(e.name)) == Listing(b)[k] && |e.name| == NAME_LEN
  {
    hide Word, SlotIno, CString, SlotName, Used;
  }

  /** The entry at position p of a read: the directory itself, its parent, then the used slots. */
  predicate EmittedIs(self: nat, parent: nat, b: Block, p: nat, e: Entry) {
    if p == 0 then e == Entry(self, [46])
    else if p == 1 then e == Entry(parent, [46, 46])
    else p < SLOTS + 2 && e == Entry(Word(b, 8 * (p - 2)), b[32 * (p - 2) + 4..32 * (p - 2) + 32])
  }

  /** ouichefs_iterate with room for `room` more entries in the caller's buffer. */
  method Iterate(self: nat, parent: nat, b: Block, pos: nat, room: nat) returns (out: seq<Entry>, pos': nat)
    requires Packed(b)
    ensures pos' == if pos >= Used(b) + 2 then pos else if pos + room < Used(b) + 2 then pos + room else Used(b) + 2
    ensures |out| == pos' - pos && forall k :: 0 <= k < |out| ==> EmittedIs(self, parent, b, pos + k, out[k])
    ensures var all := Emitted(self, parent, b);
            var stop := if pos + room < |all| then pos + room else |all|;
            if pos >= |all| then out == [] && pos' == pos else out == all[pos..stop] && pos' == stop
  {
    hide Word, SlotIno, CString, SlotName, Used, Emitted, EmittedIs, Packed;
    ghost var all := Emitted(self, parent, b);
    EmittedAt(self, parent, b);
    EmittedAll(self, parent, b);
    out, pos' := [], pos;
    if pos > SLOTS + 2 {
      return;
    }
    while pos' < 2 && |out| < room
      invariant pos <= pos' && (pos' <= 2 || pos' == pos)
      invariant Progress(all, pos, room, out, pos')
    {
      Grow(all, pos, pos');
      out := out + [if pos' == 0 then Entry(self, [DOT]) else Entry(parent, [DOT, DOT])];
      pos' := pos' + 1;
    }
    if pos' < 2 {
      return;
    }
    var i := pos' - 2;
    while i < SLOTS && SlotIno(b, i) != 0 && |out| < room
      invariant i == pos' - 2 && pos <= pos'
      invariant Progress(all, pos, room, out, pos')
    {
      Grow(all, pos, pos');
      out := out + [RawAt(b, i)];
      pos' := pos' + 1;
      i := i + 1;
    }
  }

  lemma EmittedAll(self: nat, parent: nat, b: Block)
    ensures var all := Emitted(self, parent, b);
            && all[0] == Entry(self, [DOT]) && all[1] == Entry(parent, [DOT, DOT])
            && forall p :: 0 <= p < |all| ==> EmittedIs(self, parent, b, p, all[p])
  {
    hide Word, CString, Used;
  }

  /** Between two turns: the entries from pos to pos' are out, or pos lies behind the end. */
  ghost predicate Progress(all: seq<Entry>, pos: nat, room: nat, out: seq<Entry>, pos': nat) {
    if pos >= |all| then out == [] && pos' == pos
    else pos <= pos' <= |all| && out == all[pos..pos'] && |out| <= room
  }

  lemma Grow(all: seq<Entry>, pos: nat, p: nat)
    ensures pos <= p < |all| ==> all[pos..p + 1] == all[pos..p] + [all[p]]
  {
  }

  lemma EmittedAt(self: nat, parent: nat, b: Block)
    requires Packed(b)
    ensures var all := Emitted(self, parent, b);
            && 2 <= |all| <= SLOTS + 2
            && forall i :: 0 <= i < SLOTS ==>
                 (SlotIno(b, i) == 0 <==> i + 2 >= |all|) && (i + 2 < |all| ==> all[i + 2] == RawAt(b, i))
  {
    hide Word, SlotIno, CString, SlotName, Used, Packed, Emitted, RawAt;
    var all := Emitted(self, parent, b);
    forall i | 0 <= i < SLOTS
      ensures (SlotIno(b, i) == 0 <==> i + 2 >= |all|) && (i + 2 < |all| ==> all[i + 2] == RawAt(b, i))
    {
      UsedSlot(b, i);
    }
  }

  /** In a packed directory a slot is free exactly when it lies behind the used ones. */
  lemma UsedSlot(b: Block, i: nat)
    requires Packed(b) && i < SLOTS
    ensures SlotIno(b, i) == 0 <==> i >= Used(b)
  {
    hide Word, SlotIno;
    if i >= Used(b) {
      SlotZero(b, i);
    }
  }

  /** The position where a read with this much room stops. */
  function ReadStop(pos: nat, room: nat, total: nat): nat {
    if pos >= total then pos else if pos + room < total then pos + room else total
  }

  /** The entries that reads with the given buffer sizes deliver, each resumed where the one before stopped. */
  function ReadAll(all: seq<Entry>, pos: nat, rooms: seq<nat>): seq<Entry>
    decreases |rooms|
  {
    if |rooms| == 0 then []
    else
      var stop := ReadStop(pos, rooms[0], |all|);
      (if pos < stop <= |all| then all[pos..stop] else []) + ReadAll(all, stop, rooms[1..])
  }

  function Sum(rooms: seq<nat>): nat {
    if |rooms| == 0 then 0 else rooms[0] + Sum(rooms[1..])
  }

  /** Reading in pieces of any sizes delivers every entry once and in order, as far as the buffers reach. */
  lemma {:induction false} ReadResumes(all: seq<Entry>, pos: nat, rooms: seq<nat>)
    requires pos <= |all|
    ensures ReadAll(all, pos, rooms) == if pos + Sum(rooms) < |all| then all[pos..pos + Sum(rooms)] else all[pos..]
    decreases |rooms|
  {
    if |rooms| > 0 {
      var stop := ReadStop(pos, rooms[0], |all|);
      var end := if pos + Sum(rooms) < |all| then pos + Sum(rooms) else |all|;
      ReadResumes(all, stop, rooms[1..]);
      assert ReadAll(all, stop, rooms[1..]) == all[stop..end];
      Joined(all, pos, stop, end);
    }
  }

  lemma Joined(all: seq<Entry>, p: nat, q: nat, r: nat)
    requires p <= q <= r <= |all|
    ensures (if p < q then all[p..q] else []) + all[q..r] == all[p..r]
  {
  }

  /** A caller that reads on where the call before stopped, with buffers of any sizes. */
  method ReadDir(self: nat, parent: nat, b: Block, pos: nat, rooms: seq<nat>) returns (out: seq<Entry>, pos': nat)
    requires Packed(b)
    ensures var all := Emitted(self, parent, b);
            && out == ReadAll(all, pos, rooms)
            && |out| == pos' - pos && (forall k :: 0 <= k < |out| ==> EmittedIs(self, parent, b, pos + k, out[k]))
            && (pos <= |all| ==>
                  out == if pos + Sum(rooms) < |all| then all[pos..pos + Sum(rooms)] else all[pos..])
  {
    hide Emitted, EmittedIs, Packed, Used;
    ghost var all := Emitted(self, parent, b);
    out, pos' := [], pos;
    var k: nat := 0;
    while k < |rooms|
      invariant k <= |rooms| && ReadAll(all, pos, rooms) == out + ReadAll(all, pos', rooms[k..])
      invariant pos <= pos' && |out| == pos' - pos
    {
      var more;
      more, pos' := Iterate(self, parent, b, pos', rooms[k]);
      out := out + more;
      assert rooms[k..][1..] == rooms[k + 1..];
      k := k + 1;
    }
    ReadEmitted(self, parent, b, pos, rooms);
    if pos <= |all| {
      ReadResumes(all, pos, rooms);
    }
  }

  lemma ReadEmitted(self: nat, parent: nat, b: Block, pos: nat, rooms: seq<nat>)
    ensures var out := ReadAll(Emitted(self, parent, b), pos, rooms);
            forall k :: 0 <= k < |out| ==> EmittedIs(self, parent, b, pos + k, out[k])
  {
    hide Emitted, EmittedIs, ReadAll, Sum, Used;
    var all := Emitted(self, parent, b);
    EmittedAll(self, parent, b);
    if pos <= |all| {
      ReadResumes(all, pos, rooms);
    } else {
      ReadPast(all, pos, rooms);
    }
  }

  lemma {:induction false} ReadPast(all: seq<Entry>, pos: nat, rooms: seq<nat>)
    requires pos >= |all|
    ensures ReadAll(all, pos, rooms) == []
    decreases |rooms|
  {
    if |rooms| > 0 {
      ReadPast(all, pos, rooms[1..]);
    }
  }
}
