/** The in-memory free bitmaps: one bit per block or inode, set when it is free. */
module Bitmap {

  /** The number of set bits. */
  function Count(f: seq<bool>): nat {
    if |f| == 0 then 0 else Count(f[..|f| - 1]) + (if f[|f| - 1] then 1 else 0)
  }

  lemma {:induction false} CountUpdate(f: seq<bool>, i: nat, x: bool)
    requires i < |f|
    ensures Count(f[i := x]) == Count(f) - (if f[i] then 1 else 0) + (if x then 1 else 0)
  {
    var n := |f| - 1;
    var g := f[i := x];
    if i == n {
      assert g[..n] == f[..n];
    } else {
      assert g[..n] == f[..n][i := x];
      CountUpdate(f[..n], i, x);
    }
  }

  lemma {:induction false} CountPositive(f: seq<bool>)
    ensures Count(f) > 0 <==> exists i :: 0 <= i < |f| && f[i]
    ensures Count(f) <= |f|
  {
    if |f| > 0 {
      var g := f[..|f| - 1];
      CountPositive(g);
      if i :| 0 <= i < |g| && g[i] {
        assert f[i];
      }
      if Count(g) == 0 && Count(f) > 0 {
        assert f[|f| - 1];
      }
      if i :| 0 <= i < |f| && f[i] {
        assert i < |g| ==> g[i];
      }
    }
  }

  /** A bitmap whose set bits are exactly those from `low` on. */
  lemma {:induction false} CountSuffix(f: seq<bool>, low: nat)
    requires low <= |f|
    requires forall i :: 0 <= i < |f| ==> (f[i] <==> low <= i)
    ensures Count(f) == |f| - low
  {
    if |f| > low {
      CountSuffix(f[..|f| - 1], low);
    } else if |f| > 0 {
      CountSuffix(f[..|f| - 1], low - 1);
    }
  }

  /** The first set bit at or after `from`; the length if there is none. */
  function FirstSet(f: seq<bool>, from: nat): (r: nat)
    requires from <= |f|
    ensures from <= r <= |f|
    ensures r < |f| ==> f[r]
    ensures forall j :: from <= j < r ==> !f[j]
    decreases |f| - from
  {
    if from == |f| || f[from] then from else FirstSet(f, from + 1)
  }

  /** get_first_free_bit: the first set bit, now cleared, or 0 if no bit is set. */
  method GetFirstFreeBit(freemap: array<bool>) returns (bit: nat)
    modifies freemap
    ensures var f := old(freemap[..]);
            var r := FirstSet(f, 0);
            if r == |f| then bit == 0 && freemap[..] == f
            else bit == r && freemap[..] == f[r := false]
  {
    var i := 0;
    while i < freemap.Length && !freemap[i]
      invariant i <= freemap.Length
      invariant freemap[..] == old(freemap[..])
      invariant FirstSet(freemap[..], 0) == FirstSet(freemap[..], i)
    {
      i := i + 1;
    }
    if i == freemap.Length {
      return 0;
    }
    freemap[i] := false;
    return i;
  }

  /** put_free_bit: refuses numbers above the size; the caller must not pass the size itself. */
  method PutFreeBit(freemap: array<bool>, i: nat) returns (error: int)
    requires i != freemap.Length
    modifies freemap
    ensures i > freemap.Length ==> error == -1 && freemap[..] == old(freemap[..])
    ensures i < freemap.Length ==> error == 0 && freemap[..] == old(freemap[..])[i := true]
  {
    if i > freemap.Length {
      return -1;
    }
    freemap[i] := true;
    return 0;
  }
}
