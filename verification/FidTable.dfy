/** File ids: a stack of free ids, and for every id whether its slot is in use, the id its metadata
    carry (-1 once it is freed), and whether an unlink by another client is pending. A pending unlink
    is processed when the metadata are looked up, also by the deletion that is going on. The metadata
    are zero at first, so those of id 0 carry their own id before there is any file. */
module FidTable {
  import opened Common

  /** The free ids, the top of the stack last, and the state of every id. */
  datatype Ids = Ids(free: seq<int>, used: seq<bool>, meta: seq<int>, pend: seq<bool>)

  /** All ids are free, with 0 on top. */
  ghost predicate Untouched(n: nat, s: Ids) { |s.free| == n > 0 && s.free[n - 1] == 0 }

  predicate Sized(n: nat, s: Ids) { |s.used| == |s.meta| == |s.pend| == n }

  /** Ids other than x, each once. */
  ghost predicate Stacked(n: nat, free: seq<int>, x: int) {
    && |free| <= n && (forall i :: 0 <= i < |free| ==> 0 <= free[i] < n && free[i] != x)
    && (forall i, j :: 0 <= i < j < |free| ==> free[i] != free[j])
  }

  /** Every id but x, that of a deletion that is going on, is either free, and on the stack once, or
      in use with its own metadata; before the first file, id 0 can be free with its own metadata. */
  ghost predicate Sane(n: nat, s: Ids, x: int) {
    && Sized(n, s) && Stacked(n, s.free, x)
    && (forall f :: 0 <= f < n && f != x ==> (f in s.free <==> !s.used[f]))
    && (forall f :: 0 <= f < n && f != x && s.used[f] ==> s.meta[f] == f)
    && (forall f :: 0 <= f < n && f != x && !s.used[f] && s.meta[f] == f ==> f == 0 && Untouched(n, s))
    && (forall f :: 0 <= f < n && s.pend[f] ==> s.meta[f] == f)
  }

  /** The state in which a lookup or deletion of an id may come: of an id in use it may be going on. */
  ghost predicate Ready(n: nat, s: Ids, f: int) {
    if 0 <= f < n == |s.meta| && s.meta[f] == f && f !in s.free then Sane(n, s, f) else Sane(n, s, -1)
  }

  /** The top id goes into use. */
  function Taken(n: nat, s: Ids, f: int): Ids
    requires Sized(n, s) && 0 <= f < n && s.free != []
  {
    Ids(s.free[..|s.free| - 1], s.used[f := true], s.meta[f := f], s.pend[f := false])
  }

  /** The id is free, and on the stack. */
  function Deleted(n: nat, s: Ids, f: int): Ids
    requires Sized(n, s) && 0 <= f < n
  {
    Ids(Pushed(s.free, f), s.used[f := false], s.meta[f := -1], s.pend[f := false])
  }

  function Pushed(free: seq<int>, f: int): seq<int> { if f in free then free else free + [f] }

  lemma TakenSane(n: nat, s: Ids, f: int)
    requires Sane(n, s, -1) && s.free != [] && f == s.free[|s.free| - 1]
    ensures 0 <= f < n && !s.used[f] && s.free == Taken(n, s, f).free + [f] && Sane(n, Taken(n, s, f), -1)
  {
    TopGone(n, s.free);
    assert f in s.free;
    var t := Taken(n, s, f);
    forall g | 0 <= g < n && g != f && !t.used[g] ensures t.meta[g] != g {
      assert s.meta[g] == g ==> g == 0 && Untouched(n, s);
    }
  }

  /** Deleting a new file gives its id back: the same ids are free, in the same order, and in use. */
  lemma TakenDeleted(n: nat, s: Ids, f: int)
    requires Sane(n, s, -1) && s.free != [] && f == s.free[|s.free| - 1]
    ensures 0 <= f < n && Sized(n, Taken(n, s, f))
    ensures
      var t := Deleted(n, Taken(n, s, f), f);
      t.free == s.free && t.used == s.used && !t.pend[f] && t.meta[f] == -1
  {
    TakenSane(n, s, f);
    assert f !in Taken(n, s, f).free;
    assert s.used[f := true][f := false] == s.used;
  }

  lemma TopGone(n: nat, free: seq<int>)
    requires free != [] && Stacked(n, free, -1)
    ensures Stacked(n, free[..|free| - 1], -1)
    ensures forall g :: g in free[..|free| - 1] <==> g in free && g != free[|free| - 1]
    ensures free == free[..|free| - 1] + [free[|free| - 1]]
  {
    assert free == free[..|free| - 1] + [free[|free| - 1]];
  }

  lemma InProgress(n: nat, s: Ids, f: int)
    requires Sane(n, s, -1)
    ensures Ready(n, s, f)
  {
  }

  lemma ClearedReady(n: nat, s: Ids, f: int)
    requires Ready(n, s, f) && 0 <= f < n
    ensures Ready(n, s.(used := s.used[f := false]), f)
  {
    if s.meta[f] != f || f in s.free { assert s.used[f := false] == s.used; }
  }

  lemma UnmarkedReady(n: nat, s: Ids, f: int)
    requires Ready(n, s, f) && 0 <= f < n
    ensures Ready(n, s.(pend := s.pend[f := false]), f)
  {
  }

  lemma ForgottenSane(n: nat, s: Ids, f: int)
    requires Ready(n, s, f) && 0 <= f < n && s.meta[f] == f && !s.used[f] && !s.pend[f]
    ensures var t := s.(meta := s.meta[f := -1]); if f in s.free then Sane(n, t, -1) && |s.free| == n else Sane(n, t, f)
  {
  }

  lemma PushedSane(n: nat, s: Ids, f: int)
    requires Sane(n, s, f) && 0 <= f < n && f !in s.free && !s.used[f] && s.meta[f] == -1
    ensures |s.free| < n && Sane(n, s.(free := s.free + [f]), -1)
  {
    var t := s.(free := s.free + [f]);
    Room(s.free, n, f);
    assert forall g :: g in t.free <==> g in s.free || g == f;
  }

  lemma MarkedSane(n: nat, s: Ids, f: int)
    requires Sane(n, s, -1) && 0 <= f < n && s.meta[f] == f
    ensures Sane(n, s.(pend := s.pend[f := true]), -1)
  {
  }

  class Table {
    const max: nat
    const entries: array<int>
    var last: nat
    const inUse: array<bool>
    const metaFid: array<int>
    const pending: array<bool>

    ghost predicate Shape()
      reads this
    {
      && entries.Length == inUse.Length == metaFid.Length == pending.Length == max && last <= max
      && inUse != pending
      && entries != metaFid
    }

    ghost function Abs(): Ids
      reads this, entries, inUse, metaFid, pending
      requires Shape()
    {
      Ids(entries[..last], inUse[..], metaFid[..], pending[..])
    }

    ghost predicate Valid()
      reads this, entries, inUse, metaFid, pending
    {
      Shape() && Sane(max, Abs(), -1)
    }

    /** unifyfs_stack_init: all ids are free, the lowest on top; the metadata are zero. */
    constructor (n: nat)
      ensures Valid() && max == n && fresh(entries) && fresh(inUse) && fresh(metaFid) && fresh(pending)
      ensures |Abs().free| == n && forall f :: 0 <= f < n ==> !inUse[f] && metaFid[f] == 0 && !pending[f]
    {
      max, last := n, n;
      entries := new int[n](i => n - 1 - i);
      inUse := new bool[n](i => false);
      metaFid := new int[n](i => 0);
      pending := new bool[n](i => false);
      new;
      NewSane(n, Abs());
    }

    /** unifyfs_fid_create_file, as far as it goes for ids: the top of the stack, or -1 if it is empty. */
    method Create() returns (fid: int)
      requires Valid()
      modifies this`last, inUse, metaFid, pending
      ensures Valid()
      ensures fid == -1 <==> old(Abs()).free == []
      ensures fid == -1 ==> Abs() == old(Abs())
      ensures fid != -1 ==>
        && 0 <= fid < max && old(Abs()).free == Abs().free + [fid] && !old(inUse[fid])
        && Abs() == Taken(max, old(Abs()), fid)
        && inUse[fid] && metaFid[fid] == fid && !pending[fid]
    {
      ghost var s := Abs();
      fid := Pop();
      if s.free != [] { TakenSane(max, s, fid); }
      if fid < 0 { return -1; }
      Enter(fid);
    }

    /** The new file of an id. */
    method Enter(fid: int)
      requires Shape() && 0 <= fid < max
      modifies inUse, metaFid, pending
      ensures Shape()
      ensures
        var s := old(Abs());
        Abs() == s.(used := s.used[fid := true], meta := s.meta[fid := fid], pend := s.pend[fid := false])
    {
      inUse[fid] := true;
      metaFid[fid] := fid;
      pending[fid] := false;
    }

    /** unifyfs_stack_pop */
    method Pop() returns (v: int)
      requires Shape()
      modifies this`last
      ensures
        var s := old(Abs());
        Shape() && if s.free == [] then v == -1 && Abs() == s
          else v == s.free[|s.free| - 1] && Abs() == s.(free := s.free[..|s.free| - 1])
    {
      if last > 0 {
        last := last - 1;
        return entries[last];
      }
      return -1;
    }

    /** unifyfs_stack_push; a full stack stays as it is. */
    method Push(v: int)
      requires Shape()
      modifies this`last, entries
      ensures Shape()
      ensures Abs() == if old(last) < max then old(Abs()).(free := old(Abs()).free + [v]) else old(Abs())
    {
      if last < max {
        entries[last] := v;
        last := last + 1;
      }
    }

    /** unifyfs_get_meta_from_fid: null for an id out of range, and for one it deletes on the way. */
    method GetMeta(fid: int) returns (found: bool)
      requires Shape() && Ready(max, Abs(), fid)
      modifies this`last, entries, inUse, metaFid, pending
      ensures found <==> 0 <= fid < max && !old(metaFid[fid] == fid && pending[fid])
      ensures Shape() && Abs() == if found || !(0 <= fid < max) then old(Abs()) else Deleted(max, old(Abs()), fid)
      ensures !found ==> Valid()
      decreases if 0 <= fid < max && pending[fid] then 1 else 0, 0
    {
      if fid >= 0 && fid < max {
        if fid == metaFid[fid] {
          if pending[fid] {
            UnmarkedReady(max, Abs(), fid);
            pending[fid] := false;
            var ok := Delete(fid);
            return false;
          }
        }
        return true;
      }
      return false;
    }

    /** The unlink callback of the server marks a file that is still there. */
    method UnlinkCallback(fid: int)
      requires Valid()
      modifies this`last, entries, inUse, metaFid, pending
      ensures Valid()
      ensures
        var s := old(Abs());
        Abs() ==
          if !(0 <= fid < max && s.meta[fid] == fid) then s
          else if s.pend[fid] then Deleted(max, s, fid)
          else s.(pend := s.pend[fid := true])
    {
      ghost var s := Abs();
      InProgress(max, s, fid);
      var found := GetMeta(fid);
      if found && fid == metaFid[fid] {
        MarkedSane(max, s, fid);
        pending[fid] := true;
      }
    }

    /** fid_storage_free */
    method StorageFree(fid: int) returns (ok: bool)
      requires Shape() && 0 <= fid < max && !inUse[fid] && Ready(max, Abs(), fid)
      modifies this`last, entries, inUse, metaFid, pending
      ensures ok <==> old(metaFid[fid] == fid && !pending[fid])
      ensures Shape() && if ok then
          && Abs() == old(Abs()).(meta := old(Abs()).meta[fid := -1])
          && (if fid in Abs().free then Valid() && last == max else Sane(max, Abs(), fid))
        else
          Valid() && Abs() == if old(metaFid[fid]) == fid then Deleted(max, old(Abs()), fid) else old(Abs())
      decreases if pending[fid] then 1 else 0, 1
    {
      ghost var s := Abs();
      var found := GetMeta(fid);
      if found && fid == metaFid[fid] {
        ForgottenSane(max, s, fid);
        metaFid[fid] := -1;
        return true;
      }
      return false;
    }

    /** unifyfs_fid_delete. Whether or not an unlink is pending, an id that is in use becomes free and
        is pushed exactly once; with one pending the deletion is done by the lookup, and this one
        reports failure. */
    method Delete(fid: int) returns (ok: bool)
      requires Shape() && 0 <= fid < max && Ready(max, Abs(), fid)
      modifies this`last, entries, inUse, metaFid, pending
      ensures ok <==> old(metaFid[fid] == fid && !pending[fid])
      ensures Valid() && Abs() == if old(metaFid[fid]) == fid then Deleted(max, old(Abs()), fid) else old(Abs())
      decreases if pending[fid] then 1 else 0, 2
    {
      ghost var s := Abs();
      ClearedReady(max, s, fid);
      inUse[fid] := false;
      assert Abs() == s.(used := s.used[fid := false]);
      ok := StorageFree(fid);
      if ok { GiveBack(fid); }
    }

    /** unifyfs_fid_free: there is room on the stack, unless the id is there already. */
    method GiveBack(fid: int)
      requires Shape() && 0 <= fid < max && !inUse[fid] && metaFid[fid] == -1
      requires if fid in Abs().free then Valid() && last == max else Sane(max, Abs(), fid)
      modifies this`last, entries
      ensures Valid() && Abs() == old(Abs()).(free := Pushed(old(Abs()).free, fid))
    {
      ghost var s := Abs();
      if fid !in s.free { PushedSane(max, s, fid); }
      Push(fid);
    }
  }

  lemma NewSane(n: nat, s: Ids)
    requires Sized(n, s) && |s.free| == n && forall f :: 0 <= f < n ==> s.free[f] == n - 1 - f
    requires forall f :: 0 <= f < n ==> !s.used[f] && s.meta[f] == 0 && !s.pend[f]
    ensures Sane(n, s, -1)
  {
    forall f | 0 <= f < n ensures f in s.free {
      assert s.free[n - 1 - f] == f;
    }
  }

  /** A file that another client unlinks is there until it is looked up, which does not find it, and then its
      id is free. */
  method UnlinkedThenLookedUp(t: Table) returns (fid: int, found: bool)
    requires t.Valid() && t.Abs().free != []
    modifies t`last, t.entries, t.inUse, t.metaFid, t.pending
    ensures t.Valid() && 0 <= fid < t.max && !found && fid in t.Abs().free && !t.inUse[fid]
    ensures t.Abs().free == old(t.Abs()).free && t.Abs().used == old(t.Abs()).used
  {
    ghost var s := t.Abs();
    TakenDeleted(t.max, s, s.free[|s.free| - 1]);
    fid := t.Create();
    t.UnlinkCallback(fid);
    assert t.pending[fid] && t.inUse[fid];
    InProgress(t.max, t.Abs(), fid);
    found := t.GetMeta(fid);
  }

  /** Deleting id 0 before there is any file succeeds, and changes no other id. */
  method DeleteNothing(n: nat) returns (t: Table, ok: bool)
    requires n > 0
    ensures ok && t.Valid() && t.max == n == |t.Abs().free| && t.metaFid[0] == -1
  {
    t := new Table(n);
    ghost var s := t.Abs();
    InProgress(n, s, 0);
    assert 0 in s.free;
    ok := t.Delete(0);
  }

  ghost function Elements(s: seq<int>): set<int> { set i | 0 <= i < |s| :: s[i] }

  lemma {:induction false} ElementCount(s: seq<int>)
    requires forall i, j :: 0 <= i < j < |s| ==> s[i] != s[j]
    ensures |Elements(s)| == |s|
  {
    if s == [] {
      assert Elements(s) == {};
    } else {
      var k := s[..|s| - 1];
      ElementCount(k);
      assert Elements(s) == Elements(k) + {s[|s| - 1]};
    }
  }

  /** Distinct ids below n of which one is missing are fewer than n. */
  lemma Room(s: seq<int>, n: nat, x: int)
    requires (forall i, j :: 0 <= i < j < |s| ==> s[i] != s[j]) && (forall i :: 0 <= i < |s| ==> 0 <= s[i] < n)
    requires 0 <= x < n && x !in s
    ensures |s| < n
  {
    ElementCount(s);
    var more := Elements(s) + {x};
    assert more <= UpTo(n);
    assert UpTo(n) == more + (UpTo(n) - more);
  }
}
