/** Whose log an extent lies in.

    The tree keeps one client id per extent, and reads go to the log of that client. Adding an
    extent relabels what it cuts and what it joins, so the ids are exact only while neighbouring
    extents belong to one client. */
module Owners {
  import opened Common
  import opened Extents

  /** The client whose log holds file offset o. */
  function Client(s: seq<Seg>, o: nat): Option<int> {
    if s == [] then None else if Has(s[0], o) then Some(s[0].client) else Client(s[1..], o)
  }

  lemma {:induction false} ClientConcat(a: seq<Seg>, b: seq<Seg>, o: nat)
    ensures Client(a + b, o) == if Client(a, o).Some? then Client(a, o) else Client(b, o)
  {
    if a == [] {
      assert a + b == b;
    } else {
      assert (a + b)[1..] == a[1..] + b;
      ClientConcat(a[1..], b, o);
    }
  }

  lemma {:induction false} ClientAt(s: seq<Seg>, i: nat, o: nat)
    requires Sorted(s) && i < |s| && Has(s[i], o)
    ensures Client(s, o) == Some(s[i].client)
  {
    if i > 0 { ClientAt(s[1..], i - 1, o); }
  }

  lemma {:induction false} ClientNone(s: seq<Seg>, o: nat)
    ensures Client(s, o).None? <==> forall i :: 0 <= i < |s| ==> !Has(s[i], o)
  {
    if s != [] {
      ClientNone(s[1..], o);
      assert forall i :: 1 <= i < |s| ==> s[i] == s[1..][i - 1];
    }
  }

  predicate Cuts(g: Seg, a: Seg) { a.start <= g.end && g.start <= a.end && (a.start < g.start || g.end < a.end) }

  /** Every extent that g cuts or joins belongs to g's client. */
  ghost predicate OneOwner(s: seq<Seg>, g: Seg) {
    forall i :: 0 <= i < |s| && (Cuts(g, s[i]) || Joins(s[i], g) || Joins(g, s[i])) ==> s[i].client == g.client
  }

  ghost predicate OwnersExact(s: seq<Seg>, g: Seg) {
    forall o: nat :: Client(Added(s, g), o) == if Has(g, o) then Some(g.client) else Client(s, o)
  }

  /** The label of g in the glued extents, and of the extent glued to its right. */
  function Label(l: seq<Seg>, g: Seg): int { if l != [] && Joins(l[|l| - 1], g) then l[|l| - 1].client else g.client }

  lemma JoinThrough(p: Seg, g: Seg, x: Seg)
    requires p.start <= p.end && g.start <= g.end && Joins(p, g)
    ensures Joins(p.(end := g.end), x) <==> Joins(g, x)
  {
  }

  lemma LeftOf(l: seq<Seg>, g: Seg, r: seq<Seg>, o: nat)
    requires Fits(l, g, r) && g.start <= o
    ensures Client(l, o).None?
  {
    ClientNone(l, o);
  }

  lemma ClientLast(l: seq<Seg>, o: nat)
    requires l != []
    ensures
      var k, p := l[..|l| - 1], l[|l| - 1];
      Client(l, o) == if Client(k, o).Some? then Client(k, o) else if Has(p, o) then Some(p.client) else None
  {
    var k, p := l[..|l| - 1], l[|l| - 1];
    assert l == k + [p];
    ClientConcat(k, [p], o);
  }

  lemma GlueClient(l: seq<Seg>, g: Seg, r: seq<Seg>, o: nat)
    requires Fits(l, g, r)
    ensures Client(Glue(l, g, r), o) ==
      if Has(g, o) || (r != [] && Joins(g, r[0]) && Has(r[0], o)) then Some(Label(l, g))
      else if Client(l, o).Some? then Client(l, o) else Client(r, o)
  {
    if l != [] && Joins(l[|l| - 1], g) {
      ClientLast(l, o);
      GlueLeftClient(l[..|l| - 1], l[|l| - 1], g, r, o, Glue(l, g, r));
    } else {
      ApartClient(l, g, r, o, Glue(l, g, r));
    }
  }

  lemma ApartClient(l: seq<Seg>, g: Seg, r: seq<Seg>, o: nat, t: seq<Seg>)
    requires Fits(l, g, r) && t == l + GlueRight(g, r)
    ensures Client(t, o) ==
      if Has(g, o) || (r != [] && Joins(g, r[0]) && Has(r[0], o)) then Some(g.client)
      else if Client(l, o).Some? then Client(l, o) else Client(r, o)
  {
    if g.start <= o { LeftOf(l, g, r, o); }
    GlueRightClient(g, r, o);
    ClientConcat(l, GlueRight(g, r), o);
  }

  lemma GlueLeftClient(k: seq<Seg>, p: Seg, g: Seg, r: seq<Seg>, o: nat, t: seq<Seg>)
    requires Fits([], p, r) && Fits([], g, r) && Joins(p, g) && Sorted(k) && (k != [] ==> k[|k| - 1].end < p.start)
    requires t == k + GlueRight(p.(end := g.end), r)
    ensures Client(t, o) ==
      if Has(g, o) || (r != [] && Joins(g, r[0]) && Has(r[0], o)) then Some(p.client)
      else if Client(k, o).Some? then Client(k, o) else if Has(p, o) then Some(p.client) else Client(r, o)
  {
    var q := p.(end := g.end);
    if r != [] { JoinThrough(p, g, r[0]); }
    GlueRightClient(q, r, o);
    ClientConcat(k, GlueRight(q, r), o);
    ClientNone(k, o);
  }

  lemma GlueRightClient(g: Seg, r: seq<Seg>, o: nat)
    requires Fits([], g, r)
    ensures Client(GlueRight(g, r), o) ==
      if Has(g, o) || (r != [] && Joins(g, r[0]) && Has(r[0], o)) then Some(g.client) else Client(r, o)
  {
    assert ([g] + r)[1..] == r;
    if r != [] { ClientNone(r[1..], o); }
  }

  /** Cutting keeps the ids, but for the extent that is cut. */
  lemma {:induction false} BelowClient(s: seq<Seg>, b: nat, c: int, o: nat)
    requires Sorted(s)
    ensures Client(Below(s, b, Some(c)), o) ==
      if b <= o then None
      else if exists i :: 0 <= i < |s| && s[i].start <= o && b <= s[i].end then Some(c)
      else Client(s, o)
  {
    if s == [] {
    } else if s[0].end < b {
      BelowClient(s[1..], b, c, o);
      assert forall i :: 1 <= i < |s| ==> s[i] == s[1..][i - 1];
      assert forall i :: 0 <= i < |s| - 1 ==> s[1..][i] == s[i + 1];
    } else {
      ClientNone(s[1..], o);
      assert s[0] == s[0];
    }
  }

  lemma {:induction false} AboveClient(s: seq<Seg>, e: nat, c: int, o: nat)
    requires Sorted(s)
    ensures Client(Above(s, e, Some(c)), o) ==
      if o <= e then None
      else if exists i :: 0 <= i < |s| && s[i].start <= e && o <= s[i].end then Some(c)
      else Client(s, o)
  {
    if s == [] {
    } else if s[0].end <= e {
      AboveClient(s[1..], e, c, o);
      assert forall i :: 1 <= i < |s| ==> s[i] == s[1..][i - 1];
      assert forall i :: 0 <= i < |s| - 1 ==> s[1..][i] == s[i + 1];
    } else {
      ClientNone(s[1..], o);
      assert s[0].start <= e ==> Above(s, e, Some(c))[1..] == s[1..];
      assert s[0] == s[0];
    }
  }

  /** The extent next to g on the left is whole, or was cut and relabelled. */
  lemma {:induction false} LastBelow(s: seq<Seg>, b: nat, c: int)
    requires Sorted(s)
    ensures
      var l := Below(s, b, Some(c));
      l != [] ==> l[|l| - 1].client == c || exists i :: 0 <= i < |s| && s[i] == l[|l| - 1]
  {
    if s != [] && s[0].end < b {
      LastBelow(s[1..], b, c);
      assert s[0] == s[0];
      assert forall i :: 0 <= i < |s| - 1 ==> s[1..][i] == s[i + 1];
    }
  }

  lemma {:induction false} FirstAbove(s: seq<Seg>, e: nat, c: int)
    requires Sorted(s)
    ensures
      var r := Above(s, e, Some(c));
      r != [] ==> r[0].client == c || exists i :: 0 <= i < |s| && s[i] == r[0]
  {
    if s != [] && s[0].end <= e {
      FirstAbove(s[1..], e, c);
      assert forall i :: 0 <= i < |s| - 1 ==> s[1..][i] == s[i + 1];
    } else if s != [] {
      assert s[0] == s[0];
    }
  }

  lemma OwnLabel(s: seq<Seg>, g: Seg)
    requires Sorted(s) && g.start <= g.end && OneOwner(s, g)
    ensures Label(Below(s, g.start, Some(g.client)), g) == g.client
    ensures
      var r := Above(s, g.end, Some(g.client));
      r != [] && Joins(g, r[0]) ==> r[0].client == g.client
  {
    LastBelow(s, g.start, g.client);
    FirstAbove(s, g.end, g.client);
  }

  /** The extents around g keep the ids they had. */
  lemma OwnCuts(s: seq<Seg>, g: Seg, o: nat)
    requires Sorted(s) && g.start <= g.end && OneOwner(s, g) && !Has(g, o)
    ensures
      var l, r := Below(s, g.start, Some(g.client)), Above(s, g.end, Some(g.client));
      Client(s, o) == if Client(l, o).Some? then Client(l, o) else Client(r, o)
  {
    BelowClient(s, g.start, g.client, o);
    AboveClient(s, g.end, g.client, o);
    if i :| 0 <= i < |s| && Has(s[i], o) {
      ClientAt(s, i, o);
    } else {
      ClientNone(s, o);
    }
  }

  lemma OneOwnerExact(s: seq<Seg>, g: Seg, o: nat)
    requires Sorted(s) && g.start <= g.end && OneOwner(s, g)
    ensures Client(Added(s, g), o) == if Has(g, o) then Some(g.client) else Client(s, o)
  {
    var l, r := Below(s, g.start, Some(g.client)), Above(s, g.end, Some(g.client));
    CutsFit(s, g, Some(g.client));
    OwnLabel(s, g);
    GlueClient(l, g, r, o);
    if !Has(g, o) {
      OwnCuts(s, g, o);
      if r != [] && Has(r[0], o) {
        LeftOf(l, g, r, o);
        ClientAt(r, 0, o);
      }
    }
  }

  lemma {:induction false} EndsBelow(s: seq<Seg>, i: nat, b: nat, c: int)
    requires Sorted(s) && i < |s| && s[i].end + 1 == b
    ensures var l := Below(s, b, Some(c)); l != [] && l[|l| - 1] == s[i]
  {
    if i > 0 {
      EndsBelow(s[1..], i - 1, b, c);
    } else if |s| > 1 {
      assert Below(s[1..], b, Some(c)) == [];
    }
  }

  lemma {:induction false} StartsAbove(s: seq<Seg>, i: nat, e: nat, c: int)
    requires Sorted(s) && i < |s| && s[i].start == e + 1
    ensures var r := Above(s, e, Some(c)); r != [] && r[0] == s[i]
  {
    if i > 0 { StartsAbove(s[1..], i - 1, e, c); }
  }

  /** An extent of another client that g cuts or joins leaves some offset with the wrong id. */
  lemma Mislabelled(s: seq<Seg>, g: Seg, i: nat) returns (o: nat)
    requires Sorted(s) && g.start <= g.end && i < |s| && s[i].client != g.client
    requires Cuts(g, s[i]) || Joins(s[i], g) || Joins(g, s[i])
    ensures Client(Added(s, g), o) != if Has(g, o) then Some(g.client) else Client(s, o)
  {
    var l, r := Below(s, g.start, Some(g.client)), Above(s, g.end, Some(g.client));
    CutsFit(s, g, Some(g.client));
    GlueClient(l, g, r, g.start);
    if Label(l, g) != g.client {
      o := g.start;
    } else if Joins(s[i], g) {
      EndsBelow(s, i, g.start, g.client);
      o := g.start;
    } else if Joins(g, s[i]) {
      StartsAbove(s, i, g.end, g.client);
      o := s[i].start;
      GlueClient(l, g, r, o);
      ClientAt(s, i, o);
    } else {
      o := if s[i].start < g.start then s[i].start else s[i].end;
      GlueClient(l, g, r, o);
      BelowClient(s, g.start, g.client, o);
      AboveClient(s, g.end, g.client, o);
      ClientAt(s, i, o);
    }
  }

  lemma {:induction false} CutAbove(s: seq<Seg>, i: nat, e: nat, c: int)
    requires Sorted(s) && i < |s| && s[i].start <= e < s[i].end
    ensures var r := Above(s, e, Some(c)); r != [] && r[0] == Seg(e + 1, s[i].end, PosIn(s[i], e + 1), c)
  {
    if i > 0 { CutAbove(s[1..], i - 1, e, c); }
  }

  /** The id that g itself gets: that of the extent it continues, or its own. */
  ghost predicate TakesId(s: seq<Seg>, g: Seg, id: int) {
    if exists i :: 0 <= i < |s| && Joins(s[i], g) then exists i :: 0 <= i < |s| && Joins(s[i], g) && s[i].client == id
    else id == g.client
  }

  lemma LabelIs(s: seq<Seg>, g: Seg, id: int)
    requires Sorted(s) && g.start <= g.end && TakesId(s, g, id)
    ensures Label(Below(s, g.start, Some(g.client)), g) == id
  {
    if i :| 0 <= i < |s| && Joins(s[i], g) && s[i].client == id {
      EndsBelow(s, i, g.start, g.client);
    } else {
      LastBelow(s, g.start, g.client);
    }
  }

  /** The ids after an addition. Extent g gets the one of TakesId, and so do the extent behind it that continues
      it in the log, and the rest of one that it cuts, if that does; other rests get the id of g; the other
      extents keep theirs. */
  lemma AddedIds(s: seq<Seg>, g: Seg, id: int, o: nat, i: nat)
    requires Sorted(s) && g.start <= g.end && TakesId(s, g, id) && i < |s|
    ensures Has(g, o) ==> Client(Added(s, g), o) == Some(id)
    ensures Has(s[i], o) && o < g.start ==>
      Client(Added(s, g), o) == Some(if g.start <= s[i].end then g.client else s[i].client)
    ensures Has(s[i], o) && g.end < o && g.end + 1 < s[i].start ==> Client(Added(s, g), o) == Some(s[i].client)
    ensures Has(s[i], o) && g.end < o && s[i].start <= g.end + 1 ==>
      Client(Added(s, g), o) ==
        Some(if PosIn(s[i], g.end + 1) == g.ptr + (g.end - g.start + 1) then id
             else if s[i].start <= g.end then g.client else s[i].client)
  {
    var l, r := Below(s, g.start, Some(g.client)), Above(s, g.end, Some(g.client));
    CutsFit(s, g, Some(g.client));
    LabelIs(s, g, id);
    GlueClient(l, g, r, o);
    if Has(s[i], o) && !Has(g, o) {
      BelowClient(s, g.start, g.client, o);
      AboveClient(s, g.end, g.client, o);
      ClientAt(s, i, o);
      if o < g.start { OnlyOne(s, g, i, o); } else { BehindIds(s, g, i, o, r); }
    }
  }

  lemma OnlyOne(s: seq<Seg>, g: Seg, i: nat, o: nat)
    requires Sorted(s) && i < |s| && Has(s[i], o) && o < g.start
    ensures (exists j :: 0 <= j < |s| && s[j].start <= o && g.start <= s[j].end) <==> g.start <= s[i].end
  {
  }

  lemma BehindIds(s: seq<Seg>, g: Seg, i: nat, o: nat, r: seq<Seg>)
    requires Sorted(s) && g.start <= g.end < o && i < |s| && Has(s[i], o) && r == Above(s, g.end, Some(g.client))
    ensures (exists j :: 0 <= j < |s| && s[j].start <= g.end && o <= s[j].end) <==> s[i].start <= g.end
    ensures s[i].start <= g.end + 1 ==>
      r != [] && r[0].start == g.end + 1 && r[0].end == s[i].end && r[0].ptr == PosIn(s[i], g.end + 1)
    ensures g.end + 1 < s[i].start ==> r != [] && !(Joins(g, r[0]) && Has(r[0], o))
  {
    if s[i].start <= g.end {
      CutAbove(s, i, g.end, g.client);
    } else if s[i].start == g.end + 1 {
      StartsAbove(s, i, g.end, g.client);
    } else {
      FarAbove(s, i, g.end, g.client);
    }
  }

  lemma {:induction false} FarAbove(s: seq<Seg>, i: nat, e: nat, c: int)
    requires Sorted(s) && i < |s| && e + 1 < s[i].start
    ensures var r := Above(s, e, Some(c)); r != [] && (r[0].start == e + 1 ==> r[0].end < s[i].start)
  {
    if i > 0 && s[0].end <= e { FarAbove(s[1..], i - 1, e, c); }
  }

  /** Adding an extent keeps every client id exact if and only if it cuts and joins only extents
      of its own client. */
  lemma OwnersExactly(s: seq<Seg>, g: Seg)
    requires Sorted(s) && g.start <= g.end
    ensures OwnersExact(s, g) <==> OneOwner(s, g)
  {
    if OneOwner(s, g) {
      forall o: nat ensures Client(Added(s, g), o) == if Has(g, o) then Some(g.client) else Client(s, o) {
        OneOwnerExact(s, g, o);
      }
    } else {
      var i :| 0 <= i < |s| && (Cuts(g, s[i]) || Joins(s[i], g) || Joins(g, s[i])) && s[i].client != g.client;
      var o := Mislabelled(s, g, i);
    }
  }

  /** A tree that only one client adds to keeps all its ids, in every run. */
  lemma {:induction false} SingleClient(s: seq<Seg>, g: Seg)
    requires Sorted(s) && g.start <= g.end && forall i :: 0 <= i < |s| ==> s[i].client == g.client
    ensures OwnersExact(s, g) && forall i :: 0 <= i < |Added(s, g)| ==> Added(s, g)[i].client == g.client
  {
    OwnersExactly(s, g);
    AddedSorted(s, g);
    forall i | 0 <= i < |Added(s, g)| ensures Added(s, g)[i].client == g.client {
      var o := Added(s, g)[i].start;
      ClientAt(Added(s, g), i, o);
      OneOwnerExact(s, g, o);
      ClientNone(s, o);
      if j :| 0 <= j < |s| && Has(s[j], o) { ClientAt(s, j, o); }
    }
  }

  /** Client 2 writing the middle of an extent of client 1 makes the rest of it read from client 2's log. */
  lemma WrongLog()
    ensures
      var s := Added([Seg(0, 9, 100, 1)], Seg(3, 5, 0, 2));
      Client([Seg(0, 9, 100, 1)], 0) == Some(1) && Client(s, 0) == Some(2) && Lookup(s, 0) == Some(100)
  {
    var a, g := Seg(0, 9, 100, 1), Seg(3, 5, 0, 2);
    assert Below([a], 3, Some(2)) == [Seg(0, 2, 100, 2)];
    assert Added([a], g)[0] == Seg(0, 2, 100, 2);
  }
}
