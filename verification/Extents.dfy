/** Extents of a file and their meaning: which log position holds each file offset.

    A sequence of extents is the in-order content of a segment tree. Its meaning is a
    map from file offset to log position (`Lookup`); the operations of the tree are
    specified here on sequences, by cutting at offsets, and proved exact on it. */
module Extents {
  import opened Common

  /** File offsets [start, end] are stored from log position ptr on, in client's log. */
  datatype Seg = Seg(start: nat, end: nat, ptr: nat, client: int)

  ghost predicate Sorted(s: seq<Seg>) {
    && (forall i :: 0 <= i < |s| ==> s[i].start <= s[i].end)
    && (forall i, j :: 0 <= i < j < |s| ==> s[i].end < s[j].start)
  }

  /** b continues a both in the file and in the log. */
  predicate Joins(a: Seg, b: Seg) {
    a.end + 1 == b.start && a.ptr + (a.end - a.start + 1) == b.ptr
  }

  ghost predicate Canonical(s: seq<Seg>) {
    Sorted(s) && forall i :: 0 <= i < |s| - 1 ==> !Joins(s[i], s[i + 1])
  }

  // ---------- meaning ----------

  predicate Has(g: Seg, o: nat) { g.start <= o <= g.end }

  function PosIn(g: Seg, o: nat): nat
    requires Has(g, o)
  {
    g.ptr + (o - g.start)
  }

  /** The log position of file offset o, if some extent covers it. */
  function Lookup(s: seq<Seg>, o: nat): Option<nat> {
    if s == [] then None else if Has(s[0], o) then Some(PosIn(s[0], o)) else Lookup(s[1..], o)
  }

  lemma {:induction false} LookupConcat(a: seq<Seg>, b: seq<Seg>, o: nat)
    ensures Lookup(a + b, o) == if Lookup(a, o).Some? then Lookup(a, o) else Lookup(b, o)
  {
    if a == [] {
      assert a + b == b;
    } else {
      assert (a + b)[1..] == a[1..] + b;
      LookupConcat(a[1..], b, o);
    }
  }

  /** An offset is mapped exactly by the extent that covers it. */
  lemma {:induction false} LookupAt(s: seq<Seg>, i: nat, o: nat)
    requires Sorted(s) && i < |s| && Has(s[i], o)
    ensures Lookup(s, o) == Some(PosIn(s[i], o))
  {
    if i > 0 { LookupAt(s[1..], i - 1, o); }
  }

  lemma {:induction false} LookupNone(s: seq<Seg>, o: nat)
    ensures Lookup(s, o).None? <==> forall i :: 0 <= i < |s| ==> !Has(s[i], o)
  {
    if s != [] {
      LookupNone(s[1..], o);
      assert forall i :: 1 <= i < |s| ==> s[i] == s[1..][i - 1];
    }
  }

  // ---------- cutting ----------

  function Owner(g: Seg, who: Option<int>): int { if who.None? then g.client else who.value }

  /** The parts of the extents before offset b. A cut extent is relabelled to who, if given. */
  function Below(s: seq<Seg>, b: nat, who: Option<int>): seq<Seg> {
    if s == [] then []
    else if s[0].end < b then [s[0]] + Below(s[1..], b, who)
    else if s[0].start < b then [Seg(s[0].start, b - 1, s[0].ptr, Owner(s[0], who))]
    else []
  }

  /** The parts of the extents after offset e. */
  function Above(s: seq<Seg>, e: nat, who: Option<int>): seq<Seg> {
    if s == [] then []
    else if s[0].end <= e then Above(s[1..], e, who)
    else if s[0].start <= e then [Seg(e + 1, s[0].end, s[0].ptr + (e + 1 - s[0].start), Owner(s[0], who))] + s[1..]
    else s
  }

  lemma {:induction false} BelowSorted(s: seq<Seg>, b: nat, who: Option<int>)
    requires Sorted(s)
    ensures Sorted(Below(s, b, who))
    ensures forall i :: 0 <= i < |Below(s, b, who)| ==> Below(s, b, who)[i].end < b
    ensures s != [] && Below(s, b, who) != [] ==> Below(s, b, who)[0].start == s[0].start
    ensures |Below(s, b, who)| <= |s|
  {
    if s != [] && s[0].end < b { BelowSorted(s[1..], b, who); }
  }

  lemma {:induction false} AboveSorted(s: seq<Seg>, e: nat, who: Option<int>)
    requires Sorted(s)
    ensures Sorted(Above(s, e, who))
    ensures forall i :: 0 <= i < |Above(s, e, who)| ==> e < Above(s, e, who)[i].start
    ensures |Above(s, e, who)| <= |s|
  {
    if s != [] && s[0].end <= e { AboveSorted(s[1..], e, who); }
  }

  lemma {:induction false} BelowLookup(s: seq<Seg>, b: nat, who: Option<int>, o: nat)
    requires Sorted(s)
    ensures Lookup(Below(s, b, who), o) == if o < b then Lookup(s, o) else None
  {
    if s == [] {
    } else if s[0].end < b {
      BelowLookup(s[1..], b, who, o);
    } else {
      LookupNone(s[1..], o);
    }
  }

  lemma {:induction false} AboveLookup(s: seq<Seg>, e: nat, who: Option<int>, o: nat)
    requires Sorted(s)
    ensures Lookup(Above(s, e, who), o) == if e < o then Lookup(s, o) else None
  {
    if s == [] {
    } else if s[0].end <= e {
      AboveLookup(s[1..], e, who, o);
    } else {
      LookupNone(s[1..], o);
      assert s[0].start <= e ==> Above(s, e, who)[1..] == s[1..];
    }
  }

  /** Cutting out the middle can only split one extent in two. */
  lemma {:induction false} CutCount(s: seq<Seg>, b: nat, e: nat, who: Option<int>)
    requires Sorted(s) && b <= e
    ensures |Below(s, b, who)| + |Above(s, e, who)| <= |s| + 1
  {
    if s == [] {
    } else if s[0].end < b {
      CutCount(s[1..], b, e, who);
    } else {
      AboveSorted(s[1..], e, who);
    }
  }

  lemma {:induction false} BelowCanonical(s: seq<Seg>, b: nat, who: Option<int>)
    requires Canonical(s)
    ensures Canonical(Below(s, b, who))
    ensures s != [] && Below(s, b, who) != [] ==>
      Below(s, b, who)[0].(end := 0, client := 0) == s[0].(end := 0, client := 0)
  {
    BelowSorted(s, b, who);
    if s != [] && s[0].end < b {
      BelowCanonical(s[1..], b, who);
    }
  }

  lemma {:induction false} AboveCanonical(s: seq<Seg>, e: nat, who: Option<int>)
    requires Canonical(s)
    ensures Canonical(Above(s, e, who))
  {
    AboveSorted(s, e, who);
    if s != [] && s[0].end <= e {
      AboveCanonical(s[1..], e, who);
    }
  }

  // ---------- gluing ----------

  /** Put g between l and r, extending the last extent of l over g, and the result over the
      first extent of r, where they continue each other. */
  function Glue(l: seq<Seg>, g: Seg, r: seq<Seg>): seq<Seg> {
    if l != [] && Joins(l[|l| - 1], g)
    then l[..|l| - 1] + GlueRight(l[|l| - 1].(end := g.end), r)
    else l + GlueRight(g, r)
  }

  function GlueRight(g: Seg, r: seq<Seg>): seq<Seg> {
    if r != [] && Joins(g, r[0]) then [g.(end := r[0].end)] + r[1..] else [g] + r
  }

  /** l, g and r follow each other without overlap. */
  ghost predicate Fits(l: seq<Seg>, g: Seg, r: seq<Seg>) {
    && Sorted(l) && Sorted(r) && g.start <= g.end
    && (l != [] ==> l[|l| - 1].end < g.start)
    && (r != [] ==> g.end < r[0].start)
  }

  lemma GlueRightLookup(g: Seg, r: seq<Seg>, o: nat)
    requires Fits([], g, r)
    ensures Lookup(GlueRight(g, r), o) == if Has(g, o) then Some(PosIn(g, o)) else Lookup(r, o)
  {
    assert ([g] + r)[1..] == r;
    if r != [] { LookupNone(r[1..], o); }
  }

  lemma GlueLookup(l: seq<Seg>, g: Seg, r: seq<Seg>, o: nat)
    requires Fits(l, g, r)
    ensures Lookup(Glue(l, g, r), o) ==
            if Has(g, o) then Some(PosIn(g, o)) else if Lookup(l, o).Some? then Lookup(l, o) else Lookup(r, o)
  {
    LookupNone(l, o);
    if l != [] && Joins(l[|l| - 1], g) {
      var k, p := l[..|l| - 1], l[|l| - 1];
      GlueRightLookup(p.(end := g.end), r, o);
      LookupConcat(k, GlueRight(p.(end := g.end), r), o);
      assert l == k + [p];
      LookupConcat(k, [p], o);
      LookupNone(k, o);
    } else {
      GlueRightLookup(g, r, o);
      LookupConcat(l, GlueRight(g, r), o);
    }
  }

  lemma SortedConcat(a: seq<Seg>, b: seq<Seg>)
    requires Sorted(a) && Sorted(b)
    requires a != [] && b != [] ==> a[|a| - 1].end < b[0].start
    ensures Sorted(a + b)
  {
    var s := a + b;
    forall i, j | 0 <= i < j < |s| ensures s[i].end < s[j].start {
      if i < |a| <= j {
        assert a[i].end <= a[|a| - 1].end;
        assert b[0].start <= b[j - |a|].start;
      }
    }
  }

  lemma CanonicalConcat(a: seq<Seg>, b: seq<Seg>)
    requires Canonical(a) && Canonical(b)
    requires a != [] && b != [] ==> a[|a| - 1].end < b[0].start && !Joins(a[|a| - 1], b[0])
    ensures Canonical(a + b)
  {
    SortedConcat(a, b);
    forall i | 0 <= i < |a + b| - 1 ensures !Joins((a + b)[i], (a + b)[i + 1]) {
      if i == |a| - 1 { assert (a + b)[i + 1] == b[0]; }
    }
  }

  lemma GlueRightCanonical(g: Seg, r: seq<Seg>)
    requires Fits([], g, r) && Canonical(r)
    ensures Canonical(GlueRight(g, r))
  {
    if r != [] && Joins(g, r[0]) {
      CanonicalConcat([g.(end := r[0].end)], r[1..]);
    } else {
      CanonicalConcat([g], r);
    }
  }

  /** Canonical pieces glued together are canonical. */
  lemma GlueCanonical(l: seq<Seg>, g: Seg, r: seq<Seg>)
    requires Canonical(l) && Canonical(r) && Fits(l, g, r)
    ensures Canonical(Glue(l, g, r))
  {
    if l != [] && Joins(l[|l| - 1], g) {
      GlueRightCanonical(l[|l| - 1].(end := g.end), r);
      CanonicalConcat(l[..|l| - 1], GlueRight(l[|l| - 1].(end := g.end), r));
    } else {
      GlueRightCanonical(g, r);
      CanonicalConcat(l, GlueRight(g, r));
    }
  }

  // ---------- the operations of the tree ----------

  /** Adding extent g overwrites what it covers; the cut extents take g's client. */
  function Added(s: seq<Seg>, g: Seg): seq<Seg> {
    Glue(Below(s, g.start, Some(g.client)), g, Above(s, g.end, Some(g.client)))
  }

  /** Removing offsets [b, e]; the cut extents keep their client. */
  function Removed(s: seq<Seg>, b: nat, e: nat): seq<Seg> {
    Below(s, b, None) + Above(s, e, None)
  }

  lemma CutsFit(s: seq<Seg>, g: Seg, who: Option<int>)
    requires Sorted(s) && g.start <= g.end
    ensures Fits(Below(s, g.start, who), g, Above(s, g.end, who))
  {
    BelowSorted(s, g.start, who);
    AboveSorted(s, g.end, who);
  }

  /** Adding is exact overwriting. */
  lemma AddedLookup(s: seq<Seg>, g: Seg, o: nat)
    requires Sorted(s) && g.start <= g.end
    ensures Lookup(Added(s, g), o) == if Has(g, o) then Some(PosIn(g, o)) else Lookup(s, o)
  {
    CutsFit(s, g, Some(g.client));
    BelowLookup(s, g.start, Some(g.client), o);
    AboveLookup(s, g.end, Some(g.client), o);
    GlueLookup(Below(s, g.start, Some(g.client)), g, Above(s, g.end, Some(g.client)), o);
  }

  /** Adding keeps the extents sorted, disjoint and maximally coalesced. */
  lemma AddedCanonical(s: seq<Seg>, g: Seg)
    requires Canonical(s) && g.start <= g.end
    ensures Canonical(Added(s, g))
  {
    CutsFit(s, g, Some(g.client));
    BelowCanonical(s, g.start, Some(g.client));
    AboveCanonical(s, g.end, Some(g.client));
    GlueCanonical(Below(s, g.start, Some(g.client)), g, Above(s, g.end, Some(g.client)));
  }

  lemma AddedSorted(s: seq<Seg>, g: Seg)
    requires Sorted(s) && g.start <= g.end
    ensures Sorted(Added(s, g))
  {
    var l, r := Below(s, g.start, Some(g.client)), Above(s, g.end, Some(g.client));
    CutsFit(s, g, Some(g.client));
    if l != [] && Joins(l[|l| - 1], g) {
      GlueRightSorted(l[|l| - 1].(end := g.end), r);
      SortedConcat(l[..|l| - 1], GlueRight(l[|l| - 1].(end := g.end), r));
    } else {
      GlueRightSorted(g, r);
      SortedConcat(l, GlueRight(g, r));
    }
  }

  lemma GlueRightSorted(g: Seg, r: seq<Seg>)
    requires Fits([], g, r)
    ensures Sorted(GlueRight(g, r))
  {
    if r != [] && Joins(g, r[0]) {
      SortedConcat([g.(end := r[0].end)], r[1..]);
    } else {
      SortedConcat([g], r);
    }
  }

  /** One write creates at most two new extents. */
  lemma AddedGrowth(s: seq<Seg>, g: Seg)
    requires Sorted(s) && g.start <= g.end
    ensures |Added(s, g)| <= |s| + 2
  {
    CutCount(s, g.start, g.end, Some(g.client));
  }

  /** Removing is exact subtraction from the domain. */
  lemma RemovedLookup(s: seq<Seg>, b: nat, e: nat, o: nat)
    requires Sorted(s) && b <= e
    ensures Lookup(Removed(s, b, e), o) == if b <= o <= e then None else Lookup(s, o)
  {
    BelowLookup(s, b, None, o);
    AboveLookup(s, e, None, o);
    LookupConcat(Below(s, b, None), Above(s, e, None), o);
  }

  lemma RemovedCanonical(s: seq<Seg>, b: nat, e: nat)
    requires Canonical(s) && b <= e
    ensures Canonical(Removed(s, b, e)) && |Removed(s, b, e)| <= |s| + 1
  {
    BelowCanonical(s, b, None);
    AboveCanonical(s, e, None);
    BelowSorted(s, b, None);
    AboveSorted(s, e, None);
    CutCount(s, b, e, None);
    CanonicalConcat(Below(s, b, None), Above(s, e, None));
  }

  // ---------- canonical form ----------

  ghost predicate SamePlaces(s: seq<Seg>, t: seq<Seg>) {
    |s| == |t| && forall i :: 0 <= i < |s| ==> s[i].start == t[i].start && s[i].end == t[i].end && s[i].ptr == t[i].ptr
  }

  /** The first extents of two canonical sequences with the same meaning start together and
      neither ends before the other. */
  lemma HeadsAgree(s: seq<Seg>, t: seq<Seg>)
    requires Canonical(s) && Canonical(t) && s != [] && t != []
    requires forall o: nat :: Lookup(s, o) == Lookup(t, o)
    ensures s[0].start == t[0].start && s[0].ptr == t[0].ptr && s[0].end <= t[0].end
  {
    LookupAt(s, 0, s[0].start);
    LookupAt(t, 0, t[0].start);
    LookupNone(s, t[0].start);
    LookupNone(t, s[0].start);
    if t[0].end < s[0].end {
      // the offset after t[0] is mapped by s[0], so an extent of t would join t[0]
      LookupAt(s, 0, t[0].end + 1);
      LookupNone(t, t[0].end + 1);
      LookupNone(t[1..], t[0].end + 1);
      LookupAt(t, 1, t[0].end + 1);
    }
  }

  /** Canonical extents are determined by their meaning: offsets mapped alike are stored alike,
      whatever operations led there. */
  lemma {:induction false} CanonicalUnique(s: seq<Seg>, t: seq<Seg>)
    requires Canonical(s) && Canonical(t)
    requires forall o: nat :: Lookup(s, o) == Lookup(t, o)
    ensures SamePlaces(s, t)
    decreases |s|
  {
    if s == [] {
      if t != [] { LookupAt(t, 0, t[0].start); }
    } else if t == [] {
      LookupAt(s, 0, s[0].start);
    } else {
      HeadsAgree(s, t);
      HeadsAgree(t, s);
      forall o: nat ensures Lookup(s[1..], o) == Lookup(t[1..], o) {
        LookupNone(s[1..], o);
        LookupNone(t[1..], o);
        assert Lookup(s, o) == Lookup(t, o);
      }
      CanonicalUnique(s[1..], t[1..]);
      assert forall i :: 1 <= i < |s| ==> s[i] == s[1..][i - 1] && t[i] == t[1..][i - 1];
    }
  }
}
