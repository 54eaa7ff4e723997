/** seg_tree.c: the extents of a file in a red-black tree. */
module SegmentTree {
  import opened Common
  import opened Extents
  import opened RedBlack

  // ---------- content and extents ----------

  lemma SegsAt(es: seq<Entry>)
    ensures |Segs(es)| == |es| && forall i :: 0 <= i < |es| ==> Segs(es)[i] == es[i].seg
  {
  }

  lemma OrderedSegs(es: seq<Entry>)
    ensures InOrder(es) <==> Sorted(Segs(es))
  {
    SegsAt(es);
    var s := Segs(es);
    if Sorted(s) {
      assert forall i :: 0 <= i < |es| ==> es[i].seg == s[i];
    }
  }

  /** Extent g fits between the extents before and from place k. */
  ghost predicate FitsAt(s: seq<Seg>, k: nat, g: Seg) {
    k <= |s| && (k > 0 ==> s[k - 1].end < g.start) && (k < |s| ==> g.end < s[k].start)
  }

  lemma FitsOnce(s: seq<Seg>, j: nat, k: nat, g: Seg)
    requires Sorted(s) && g.start <= g.end && FitsAt(s, j, g) && FitsAt(s, k, g)
    ensures j == k
  {
  }

  lemma FitsFree(s: seq<Seg>, k: nat, g: Seg, i: nat)
    requires Sorted(s) && g.start <= g.end && FitsAt(s, k, g) && i < |s|
    ensures Compare(g, s[i]) != 0
  {
    if i < k {
      assert s[i].end <= s[k - 1].end;
    } else {
      assert s[k].start <= s[i].start;
    }
  }

  lemma {:induction false} FitsCuts(s: seq<Seg>, k: nat, g: Seg, who: Option<int>)
    requires Sorted(s) && g.start <= g.end && FitsAt(s, k, g)
    ensures Below(s, g.start, who) == s[..k] && Above(s, g.end, who) == s[k..]
  {
    if s != [] {
      assert s == [s[0]] + s[1..];
      ConsCuts(s[0], s[1..], g.start, who);
      ConsCuts(s[0], s[1..], g.end, who);
      if k > 0 {
        assert s[0].end <= s[k - 1].end;
        FitsCuts(s[1..], k - 1, g, who);
        TailSlices(s, k);
      }
    }
  }

  lemma TailSlices<T>(s: seq<T>, k: nat)
    requires 0 < k <= |s|
    ensures s[..k] == [s[0]] + s[1..][..k - 1] && s[k..] == s[1..][k - 1..]
  {
  }

  // ---------- one round of seg_tree_add ----------

  /** get_non_overlapping_range: the first part of a that b does not cover, if any. */
  function NonOverlapping(a: Seg, b: Seg): Option<(nat, nat)> {
    if a.start < b.start then Some((a.start, b.start - 1))
    else if a.end > b.end then Some((b.end + 1, a.end))
    else None
  }

  /** It is None when b covers a, and else the longest run of uncovered offsets that comes first. */
  lemma FirstUncovered(a: Seg, b: Seg)
    requires a.start <= a.end && b.start <= b.end && Compare(b, a) == 0
    ensures NonOverlapping(a, b).None? <==> forall o: nat :: Has(a, o) ==> Has(b, o)
    ensures NonOverlapping(a, b).Some? ==>
      var (lo, hi) := NonOverlapping(a, b).value;
      && a.start <= lo <= hi <= a.end
      && (forall o: nat :: lo <= o <= hi ==> !Has(b, o))
      && (forall o: nat :: a.start <= o < lo ==> Has(b, o))
      && (hi < a.end ==> Has(b, hi + 1))
  {
    assert Has(a, a.start) && Has(a, a.end);
  }

  /** What is left of extent o around the new extent g: the part found and the rest, or nothing. */
  function Fragments(o: Seg, g: Seg): seq<Seg>
    requires o.start <= o.end && g.start <= g.end && Compare(g, o) == 0
  {
    if o.start < g.start then
      [Seg(o.start, g.start - 1, o.ptr, g.client), Seg(g.start, o.end, o.ptr + (g.start - o.start), g.client)]
    else if g.end < o.end then
      [Seg(g.end + 1, o.end, o.ptr + (g.end + 1 - o.start), g.client)]
    else []
  }

  /** How many times extents still have to be cut for g. */
  ghost function Work(s: seq<Seg>, g: Seg): nat {
    if s == [] then 0
    else Work(s[1..], g) + (if Compare(g, s[0]) != 0 then 0 else if s[0].start < g.start then 2 else 1)
  }

  /** The extents after one round on the k-th. */
  function Cut(s: seq<Seg>, k: nat, g: Seg): seq<Seg>
    requires k < |s| && s[k].start <= s[k].end && g.start <= g.end && Compare(g, s[k]) == 0
  {
    s[..k] + Fragments(s[k], g) + s[k + 1..]
  }

  lemma FragmentsSorted(o: Seg, g: Seg)
    requires o.start <= o.end && g.start <= g.end && Compare(g, o) == 0
    ensures
      var f := Fragments(o, g);
      Sorted(f) && (forall i :: 0 <= i < |f| ==> o.start <= f[i].start && f[i].end <= o.end)
  {
  }

  lemma CutSorted(s: seq<Seg>, k: nat, g: Seg)
    requires Sorted(s) && k < |s| && g.start <= g.end && Compare(g, s[k]) == 0
    ensures Sorted(Cut(s, k, g))
  {
    FragmentsSorted(s[k], g);
    SortedConcat(s[..k], Fragments(s[k], g));
    SortedConcat(s[..k] + Fragments(s[k], g), s[k + 1..]);
  }

  /** A round leaves what lies around g as it was. */
  lemma {:induction false} CutKeeps(s: seq<Seg>, k: nat, g: Seg)
    requires Sorted(s) && k < |s| && g.start <= g.end && Compare(g, s[k]) == 0
    ensures Below(Cut(s, k, g), g.start, Some(g.client)) == Below(s, g.start, Some(g.client))
    ensures Above(Cut(s, k, g), g.end, Some(g.client)) == Above(s, g.end, Some(g.client))
  {
    if k > 0 {
      CutKeeps(s[1..], k - 1, g);
      CutTail(s, k, g);
    } else {
      assert s == [s[0]] + s[1..] && Cut(s, 0, g) == Fragments(s[0], g) + s[1..];
      CutFirst(s[0], s[1..], g, Cut(s, 0, g));
    }
  }

  lemma CutTail(s: seq<Seg>, k: nat, g: Seg)
    requires 0 < k < |s| && s[k].start <= s[k].end && g.start <= g.end && Compare(g, s[k]) == 0
    ensures Cut(s, k, g) != [] && Cut(s, k, g)[0] == s[0] && Cut(s, k, g)[1..] == Cut(s[1..], k - 1, g)
  {
    assert s[1..][..k - 1] == s[..k][1..];
  }

  lemma ConsCuts(x: Seg, r: seq<Seg>, b: nat, who: Option<int>)
    ensures Below([x] + r, b, who) ==
      if x.end < b then [x] + Below(r, b, who)
      else if x.start < b then [Seg(x.start, b - 1, x.ptr, Owner(x, who))]
      else []
    ensures Above([x] + r, b, who) ==
      if x.end <= b then Above(r, b, who)
      else if x.start <= b then [Seg(b + 1, x.end, x.ptr + (b + 1 - x.start), Owner(x, who))] + r
      else [x] + r
  {
    assert ([x] + r)[1..] == r;
  }

  lemma TwoCons<T>(x: T, y: T, r: seq<T>)
    ensures [x, y] + r == [x] + ([y] + r)
  {
  }

  lemma CutFront(o: Seg, r: seq<Seg>, b: nat, e: nat, c: int)
    requires o.start < b <= o.end && b <= e
    ensures
      var x, y := Seg(o.start, b - 1, o.ptr, c), Seg(b, o.end, o.ptr + (b - o.start), c);
      && Below([x, y] + r, b, Some(c)) == Below([o] + r, b, Some(c))
      && Above([x, y] + r, e, Some(c)) == Above([o] + r, e, Some(c))
  {
    var x, y := Seg(o.start, b - 1, o.ptr, c), Seg(b, o.end, o.ptr + (b - o.start), c);
    TwoCons(x, y, r);
    ConsCuts(o, r, b, Some(c));
    ConsCuts(o, r, e, Some(c));
    ConsCuts(x, [y] + r, b, Some(c));
    ConsCuts(x, [y] + r, e, Some(c));
    ConsCuts(y, r, b, Some(c));
    ConsCuts(y, r, e, Some(c));
    assert [x] + [] == [x];
  }

  lemma CutBack(o: Seg, r: seq<Seg>, b: nat, e: nat, c: int)
    requires b <= o.start <= e < o.end
    ensures
      var x := Seg(e + 1, o.end, o.ptr + (e + 1 - o.start), c);
      && Below([x] + r, b, Some(c)) == Below([o] + r, b, Some(c))
      && Above([x] + r, e, Some(c)) == Above([o] + r, e, Some(c))
  {
    var x := Seg(e + 1, o.end, o.ptr + (e + 1 - o.start), c);
    ConsCuts(o, r, b, Some(c));
    ConsCuts(o, r, e, Some(c));
    ConsCuts(x, r, b, Some(c));
    ConsCuts(x, r, e, Some(c));
  }

  lemma CutWhole(o: Seg, r: seq<Seg>, b: nat, e: nat, c: int)
    requires b <= o.start <= o.end <= e
    requires r != [] ==> o.end < r[0].start <= r[0].end
    ensures Below(r, b, Some(c)) == Below([o] + r, b, Some(c))
    ensures Above(r, e, Some(c)) == Above([o] + r, e, Some(c))
  {
    ConsCuts(o, r, b, Some(c));
    ConsCuts(o, r, e, Some(c));
  }

  /** One round on the first extent. */
  lemma CutFirst(o: Seg, r: seq<Seg>, g: Seg, t: seq<Seg>)
    requires o.start <= o.end && g.start <= g.end && Compare(g, o) == 0
    requires r != [] ==> o.end < r[0].start <= r[0].end
    requires t == Fragments(o, g) + r
    ensures Below(t, g.start, Some(g.client)) == Below([o] + r, g.start, Some(g.client))
    ensures Above(t, g.end, Some(g.client)) == Above([o] + r, g.end, Some(g.client))
  {
    if o.start < g.start {
      CutFront(o, r, g.start, g.end, g.client);
    } else if g.end < o.end {
      CutBack(o, r, g.start, g.end, g.client);
    } else {
      assert t == r;
      CutWhole(o, r, g.start, g.end, g.client);
    }
  }

  /** A round leaves less work. */
  lemma {:induction false} CutWork(s: seq<Seg>, k: nat, g: Seg)
    requires k < |s| && s[k].start <= s[k].end && g.start <= g.end && Compare(g, s[k]) == 0
    ensures Work(Cut(s, k, g), g) < Work(s, g)
  {
    if k > 0 {
      CutWork(s[1..], k - 1, g);
      CutTail(s, k, g);
    } else {
      var f, r := Fragments(s[0], g), s[1..];
      assert Cut(s, 0, g) == f + r;
      if s[0].start < g.start {
        assert (f + r)[1..] == [f[1]] + r && ([f[1]] + r)[1..] == r;
      } else if g.end < s[0].end {
        assert (f + r)[1..] == r;
      } else {
        assert f + r == r;
      }
    }
  }

  // ---------- one round of seg_tree_remove ----------

  predicate Overlaps(o: Seg, b: nat, e: nat) { o.start <= e && b <= o.end }

  /** What lies outside [b, e] of an extent that overlaps it. */
  function Rest(o: Seg, b: nat, e: nat): seq<Seg>
    requires Overlaps(o, b, e)
  {
    if o.start < b then
      if e < o.end then [o.(end := b - 1), Seg(e + 1, o.end, o.ptr + (e + 1 - o.start), o.client)]
      else [o.(end := b - 1)]
    else if e < o.end then [Seg(e + 1, o.end, o.ptr + (e + 1 - o.start), o.client)]
    else []
  }

  function Pared(s: seq<Seg>, k: nat, b: nat, e: nat): seq<Seg>
    requires k < |s| && Overlaps(s[k], b, e)
  {
    s[..k] + Rest(s[k], b, e) + s[k + 1..]
  }

  /** How many extents overlap [b, e]. */
  ghost function Touched(s: seq<Seg>, b: nat, e: nat): nat {
    if s == [] then 0 else Touched(s[1..], b, e) + if Overlaps(s[0], b, e) then 1 else 0
  }

  lemma PareRest(o: Seg, r: seq<Seg>, b: nat, e: nat, t: seq<Seg>)
    requires Overlaps(o, b, e) && o.start <= o.end && b <= e
    requires r != [] ==> o.end < r[0].start <= r[0].end
    requires t == Rest(o, b, e) + r
    ensures Below(t, b, None) == Below([o] + r, b, None) && Above(t, e, None) == Above([o] + r, e, None)
    ensures Touched(t, b, e) + 1 == Touched([o] + r, b, e)
  {
    assert ([o] + r)[1..] == r;
    ConsCuts(o, r, b, None);
    ConsCuts(o, r, e, None);
    var x := o.(end := if o.start < b then b - 1 else b);
    var y := Seg(e + 1, o.end, o.ptr + (if o.start <= e + 1 then e + 1 - o.start else 0), o.client);
    if o.start < b && e < o.end {
      TwoCons(x, y, r);
      assert ([x] + ([y] + r))[1..] == [y] + r && ([y] + r)[1..] == r;
      ConsCuts(x, [y] + r, b, None);
      ConsCuts(x, [y] + r, e, None);
      ConsCuts(y, r, b, None);
      ConsCuts(y, r, e, None);
    } else if o.start < b {
      assert ([x] + r)[1..] == r;
      ConsCuts(x, r, b, None);
      ConsCuts(x, r, e, None);
    } else if e < o.end {
      assert ([y] + r)[1..] == r;
      ConsCuts(y, r, b, None);
      ConsCuts(y, r, e, None);
    } else {
      assert t == r;
    }
  }

  lemma {:induction false} PareKeeps(s: seq<Seg>, k: nat, b: nat, e: nat)
    requires Sorted(s) && b <= e && k < |s| && Overlaps(s[k], b, e)
    requires forall i :: 0 <= i < k ==> s[i].end < b
    ensures Below(Pared(s, k, b, e), b, None) == Below(s, b, None) &&
      Above(Pared(s, k, b, e), e, None) == Above(s, e, None)
    ensures Touched(Pared(s, k, b, e), b, e) + 1 == Touched(s, b, e)
  {
    if k > 0 {
      PareKeeps(s[1..], k - 1, b, e);
      PareTail(s, k, b, e);
    } else {
      assert s == [s[0]] + s[1..] && Pared(s, k, b, e) == Rest(s[0], b, e) + s[1..];
      PareRest(s[0], s[1..], b, e, Pared(s, k, b, e));
    }
  }

  lemma PareTail(s: seq<Seg>, k: nat, b: nat, e: nat)
    requires 0 < k < |s| && Overlaps(s[k], b, e)
    ensures Pared(s, k, b, e) != [] && Pared(s, k, b, e)[0] == s[0] &&
      Pared(s, k, b, e)[1..] == Pared(s[1..], k - 1, b, e)
  {
    assert s[1..][..k - 1] == s[..k][1..];
  }

  /** Paring an extent leaves gaps, so nothing becomes joinable. */
  lemma PareCanonical(s: seq<Seg>, k: nat, b: nat, e: nat)
    requires Canonical(s) && b <= e && k < |s| && Overlaps(s[k], b, e)
    ensures Canonical(Pared(s, k, b, e))
  {
    var o, f := s[k], Rest(s[k], b, e);
    assert Canonical(f);
    assert Canonical(s[..k]) && Canonical(s[k + 1..]);
    CanonicalConcat(s[..k], f);
    CanonicalConcat(s[..k] + f, s[k + 1..]);
  }

  lemma {:induction false} Untouched(s: seq<Seg>, b: nat, e: nat)
    requires Sorted(s) && b <= e && forall i :: 0 <= i < |s| ==> !Overlaps(s[i], b, e)
    ensures Removed(s, b, e) == s
  {
    if s != [] && s[0].end < b {
      Untouched(s[1..], b, e);
      ConsCuts(s[0], s[1..], b, None);
      assert s == [s[0]] + s[1..];
      ConsCuts(s[0], s[1..], e, None);
    }
  }

  /** An extent that touches nothing is added by itself. */
  lemma AddedApart(s: seq<Seg>, k: nat, g: Seg)
    requires Sorted(s) && g.start <= g.end && FitsAt(s, k, g)
    requires k > 0 ==> !Joins(s[k - 1], g)
    requires k < |s| ==> !Joins(g, s[k])
    ensures Added(s, g) == s[..k] + [g] + s[k..]
  {
    FitsCuts(s, k, g, Some(g.client));
  }

  // ---------- the tree ----------

  function Parts(a: Option<Seg>, b: Option<Seg>): seq<Seg> {
    if a.None? then [] else if b.None? then [a.value] else [a.value, b.value]
  }

  ghost predicate Within(s: seq<Seg>, m: nat) { forall i :: 0 <= i < |s| ==> s[i].end <= m }

  ghost predicate InRange(s: seq<Seg>) {
    Sorted(s) && forall i :: 0 <= i < |s| ==> s[i].end < LIMIT
  }

  lemma InRangeWith(s: seq<Seg>, k: nat, g: Seg)
    requires InRange(s) && g.start <= g.end < LIMIT && FitsAt(s, k, g)
    ensures InRange(s[..k] + [g] + s[k..])
  {
    SortedConcat(s[..k], [g]);
    SortedConcat(s[..k] + [g], s[k..]);
  }

  lemma InRangeWithout(s: seq<Seg>, k: nat)
    requires InRange(s) && k < |s|
    ensures InRange(s[..k] + s[k + 1..])
  {
    SortedConcat(s[..k], s[k + 1..]);
  }

  lemma SegsInsert(es: seq<Entry>, k: nat, e: Entry)
    requires k <= |es|
    ensures Segs(es[..k] + [e] + es[k..]) == Segs(es)[..k] + [e.seg] + Segs(es)[k..]
  {
  }

  lemma SegsRemove(es: seq<Entry>, k: nat)
    requires k < |es|
    ensures Segs(es[..k] + es[k + 1..]) == Segs(es)[..k] + Segs(es)[k + 1..]
  {
  }

  class SegTree {
    const head: RbTree
    var count: nat
    var max: nat

    constructor ()
      ensures Valid() && Extents() == [] && max == 0 && fresh(head)
    {
      head := new RbTree();
      count, max := 0, 0;
    }

    /** The extents in the tree, in order. */
    ghost function Extents(): seq<Seg>
      reads this, head
    {
      Segs(head.Content())
    }

    /** A red-black tree of disjoint extents, holding no node beyond those counted. */
    ghost predicate Sound()
      reads this, head
    {
      && head.Valid() && InRange(Extents())
      && count == |head.Content()| == |head.mem|
    }

    ghost predicate Valid()
      reads this, head
    {
      Sound() && Canonical(Extents()) && Within(Extents(), max)
    }

    /** A new node for an extent that fits at place k. */
    method Put(g: Seg, avoid: Ptr, ghost k: nat)
      requires Sound() && g.start <= g.end < LIMIT && FitsAt(Extents(), k, g)
      modifies this`count, head
      ensures Sound() && Extents() == old(Extents())[..k] + [g] + old(Extents())[k..]
      ensures avoid !in old(head.mem) ==> avoid !in head.mem
    {
      ghost var es := head.Content();
      SegsAt(es);
      var n := head.Alloc(avoid);
      var overlap; ghost var j;
      overlap, j := head.Insert(n, g);
      if overlap != NULL {
        FitsFree(Segs(es), k, g, j);
        assert false;
      }
      FitsOnce(Segs(es), j, k, g);
      count := count + 1;
      SegsInsert(es, k, Entry(n, g));
      InRangeWith(Segs(es), k, g);
    }

    /** RB_REMOVE of the k-th node. */
    method Drop(n: Ptr, ghost k: nat)
      requires Sound() && k < |head.Content()| && head.Content()[k].at == n
      modifies this`count, head
      ensures Sound() && Extents() == old(Extents())[..k] + old(Extents())[k + 1..]
      ensures head.mem.Keys == old(head.mem.Keys) - {n}
      ensures head.Content() == old(head.Content())[..k] + old(head.Content())[k + 1..]
    {
      ghost var es := head.Content();
      head.Remove(n, k);
      count := count - 1;
      SegsRemove(es, k);
      InRangeWithout(Segs(es), k);
    }

    /** The record of the k-th node holds the k-th extent. */
    lemma NodeAt(k: nat)
      requires head.Valid() && k < |head.Content()|
      ensures |Extents()| == |head.Content()|
      ensures head.Content()[k].at != NULL && head.Content()[k].at in head.mem
      ensures head.mem[head.Content()[k].at].seg == head.Content()[k].seg == Extents()[k]
    {
      SegsAt(head.Content());
      HeldEntries(head.mem, head.tree, NULL);
      assert head.Content()[k] in head.Content();
    }

    /** Delete the k-th node and put the parts a and b of its extent, if any, in its place. */
    method Split(overlap: Ptr, a: Option<Seg>, b: Option<Seg>, node: Ptr, ghost k: nat)
      requires Sound() && k < |head.Content()| && head.Content()[k].at == overlap && node !in head.mem
      requires a.Some? ==> head.Content()[k].seg.start <= a.value.start <= a.value.end <= head.Content()[k].seg.end
      requires b.Some? ==> a.Some? && a.value.end < b.value.start <= b.value.end <= head.Content()[k].seg.end
      modifies this`count, head
      ensures k < |old(Extents())| && Sound() && node !in head.mem
      ensures Extents() == old(Extents())[..k] + Parts(a, b) + old(Extents())[k + 1..]
    {
      ghost var s := Extents();
      NodeAt(k);
      Drop(overlap, k);
      SliceDrop(s, k);
      if a.Some? {
        Put(a.value, node, k);
        SlicePut(s[..k], a.value, s[k + 1..]);
        if b.Some? {
          Put(b.value, node, k + 1);
          SlicePair(s[..k], a.value, b.value, s[k + 1..]);
        }
      } else {
        assert s[..k] + [] == s[..k];
      }
    }

    /** One round of the loop of seg_tree_add: cut the k-th extent around the new extent g. */
    method CutAt(overlap: Ptr, g: Seg, node: Ptr, ghost k: nat)
      requires Sound() && k < |head.Content()| && head.Content()[k].at == overlap
      requires g.start <= g.end && Compare(g, head.Content()[k].seg) == 0 && node !in head.mem
      modifies this`count, head
      ensures k < |old(Extents())| && old(Extents())[k].start <= old(Extents())[k].end &&
        Compare(g, old(Extents())[k]) == 0
      ensures Sound() && Extents() == Cut(old(Extents()), k, g) && node !in head.mem
    {
      NodeAt(k);
      var o := head.mem[overlap].seg;
      var resized, remaining := None, None;
      match NonOverlapping(o, g) {
        case None =>
        case Some((a, b)) =>
          resized := Some(Seg(a, b, o.ptr + (a - o.start), g.client));
          if b < o.end {
            remaining := Some(Seg(b + 1, o.end, o.ptr + (b + 1 - o.start), g.client));
          }
      }
      assert Parts(resized, remaining) == Fragments(o, g);
      Split(overlap, resized, remaining, node, k);
    }

    /** Extend the k-th node over the next one, which continues it, and delete that. */
    method Absorb(a: Ptr, b: Ptr, ghost k: nat)
      requires Sound() && k + 1 < |head.Content()| && head.Content()[k].at == a && head.Content()[k + 1].at == b
      modifies this`count, head
      ensures |old(Extents())| == |old(head.Content())|
      ensures
        var s := old(Extents());
        Extents() == s[..k] + [s[k].(end := s[k + 1].end)] + s[k + 2..]
      ensures Sound() && k < |head.Content()| && head.Content()[k].at == a
    {
      ghost var es := head.Content();
      NodeAt(k);
      NodeAt(k + 1);
      if k > 0 { NodeAt(k - 1); }
      var g := head.mem[a].seg.(end := head.mem[b].seg.end);
      head.SetSeg(a, g, k);
      head.Remove(b, k + 1);
      count := count - 1;
      SegsAbsorb(es, k, Entry(a, g));
      InRangeAbsorb(Segs(es), k);
    }

    /** The k-th node, overlap, keeps node from being inserted for g. */
    ghost predicate Blocked(node: Ptr, g: Seg, overlap: Ptr, k: nat)
      reads this, head
    {
      && Sound() && node !in head.mem && k < |head.Content()| && head.Content()[k].at == overlap
      && Compare(g, head.Content()[k].seg) == 0
    }

    /** The node has been inserted for g at place k of es, and is not counted yet. */
    ghost predicate Entered(node: Ptr, g: Seg, k: nat, es: seq<Entry>)
      reads this, head
    {
      && head.Valid() && k <= |es| && head.Content() == es[..k] + [Entry(node, g)] + es[k..]
      && (k > 0 ==> es[k - 1].seg.end < g.start) && (k < |es| ==> g.end < es[k].seg.start)
      && InRange(Segs(es)) && count == |es| && |head.mem| == |es| + 1
    }

    /** RB_INSERT of a node. */
    method Try(node: Ptr, g: Seg) returns (overlap: Ptr, ghost k: nat, ghost es: seq<Entry>)
      requires Sound() && node != NULL && node !in head.mem && g.start <= g.end < LIMIT
      modifies head
      ensures Segs(es) == old(Extents())
      ensures if overlap != NULL then Blocked(node, g, overlap, k) && es == head.Content() else Entered(node, g, k, es)
    {
      es := head.Content();
      overlap, k := head.Insert(node, g);
    }

    /** One round of the loop of seg_tree_add: cuts the overlapping extent, and tries again. */
    method CutRound(node: Ptr, g: Seg, overlap: Ptr, ghost k: nat)
      returns (next: Ptr, ghost j: nat, ghost es: seq<Entry>)
      requires node != NULL && g.start <= g.end < LIMIT && Blocked(node, g, overlap, k)
      modifies this`count, head
      ensures Sorted(old(Extents())) && Sorted(Segs(es)) && Work(Segs(es), g) < Work(old(Extents()), g)
      ensures Below(Segs(es), g.start, Some(g.client)) == Below(old(Extents()), g.start, Some(g.client))
      ensures Above(Segs(es), g.end, Some(g.client)) == Above(old(Extents()), g.end, Some(g.client))
      ensures if next != NULL then Blocked(node, g, next, j) && es == head.Content() else Entered(node, g, j, es)
    {
      ghost var s := Extents();
      NodeAt(k);
      CutSorted(s, k, g);
      CutKeeps(s, k, g);
      CutWork(s, k, g);
      CutAt(overlap, g, node, k);
      next, j, es := Try(node, g);
    }

    /** The loop of seg_tree_add: insert node for g, cutting whatever overlaps it. Returns its place. */
    method Overwrite(node: Ptr, g: Seg) returns (ghost k: nat)
      requires Sound() && node != NULL && node !in head.mem && g.start <= g.end < LIMIT
      modifies this`count, head
      ensures Sound() && k < |head.Content()| && head.Content()[k].at == node
      ensures k == |Below(old(Extents()), g.start, Some(g.client))|
      ensures
        var s := old(Extents());
        Extents() == Below(s, g.start, Some(g.client)) + [g] + Above(s, g.end, Some(g.client))
    {
      ghost var l, r := Below(Extents(), g.start, Some(g.client)), Above(Extents(), g.end, Some(g.client));
      ghost var es;
      var overlap;
      overlap, k, es := Try(node, g);
      while overlap != NULL
        invariant if overlap != NULL then Blocked(node, g, overlap, k) && es == head.Content()
          else Entered(node, g, k, es)
        invariant Below(Segs(es), g.start, Some(g.client)) == l && Above(Segs(es), g.end, Some(g.client)) == r
        decreases if overlap == NULL then 0 else Work(Segs(es), g) + 1
      {
        overlap, k, es := CutRound(node, g, overlap, k);
      }
      CountIn(node, g, k, es);
      FitsCuts(Segs(es), k, g, Some(g.client));
    }

    /** The node that was inserted at place k is counted. */
    method CountIn(node: Ptr, g: Seg, ghost k: nat, ghost es: seq<Entry>)
      requires g.start <= g.end < LIMIT && Entered(node, g, k, es)
      modifies this`count
      ensures Sound() && k < |head.Content()| && head.Content()[k].at == node && |Segs(es)| == |es|
      ensures Extents() == Segs(es)[..k] + [g] + Segs(es)[k..]
      ensures FitsAt(Segs(es), k, g)
    {
      count := count + 1;
      SegsAt(es);
      SegsInsert(es, k, Entry(node, g));
      InRangeWith(Segs(es), k, g);
    }

    /** seg_tree_add: merge the new extent into the one before it, if it continues that. */
    method CoalesceBack(node: Ptr, ghost k: nat) returns (target: Ptr, ghost j: nat)
      requires Sound() && k < |head.Content()| && head.Content()[k].at == node
      modifies this`count, head
      ensures Sound() && |old(Extents())| == |old(head.Content())|
      ensures (Extents(), j) == JoinBack(old(Extents()), k)
      ensures j < |head.Content()| && head.Content()[j].at == target
    {
      target, j := node, k;
      NodeAt(k);
      var prev := head.Prev(target, k);
      if prev != NULL {
        NodeAt(k - 1);
        if Joins(head.mem[prev].seg, head.mem[target].seg) {
          Absorb(prev, target, k - 1);
          target, j := prev, k - 1;
        }
      }
    }

    /** seg_tree_add: merge the extent after the new one into it, if it continues it. */
    method CoalesceForward(target: Ptr, ghost k: nat)
      requires Sound() && k < |head.Content()| && head.Content()[k].at == target
      modifies this`count, head
      ensures Sound() && |old(Extents())| == |old(head.Content())|
      ensures Extents() == JoinForward(old(Extents()), k)
    {
      NodeAt(k);
      var next := head.Next(target, k);
      if next != NULL {
        NodeAt(k + 1);
        if Joins(head.mem[target].seg, head.mem[next].seg) {
          Absorb(target, next, k);
        }
      }
    }

    /** seg_tree_add: [start, end] is stored from log position ptr on. */
    method Add(start: nat, end: nat, ptr: nat, client: int)
      requires Valid() && start <= end < LIMIT
      modifies this, head
      ensures Valid()
      ensures Extents() == Added(old(Extents()), Seg(start, end, ptr, client))
      ensures max == if old(max) < end then end else old(max)
    {
      var g := Seg(start, end, ptr, client);
      ghost var s := Extents();
      var node := head.Alloc(NULL);
      ghost var k := Overwrite(node, g);
      if max < end {
        max := end;
      }
      var target;
      target, k := CoalesceBack(node, k);
      CoalesceForward(target, k);
      JoinsGlue(Below(s, start, Some(client)), g, Above(s, end, Some(client)));
      AddedCanonical(s, g);
      AddedEnds(s, g, old(max));
    }

    /** seg_tree_find_nolock: the first extent that overlaps [b, e], NULL if there is none. */
    method Find(b: nat, e: nat) returns (node: Ptr, ghost k: nat)
      requires Sound() && b <= e && b < LIMIT
      ensures node == NULL ==> forall i :: 0 <= i < |Extents()| ==> !Overlaps(Extents()[i], b, e)
      ensures node != NULL ==>
        && k < |head.Content()| == |Extents()| && head.Content()[k].at == node && Overlaps(Extents()[k], b, e)
        && forall i :: 0 <= i < k ==> Extents()[i].end < b
    {
      ghost var s := Extents();
      SegsAt(head.Content());
      OrderedSegs(head.Content());
      node, k := head.NFind(b);
      assert k > 0 ==> s[k - 1].end < b;
      if node != NULL {
        NodeAt(k);
        if head.mem[node].seg.start > e {
          node := NULL;
        }
      }
    }

    /** seg_tree_iter: the first extent, or the one after the k-th. */
    method Iter(start: Ptr, ghost k: nat) returns (next: Ptr)
      requires Sound() && (start != NULL ==> k < |head.Content()| && head.Content()[k].at == start)
      ensures var j := if start == NULL then 0 else k + 1;
        if j < |head.Content()| then next == head.Content()[j].at && next != NULL else next == NULL
    {
      if start == NULL {
        next := head.Min();
      } else {
        next := head.Next(start, k);
      }
    }

    /** In-place change of the k-th extent to a part of it. */
    method Shrink(node: Ptr, g: Seg, ghost k: nat)
      requires Sound() && k < |head.Content()| == |Extents()| && head.Content()[k].at == node
      requires Extents()[k].start <= g.start <= g.end <= Extents()[k].end
      modifies head
      ensures Sound() && Extents() == old(Extents())[k := g]
    {
      ghost var es := head.Content();
      NodeAt(k);
      if k > 0 { NodeAt(k - 1); }
      if k + 1 < |es| { NodeAt(k + 1); }
      head.SetSeg(node, g, k);
      SegsUpdate(es, k, Entry(node, g));
      InRangeShrink(Segs(es), k, g);
    }

    /** seg_tree_remove of offsets inside the k-th extent: shorten it and add what follows as a new extent. */
    method SplitAround(node: Ptr, o: Seg, b: nat, e: nat, ghost k: nat)
      requires Valid() && b <= e && k < |head.Content()| == |Extents()| && head.Content()[k].at == node
      requires o == Extents()[k] && o.start < b && e < o.end
      modifies this, head
      ensures Valid()
      ensures Extents() == old(Extents())[..k]
        + [o.(end := b - 1), Seg(e + 1, o.end, o.ptr + (e + 1 - o.start), o.client)] + old(Extents())[k + 1..]
      ensures max == old(max)
    {
      ghost var s := Extents();
      var front, after := o.(end := b - 1), Seg(e + 1, o.end, o.ptr + (e + 1 - o.start), o.client);
      ghost var t := s[..k] + [front, after] + s[k + 1..];
      assert Added(s[k := front], after) == t && after.end <= max by { SplitAdded(s, k, b, e, max); }
      assert Canonical(s[k := front]) && Within(s[k := front], max) by { SplitAdded(s, k, b, e, max); }
      Shrink(node, front, k);
      assert Extents() == s[k := front];
      Add(after.start, after.end, after.ptr, after.client);
      assert Extents() == t;
    }

    /** One round of the loop of seg_tree_remove. */
    method PareAt(node: Ptr, b: nat, e: nat, ghost k: nat)
      requires Valid() && b <= e && k < |head.Content()| == |Extents()| && head.Content()[k].at == node
      requires Overlaps(Extents()[k], b, e)
      modifies this, head
      ensures Valid() && Extents() == Pared(old(Extents()), k, b, e) && max == old(max)
    {
      ghost var s := Extents();
      NodeAt(k);
      PareCanonical(s, k, b, e);
      PareWithin(s, k, b, e, max);
      ghost var t := Pared(s, k, b, e);
      var o := head.mem[node].seg;
      if b <= o.start && o.end <= e {
        ParedIs(s, k, b, e, []);
        Drop(node, k);
      } else if b <= o.start || o.end <= e {
        var g := if b <= o.start then Seg(e + 1, o.end, o.ptr + (e + 1 - o.start), o.client) else o.(end := b - 1);
        ParedIs(s, k, b, e, [g]);
        Shrink(node, g, k);
        UpdateSlice(s, k, g);
      } else {
        ParedIs(s, k, b, e, [o.(end := b - 1), Seg(e + 1, o.end, o.ptr + (e + 1 - o.start), o.client)]);
        SplitAround(node, o, b, e, k);
      }
      assert Extents() == t;
    }

    /** seg_tree_remove: no offset in [b, e] is mapped any more. */
    method Remove(b: nat, e: nat)
      requires Valid() && b <= e < LIMIT
      modifies this, head
      ensures Valid() && Extents() == Removed(old(Extents()), b, e) && max == old(max)
    {
      ghost var s := Extents();
      var node;
      ghost var k: nat;
      node, k := Find(b, e);
      while node != NULL
        invariant Valid() && max == old(max) && Removed(Extents(), b, e) == Removed(s, b, e)
        invariant node == NULL ==> forall i :: 0 <= i < |Extents()| ==> !Overlaps(Extents()[i], b, e)
        invariant node != NULL ==>
          && k < |head.Content()| == |Extents()| && head.Content()[k].at == node && Overlaps(Extents()[k], b, e)
          && forall i :: 0 <= i < k ==> Extents()[i].end < b
        decreases Touched(Extents(), b, e)
      {
        PareKeeps(Extents(), k, b, e);
        PareAt(node, b, e, k);
        node, k := Find(b, e);
      }
      Untouched(Extents(), b, e);
    }

    /** seg_tree_clear: walk the tree, deleting each node once its successor is known. */
    method Clear()
      requires Valid()
      modifies this, head
      ensures Valid() && Extents() == [] && (|old(Extents())| > 0 ==> max == 0)
    {
      if head.root == NULL {
        return;
      }
      SegsAt(head.Content());
      var oldnode, node := NULL, NULL;
      node := Iter(NULL, 0);
      while node != NULL
        invariant head.Valid() && Sound()
        invariant oldnode == NULL ==>
          if head.Content() == [] then node == NULL else node == head.Content()[0].at && node != NULL
        invariant oldnode != NULL ==> head.Content() != [] && head.Content()[0].at == oldnode
        invariant oldnode != NULL ==>
          if |head.Content()| > 1 then node == head.Content()[1].at && node != NULL else node == NULL
        decreases |head.Content()| + if oldnode == NULL then 1 else 0
      {
        if oldnode != NULL {
          Drop(oldnode, 0);
        }
        assert head.Content() != [] && head.Content()[0].at == node;
        oldnode := node;
        node := Iter(node, 0);
      }
      if oldnode != NULL {
        Drop(oldnode, 0);
      }
      assert |head.Content()| == 0;
      count, max := 0, 0;
    }
  }

  lemma ParedIs(s: seq<Seg>, k: nat, b: nat, e: nat, f: seq<Seg>)
    requires k < |s| && Overlaps(s[k], b, e) && f == Rest(s[k], b, e)
    ensures Pared(s, k, b, e) == s[..k] + f + s[k + 1..]
    ensures f == [] ==> Pared(s, k, b, e) == s[..k] + s[k + 1..]
  {
    assert s[..k] + [] == s[..k];
  }

  lemma PareWithin(s: seq<Seg>, k: nat, b: nat, e: nat, m: nat)
    requires b <= e && k < |s| && Overlaps(s[k], b, e) && Within(s, m) && s[k].start <= s[k].end
    ensures Within(Pared(s, k, b, e), m)
  {
  }

  lemma SplitAdded(s: seq<Seg>, k: nat, b: nat, e: nat, m: nat)
    requires Canonical(s) && Within(s, m) && k < |s| && s[k].start < b <= e < s[k].end
    ensures
      var front, after := s[k].(end := b - 1), Seg(e + 1, s[k].end, s[k].ptr + (e + 1 - s[k].start), s[k].client);
      && Canonical(s[k := front]) && Within(s[k := front], m) && after.end <= m
      && Added(s[k := front], after) == s[..k] + [front, after] + s[k + 1..]
  {
    var front, after := s[k].(end := b - 1), Seg(e + 1, s[k].end, s[k].ptr + (e + 1 - s[k].start), s[k].client);
    ShrunkCanonical(s, k, b - 1);
    AddedApart(s[k := front], k + 1, after);
    SplitSlice(s, k, front, after);
  }

  lemma ShrunkCanonical(s: seq<Seg>, k: nat, e: nat)
    requires Canonical(s) && k < |s| && s[k].start <= e < s[k].end
    ensures Canonical(s[k := s[k].(end := e)])
    ensures k + 1 < |s| ==> !Joins(s[k], s[k + 1])
  {
  }

  lemma SplitSlice<T>(s: seq<T>, k: nat, x: T, y: T)
    requires k < |s|
    ensures s[k := x][..k + 1] + [y] + s[k := x][k + 1..] == s[..k] + [x, y] + s[k + 1..]
  {
  }

  lemma SegsUpdate(es: seq<Entry>, k: nat, e: Entry)
    requires k < |es|
    ensures Segs(es[k := e]) == Segs(es)[k := e.seg]
  {
  }

  lemma UpdateSlice<T>(s: seq<T>, k: nat, x: T)
    requires k < |s|
    ensures s[k := x] == s[..k] + [x] + s[k + 1..]
  {
  }

  lemma InRangeShrink(s: seq<Seg>, k: nat, g: Seg)
    requires InRange(s) && k < |s| && s[k].start <= g.start <= g.end <= s[k].end
    ensures InRange(s[k := g])
  {
  }

  ghost function JoinBack(s: seq<Seg>, k: nat): (seq<Seg>, nat)
    requires k < |s|
  {
    if k > 0 && Joins(s[k - 1], s[k])
    then (s[..k - 1] + [s[k - 1].(end := s[k].end)] + s[k + 1..], k - 1)
    else (s, k)
  }

  ghost function JoinForward(s: seq<Seg>, k: nat): seq<Seg>
    requires k < |s|
  {
    if k + 1 < |s| && Joins(s[k], s[k + 1]) then s[..k] + [s[k].(end := s[k + 1].end)] + s[k + 2..] else s
  }

  lemma JoinsGlue(l: seq<Seg>, g: Seg, r: seq<Seg>)
    ensures
      var (s, k) := JoinBack(l + [g] + r, |l|);
      k < |s| && JoinForward(s, k) == Glue(l, g, r)
  {
    var t := l + [g] + r;
    SlicePut(l, g, r);
    if l != [] && Joins(l[|l| - 1], g) {
      var q := l[|l| - 1].(end := g.end);
      assert t[..|l| - 1] == l[..|l| - 1];
      JoinGlueRight(l[..|l| - 1], q, r);
    } else {
      JoinGlueRight(l, g, r);
    }
  }

  lemma JoinGlueRight(l: seq<Seg>, g: Seg, r: seq<Seg>)
    ensures JoinForward(l + [g] + r, |l|) == l + GlueRight(g, r)
  {
    var t := l + [g] + r;
    assert t[..|l|] == l;
    if r != [] && Joins(g, r[0]) {
      assert t[|l| + 2..] == r[1..];
    }
  }

  lemma AddedEnds(s: seq<Seg>, g: Seg, m: nat)
    requires Sorted(s) && g.start <= g.end && Within(s, m)
    ensures Within(Added(s, g), if m < g.end then g.end else m)
  {
    AddedSorted(s, g);
    forall i | 0 <= i < |Added(s, g)| ensures Added(s, g)[i].end <= if m < g.end then g.end else m {
      var o := Added(s, g)[i].end;
      LookupAt(Added(s, g), i, o);
      AddedLookup(s, g, o);
      LookupNone(s, o);
    }
  }

  lemma SliceDrop<T>(s: seq<T>, k: nat)
    requires k < |s|
    ensures (s[..k] + s[k + 1..])[..k] == s[..k] && (s[..k] + s[k + 1..])[k..] == s[k + 1..]
  {
  }

  lemma SlicePut<T>(l: seq<T>, x: T, r: seq<T>)
    ensures (l + [x] + r)[..|l| + 1] == l + [x] && (l + [x] + r)[|l| + 1..] == r
  {
  }

  lemma SlicePair<T>(l: seq<T>, x: T, y: T, r: seq<T>)
    ensures (l + [x]) + [y] + r == l + [x, y] + r
  {
  }

  lemma SegsAbsorb(es: seq<Entry>, k: nat, e: Entry)
    requires k + 1 < |es|
    ensures
      var ds := es[k := e];
      Segs(ds[..k + 1] + ds[k + 2..]) == Segs(es)[..k] + [e.seg] + Segs(es)[k + 2..]
  {
  }

  lemma InRangeAbsorb(s: seq<Seg>, k: nat)
    requires InRange(s) && k + 1 < |s|
    ensures InRange(s[..k] + [s[k].(end := s[k + 1].end)] + s[k + 2..])
  {
    var g := s[k].(end := s[k + 1].end);
    SortedConcat(s[..k], [g]);
    SortedConcat(s[..k] + [g], s[k + 2..]);
  }
}
