/** The red-black tree of tree.h, on an explicit node store.

    A node is an address; the store maps it to its record (links, colour and extent). The
    tree macros are methods that rewrite records one field at a time. What the records say is
    described by a ghost tree seen from a cursor: the subtree at the cursor and the context
    around it, one frame for each ancestor. */
module RedBlack {
  import opened Extents

  type Ptr = nat
  const NULL: Ptr := 0

  datatype Rec = Rec(left: Ptr, right: Ptr, parent: Ptr, red: bool, seg: Seg)
  type Store = map<Ptr, Rec>

  datatype Tree = Leaf | Fork(red: bool, left: Tree, n: Ptr, seg: Seg, right: Tree)

  /** The ancestors of the cursor, nearest first, each with the subtree on its other side. */
  datatype Ctx =
    | Top
    | InLeft(red: bool, n: Ptr, seg: Seg, right: Tree, up: Ctx)
    | InRight(red: bool, left: Tree, n: Ptr, seg: Seg, up: Ctx)

  /** Offsets are unsigned long. */
  const LIMIT: int := 0x1_0000_0000_0000_0000

  ghost function Root(t: Tree): Ptr { if t.Leaf? then NULL else t.n }

  ghost function Parent(c: Ctx): Ptr { if c.Top? then NULL else c.n }

  /** The subtree one level above the cursor. */
  ghost function Up(c: Ctx, t: Tree): Tree
    requires !c.Top?
  {
    if c.InLeft? then Fork(c.red, t, c.n, c.seg, c.right) else Fork(c.red, c.left, c.n, c.seg, t)
  }

  /** The whole tree. */
  ghost function Plug(c: Ctx, t: Tree): Tree
    decreases c
  {
    if c.Top? then t else Plug(c.up, Up(c, t))
  }

  // ---------- content ----------

  datatype Entry = Entry(at: Ptr, seg: Seg)

  ghost function Entries(t: Tree): seq<Entry> {
    if t.Leaf? then [] else Entries(t.left) + [Entry(t.n, t.seg)] + Entries(t.right)
  }

  ghost function Before(c: Ctx): seq<Entry> {
    match c
    case Top => []
    case InLeft(_, _, _, _, up) => Before(up)
    case InRight(_, l, n, s, up) => Before(up) + Entries(l) + [Entry(n, s)]
  }

  ghost function After(c: Ctx): seq<Entry> {
    match c
    case Top => []
    case InLeft(_, n, s, r, up) => [Entry(n, s)] + Entries(r) + After(up)
    case InRight(_, _, _, _, up) => After(up)
  }

  ghost function All(c: Ctx, t: Tree): seq<Entry> { Before(c) + Entries(t) + After(c) }

  lemma FocusEntries(c: Ctx, t: Tree)
    requires !c.Top?
    ensures All(c.up, Up(c, t)) == All(c, t)
  {
    var a, e, u, z := Before(c.up), [Entry(c.n, c.seg)], Entries(t), After(c.up);
    if c.InLeft? {
      MoveLeft(a, u, e, Entries(c.right), z);
    } else {
      MoveRight(a, Entries(c.left), e, u, z);
    }
  }

  lemma MoveLeft<T>(a: seq<T>, u: seq<T>, e: seq<T>, r: seq<T>, z: seq<T>)
    ensures a + (u + e + r) + z == a + u + (e + r + z)
  {
  }

  lemma MoveRight<T>(a: seq<T>, l: seq<T>, e: seq<T>, u: seq<T>, z: seq<T>)
    ensures a + (l + e + u) + z == (a + l + e) + u + z
  {
  }

  lemma {:induction false} PlugEntries(c: Ctx, t: Tree)
    ensures Entries(Plug(c, t)) == All(c, t)
    decreases c
  {
    if !c.Top? {
      FocusEntries(c, t);
      PlugEntries(c.up, Up(c, t));
    }
  }

  // ---------- search order ----------

  /** In-order by starting offset, strictly between lo and hi. */
  ghost predicate Ord(t: Tree, lo: int, hi: int) {
    t.Leaf? ||
    (lo < t.seg.start < hi && t.seg.start <= t.seg.end && Ord(t.left, lo, t.seg.start) && Ord(t.right, t.seg.start, hi))
  }

  ghost function Lo(c: Ctx): int {
    match c
    case Top => -1
    case InLeft(_, _, _, _, up) => Lo(up)
    case InRight(_, _, _, s, _) => s.start
  }

  ghost function Hi(c: Ctx): int {
    match c
    case Top => LIMIT
    case InLeft(_, _, s, _, _) => s.start
    case InRight(_, _, _, _, up) => Hi(up)
  }

  ghost predicate CtxOrd(c: Ctx) {
    match c
    case Top => true
    case InLeft(_, _, s, r, up) =>
      Lo(up) < s.start < Hi(up) && s.start <= s.end && Ord(r, s.start, Hi(up)) && CtxOrd(up)
    case InRight(_, l, _, s, up) =>
      Lo(up) < s.start < Hi(up) && s.start <= s.end && Ord(l, Lo(up), s.start) && CtxOrd(up)
  }

  // ---------- what the store holds ----------

  ghost predicate Holds(m: Store, t: Tree, p: Ptr) {
    t.Fork? ==>
    && t.n != NULL && t.n in m && m[t.n] == Rec(Root(t.left), Root(t.right), p, t.red, t.seg)
    && Holds(m, t.left, t.n) && Holds(m, t.right, t.n)
  }

  /** The context is stored, with x in the place of the cursor. */
  ghost predicate CtxHolds(m: Store, root: Ptr, c: Ctx, x: Ptr) {
    match c
    case Top => root == x
    case InLeft(red, n, s, r, up) =>
      && n != NULL && n in m && m[n] == Rec(x, Root(r), Parent(up), red, s)
      && Holds(m, r, n) && CtxHolds(m, root, up, n)
    case InRight(red, l, n, s, up) =>
      && n != NULL && n in m && m[n] == Rec(Root(l), x, Parent(up), red, s)
      && Holds(m, l, n) && CtxHolds(m, root, up, n)
  }

  /** The store holds subtree t at cursor c, in search order. */
  ghost predicate At(m: Store, root: Ptr, c: Ctx, t: Tree) {
    && CtxOrd(c) && Ord(t, Lo(c), Hi(c))
    && Holds(m, t, Parent(c)) && CtxHolds(m, root, c, Root(t))
  }

  // ---------- frames: records with keys elsewhere do not matter ----------

  ghost predicate Keeps(m: Store, m': Store, lo: int, hi: int) {
    forall n :: n in m && n != NULL && lo < m[n].seg.start < hi ==> n in m' && m'[n] == m[n]
  }

  lemma {:induction false} HoldsFrame(m: Store, m': Store, t: Tree, p: Ptr, lo: int, hi: int)
    requires Holds(m, t, p) && Ord(t, lo, hi) && Keeps(m, m', lo, hi)
    ensures Holds(m', t, p)
  {
    if t.Fork? {
      HoldsFrame(m, m', t.left, t.n, lo, t.seg.start);
      HoldsFrame(m, m', t.right, t.n, t.seg.start, hi);
    }
  }

  /** Moving a subtree below another parent. */
  lemma Reparent(m: Store, m': Store, t: Tree, p: Ptr, q: Ptr, lo: int, hi: int)
    requires Holds(m, t, p) && Ord(t, lo, hi)
    requires forall n :: n in m && n != NULL && n != Root(t) && lo < m[n].seg.start < hi ==> n in m' && m'[n] == m[n]
    requires t.Fork? ==> t.n in m' && m'[t.n] == m[t.n].(parent := q)
    ensures Holds(m', t, q)
  {
    if t.Fork? {
      HoldsFrame(m, m', t.left, t.n, lo, t.seg.start);
      HoldsFrame(m, m', t.right, t.n, t.seg.start, hi);
    }
  }

  ghost predicate KeepsOut(m: Store, m': Store, lo: int, hi: int) {
    forall n :: n in m && n != NULL && !(lo < m[n].seg.start < hi) ==> n in m' && m'[n] == m[n]
  }

  lemma {:induction false} CtxFrame(m: Store, m': Store, root: Ptr, c: Ctx, x: Ptr)
    requires CtxHolds(m, root, c, x) && CtxOrd(c) && KeepsOut(m, m', Lo(c), Hi(c))
    ensures CtxHolds(m', root, c, x)
  {
    match c
    case Top =>
    case InLeft(_, n, s, r, up) =>
      HoldsFrame(m, m', r, n, s.start, Hi(up));
      CtxFrame(m, m', root, up, n);
    case InRight(_, l, n, s, up) =>
      HoldsFrame(m, m', l, n, Lo(up), s.start);
      CtxFrame(m, m', root, up, n);
  }

  /** The link that leads to the cursor, set to y. */
  ghost predicate Relinked(m: Store, root: Ptr, m': Store, root': Ptr, c: Ctx, y: Ptr) {
    match c
    case Top => root' == y
    case InLeft(_, n, _, _, _) => root' == root && n in m && n in m' && m'[n] == m[n].(left := y)
    case InRight(_, _, n, _, _) => root' == root && n in m && n in m' && m'[n] == m[n].(right := y)
  }

  lemma CtxSwap(m: Store, root: Ptr, m': Store, root': Ptr, c: Ctx, x: Ptr, y: Ptr)
    requires CtxHolds(m, root, c, x) && CtxOrd(c) && Relinked(m, root, m', root', c, y)
    requires forall n :: n in m && n != NULL && n != Parent(c) && !(Lo(c) < m[n].seg.start < Hi(c)) ==>
      n in m' && m'[n] == m[n]
    ensures CtxHolds(m', root', c, y)
  {
    match c
    case Top =>
    case InLeft(_, n, s, r, up) =>
      HoldsFrame(m, m', r, n, s.start, Hi(up));
      CtxFrame(m, m', root, up, n);
    case InRight(_, l, n, s, up) =>
      HoldsFrame(m, m', l, n, Lo(up), s.start);
      CtxFrame(m, m', root, up, n);
  }

  lemma KeyOfParent(m: Store, root: Ptr, c: Ctx, x: Ptr)
    requires CtxHolds(m, root, c, x) && CtxOrd(c) && !c.Top?
    ensures c.n in m && !(Lo(c) < m[c.n].seg.start < Hi(c))
  {
  }

  // ---------- rotations ----------

  ghost function RotL(t: Tree): Tree
    requires t.Fork? && t.right.Fork?
  {
    Fork(t.right.red, Fork(t.red, t.left, t.n, t.seg, t.right.left), t.right.n, t.right.seg, t.right.right)
  }

  ghost function RotR(t: Tree): Tree
    requires t.Fork? && t.left.Fork?
  {
    Fork(t.left.red, t.left.left, t.left.n, t.left.seg, Fork(t.red, t.left.right, t.n, t.seg, t.right))
  }

  /** All records are kept but those of x, y, b and p. */
  ghost predicate Only(m: Store, m': Store, x: Ptr, y: Ptr, b: Ptr, p: Ptr) {
    forall n :: n in m && n != NULL && n != x && n != y && n != b && n != p ==> n in m' && m'[n] == m[n]
  }

  lemma RotLTree(m: Store, m': Store, root: Ptr, c: Ctx, t: Tree)
    requires At(m, root, c, t) && t.Fork? && t.right.Fork?
    requires var x, y, b := t.n, t.right.n, t.right.left;
      && Only(m, m', x, y, Root(b), Parent(c))
      && x in m' && m'[x] == Rec(Root(t.left), Root(b), y, t.red, t.seg)
      && y in m' && m'[y] == Rec(x, Root(t.right.right), Parent(c), t.right.red, t.right.seg)
      && (b.Fork? ==> b.n in m && b.n in m' && m'[b.n] == m[b.n].(parent := x))
    ensures Holds(m', RotL(t), Parent(c)) && Ord(RotL(t), Lo(c), Hi(c))
  {
    var x, y, a, b, d := t.n, t.right.n, t.left, t.right.left, t.right.right;
    if !c.Top? { KeyOfParent(m, root, c, x); }
    assert Ord(t.right, t.seg.start, Hi(c)) && Holds(m, t.right, x);
    assert Ord(b, t.seg.start, t.right.seg.start) && Holds(m, b, y);
    HoldsFrame(m, m', a, x, Lo(c), t.seg.start);
    HoldsFrame(m, m', d, y, t.right.seg.start, Hi(c));
    Reparent(m, m', b, y, x, t.seg.start, t.right.seg.start);
  }

  lemma RotRTree(m: Store, m': Store, root: Ptr, c: Ctx, t: Tree)
    requires At(m, root, c, t) && t.Fork? && t.left.Fork?
    requires var x, y, b := t.n, t.left.n, t.left.right;
      && Only(m, m', x, y, Root(b), Parent(c))
      && x in m' && m'[x] == Rec(Root(b), Root(t.right), y, t.red, t.seg)
      && y in m' && m'[y] == Rec(Root(t.left.left), x, Parent(c), t.left.red, t.left.seg)
      && (b.Fork? ==> b.n in m && b.n in m' && m'[b.n] == m[b.n].(parent := x))
    ensures Holds(m', RotR(t), Parent(c)) && Ord(RotR(t), Lo(c), Hi(c))
  {
    var x, y, a, b, d := t.n, t.left.n, t.left.left, t.left.right, t.right;
    if !c.Top? { KeyOfParent(m, root, c, x); }
    assert Ord(t.left, Lo(c), t.seg.start) && Holds(m, t.left, x);
    assert Ord(b, t.left.seg.start, t.seg.start) && Holds(m, b, y);
    HoldsFrame(m, m', a, y, Lo(c), t.left.seg.start);
    HoldsFrame(m, m', d, x, t.seg.start, Hi(c));
    Reparent(m, m', b, y, x, t.left.seg.start, t.seg.start);
  }

  // ---------- moving the cursor, recolouring ----------

  /** The cursor moves between a node and its children without touching the store. */
  lemma Refocus(m: Store, root: Ptr, c: Ctx, t: Tree)
    requires t.Fork?
    ensures At(m, root, c, t) <==> At(m, root, InLeft(t.red, t.n, t.seg, t.right, c), t.left)
    ensures At(m, root, c, t) <==> At(m, root, InRight(t.red, t.left, t.n, t.seg, c), t.right)
  {
  }

  ghost function Paint(m: Store, n: Ptr, red: bool): Store
    requires n in m
  {
    m[n := m[n].(red := red)]
  }

  lemma Recolor(m: Store, root: Ptr, c: Ctx, t: Tree, red: bool)
    requires At(m, root, c, t) && t.Fork?
    ensures At(Paint(m, t.n, red), root, c, t.(red := red))
  {
    var m' := Paint(m, t.n, red);
    HoldsFrame(m, m', t.left, t.n, Lo(c), t.seg.start);
    HoldsFrame(m, m', t.right, t.n, t.seg.start, Hi(c));
    CtxFrame(m, m', root, c, t.n);
  }

  lemma RecolorLeft(m: Store, root: Ptr, c: Ctx, t: Tree, red: bool)
    requires At(m, root, c, t) && t.Fork? && t.left.Fork?
    ensures t.left.n in m && At(Paint(m, t.left.n, red), root, c, t.(left := t.left.(red := red)))
  {
    Refocus(m, root, c, t);
    Recolor(m, root, InLeft(t.red, t.n, t.seg, t.right, c), t.left, red);
    Refocus(Paint(m, t.left.n, red), root, c, t.(left := t.left.(red := red)));
  }

  lemma RecolorRight(m: Store, root: Ptr, c: Ctx, t: Tree, red: bool)
    requires At(m, root, c, t) && t.Fork? && t.right.Fork?
    ensures t.right.n in m && At(Paint(m, t.right.n, red), root, c, t.(right := t.right.(red := red)))
  {
    Refocus(m, root, c, t);
    Recolor(m, root, InRight(t.red, t.left, t.n, t.seg, c), t.right, red);
    Refocus(Paint(m, t.right.n, red), root, c, t.(right := t.right.(red := red)));
  }

  lemma RotatedLeftEntries(t: Tree)
    requires t.Fork? && t.right.Fork?
    ensures Entries(RotL(t)) == Entries(t)
  {
    var a, b, d := Entries(t.left), Entries(t.right.left), Entries(t.right.right);
    var x, y := [Entry(t.n, t.seg)], [Entry(t.right.n, t.right.seg)];
    assert Entries(t) == a + x + (b + y + d);
    assert Entries(RotL(t).left) == a + x + b;
    assert a + x + b + y + d == a + x + (b + y + d);
  }

  lemma RotatedRightEntries(t: Tree)
    requires t.Fork? && t.left.Fork?
    ensures Entries(RotR(t)) == Entries(t)
  {
    assert RotL(RotR(t)) == t;
    RotatedLeftEntries(RotR(t));
  }

  lemma Siblings(m: Store, t: Tree, p: Ptr, lo: int, hi: int)
    requires Holds(m, t, p) && Ord(t, lo, hi) && t.Fork? && (t.left.Fork? || t.right.Fork?)
    ensures Root(t.left) != Root(t.right)
  {
  }

  /** What the store says at the cursor and one level below. */
  lemma Kids(m: Store, root: Ptr, c: Ctx, t: Tree)
    requires At(m, root, c, t) && t.Fork?
    ensures t.n != NULL && t.n in m && m[t.n] == Rec(Root(t.left), Root(t.right), Parent(c), t.red, t.seg)
    ensures t.left.Fork? ==>
      && t.left.n != NULL && t.left.n in m && m[t.left.n].red == t.left.red && m[t.left.n].seg == t.left.seg
      && Lo(c) < t.left.seg.start < t.seg.start
    ensures t.right.Fork? ==>
      && t.right.n != NULL && t.right.n in m && m[t.right.n].red == t.right.red && m[t.right.n].seg == t.right.seg
      && t.seg.start < t.right.seg.start < Hi(c)
  {
    assert Holds(m, t.left, t.n) && Holds(m, t.right, t.n);
    assert Ord(t.left, Lo(c), t.seg.start) && Ord(t.right, t.seg.start, Hi(c));
  }

  lemma ParentLink(m: Store, root: Ptr, c: Ctx, t: Tree)
    requires At(m, root, c, t) && t.Fork? && !c.Top?
    ensures c.n != NULL && c.n in m && c.n != t.n && c.n != Root(t.left) && c.n != Root(t.right)
    ensures (m[c.n].left == t.n <==> c.InLeft?) && (m[c.n].right == t.n <==> c.InRight?)
  {
    KeyOfParent(m, root, c, t.n);
    Kids(m, root, c, t);
    Refocus(m, root, c.up, Up(c, t));
    Siblings(m, Up(c, t), Parent(c.up), Lo(c.up), Hi(c.up));
  }

  // ---------- balance ----------

  predicate Red(t: Tree) { t.Fork? && t.red }

  ghost function BlackHeight(t: Tree): nat {
    if t.Leaf? then 0 else BlackHeight(t.left) + (if t.red then 0 else 1)
  }

  /** Equal black height on every path, no red node with a red child. */
  ghost predicate Balanced(t: Tree) {
    t.Fork? ==>
    && BlackHeight(t.left) == BlackHeight(t.right)
    && (t.red ==> !Red(t.left) && !Red(t.right))
    && Balanced(t.left) && Balanced(t.right)
  }

  ghost predicate CtxRed(c: Ctx) { !c.Top? && c.red }

  /** The context is balanced around a subtree of black height h. */
  ghost predicate CtxBalanced(c: Ctx, h: nat) {
    match c
    case Top => true
    case InLeft(red, _, _, r, up) =>
      && Balanced(r) && BlackHeight(r) == h && (red ==> !Red(r) && !CtxRed(up))
      && CtxBalanced(up, if red then h else h + 1)
    case InRight(red, l, _, _, up) =>
      && Balanced(l) && BlackHeight(l) == h && (red ==> !Red(l) && !CtxRed(up))
      && CtxBalanced(up, if red then h else h + 1)
  }

  /** The root of the whole tree lies in the context and is black, or the cursor is at the root. */
  ghost predicate RootBlack(c: Ctx) { c.Top? || (if c.up.Top? then !c.red else RootBlack(c.up)) }

  ghost predicate RedBlackTree(t: Tree) { Balanced(t) && !Red(t) }

  lemma {:induction false} Zip(m: Store, root: Ptr, c: Ctx, t: Tree)
    requires At(m, root, c, t)
    ensures At(m, root, Top, Plug(c, t))
    decreases c
  {
    if !c.Top? {
      Refocus(m, root, c.up, Up(c, t));
      Zip(m, root, c.up, Up(c, t));
    }
  }

  lemma {:induction false} ZipBalanced(c: Ctx, t: Tree)
    requires Balanced(t) && CtxBalanced(c, BlackHeight(t)) && (CtxRed(c) ==> !Red(t))
    requires RootBlack(c) && (c.Top? ==> !Red(t))
    ensures RedBlackTree(Plug(c, t))
    decreases c
  {
    if !c.Top? { ZipBalanced(c.up, Up(c, t)); }
  }

  /** A cursor in a valid red-black tree. */
  ghost predicate Cursor(m: Store, root: Ptr, c: Ctx, t: Tree) {
    && At(m, root, c, t)
    && Balanced(t) && CtxBalanced(c, BlackHeight(t)) && (CtxRed(c) ==> !Red(t))
    && RootBlack(c) && (c.Top? ==> !Red(t))
  }

  lemma Descend(m: Store, root: Ptr, c: Ctx, t: Tree)
    requires Cursor(m, root, c, t) && t.Fork?
    ensures Cursor(m, root, InLeft(t.red, t.n, t.seg, t.right, c), t.left)
    ensures Cursor(m, root, InRight(t.red, t.left, t.n, t.seg, c), t.right)
    ensures All(InLeft(t.red, t.n, t.seg, t.right, c), t.left) == All(c, t)
    ensures All(InRight(t.red, t.left, t.n, t.seg, c), t.right) == All(c, t)
    ensures
      var a, b := Before(InRight(t.red, t.left, t.n, t.seg, c)), After(InLeft(t.red, t.n, t.seg, t.right, c));
      a != [] && b != [] && a[|a| - 1] == b[0] == Entry(t.n, t.seg)
    ensures t.n != NULL && t.n in m && m[t.n] == Rec(Root(t.left), Root(t.right), Parent(c), t.red, t.seg) &&
      t.seg.start <= t.seg.end
  {
    Refocus(m, root, c, t);
    FocusEntries(InLeft(t.red, t.n, t.seg, t.right, c), t.left);
    FocusEntries(InRight(t.red, t.left, t.n, t.seg, c), t.right);
  }

  /** The state of RB_INSERT_COLOR: all is balanced, but the red node at the cursor may have a red parent. */
  ghost predicate RedAt(c: Ctx, t: Tree) {
    Red(t) && Balanced(t) && CtxBalanced(c, BlackHeight(t)) && RootBlack(c)
  }

  lemma RedParent(c: Ctx, t: Tree)
    requires RedAt(c, t) && CtxRed(c)
    ensures !c.up.Top? && !c.up.red
  {
  }

  lemma PushedBlack(c: Ctx, t: Tree)
    requires RedAt(c, t) && CtxRed(c) && !c.up.Top?
    requires var g := Up(c.up, Up(c, t)); Red(g.left) && Red(g.right)
    ensures
      var g := Up(c.up, Up(c, t));
      var g' := Fork(true, g.left.(red := false), g.n, g.seg, g.right.(red := false));
      RedAt(c.up.up, g') && Entries(g') == Entries(g)
  {
    assert CtxBalanced(c.up, BlackHeight(t)) && RootBlack(c.up);
    var g := Up(c.up, Up(c, t));
    assert Entries(g.left.(red := false)) == Entries(g.left);
    assert Entries(g.right.(red := false)) == Entries(g.right);
  }

  ghost function Depth(c: Ctx): nat { if c.Top? then 0 else 1 + Depth(c.up) }

  /** What the rotations make of grandparent g when its left child is red. */
  ghost function LiftLeft(g: Tree, inner: bool): Tree
    requires g.Fork? && g.left.Fork? && (inner ==> g.left.right.Fork?)
  {
    RotR(g.(red := true, left := if inner then RotL(g.left).(red := false) else g.left.(red := false)))
  }

  ghost function LiftRight(g: Tree, inner: bool): Tree
    requires g.Fork? && g.right.Fork? && (inner ==> g.right.left.Fork?)
  {
    RotL(g.(red := true, right := if inner then RotR(g.right).(red := false) else g.right.(red := false)))
  }

  lemma LiftedLeft(c: Ctx, t: Tree)
    requires RedAt(c, t) && CtxRed(c) && c.up.InLeft? && !Red(c.up.right)
    ensures
      var t' := LiftLeft(Up(c.up, Up(c, t)), c.InRight?);
      RedAt(InLeft(false, t'.n, t'.seg, t'.right, c.up.up), t'.left) && Entries(t') == Entries(Up(c.up, Up(c, t)))
  {
    var g := Up(c.up, Up(c, t));
    assert CtxBalanced(c.up, BlackHeight(t)) && RootBlack(c.up);
    if c.InRight? {
      RotatedLeftEntries(g.left);
      RotatedRightEntries(g.(red := true, left := RotL(g.left).(red := false)));
    } else {
      RotatedRightEntries(g.(red := true, left := g.left.(red := false)));
    }
  }

  lemma LiftedRight(c: Ctx, t: Tree)
    requires RedAt(c, t) && CtxRed(c) && c.up.InRight? && !Red(c.up.left)
    ensures
      var t' := LiftRight(Up(c.up, Up(c, t)), c.InLeft?);
      RedAt(InRight(false, t'.left, t'.n, t'.seg, c.up.up), t'.right) && Entries(t') == Entries(Up(c.up, Up(c, t)))
  {
    var g := Up(c.up, Up(c, t));
    assert CtxBalanced(c.up, BlackHeight(t)) && RootBlack(c.up);
    if c.InLeft? {
      RotatedRightEntries(g.right);
      RotatedLeftEntries(g.(red := true, right := RotR(g.right).(red := false)));
    } else {
      RotatedLeftEntries(g.(red := true, right := g.right.(red := false)));
    }
  }

  lemma {:induction false} PlugFork(c: Ctx, t: Tree)
    requires t.Fork? || !c.Top?
    ensures Plug(c, t).Fork?
    decreases c
  {
    if !c.Top? { PlugFork(c.up, Up(c, t)); }
  }

  /** When the parent is not red, blackening the root completes the repair. */
  lemma FinishedRed(c: Ctx, t: Tree)
    requires RedAt(c, t) && !CtxRed(c)
    ensures Plug(c, t).Fork? && RedBlackTree(Plug(c, t).(red := false))
  {
    if !c.Top? { ZipBalanced(c, t); PlugFork(c, t); }
  }

  // ---------- removal: one black node is missing below the cursor ----------

  ghost function Blackened(t: Tree): Tree { if t.Leaf? then t else t.(red := false) }

  /** A red node at the cursor may still have red children: it is about to be blackened. */
  ghost predicate ShortAt(c: Ctx, t: Tree) {
    Balanced(Blackened(t)) && CtxBalanced(c, BlackHeight(t) + 1) && RootBlack(c)
  }

  ghost function Rank(c: Ctx, t: Tree): nat { 2 * Depth(c) + if Red(t) then 0 else 1 }

  lemma ShortSiblingLeft(c: Ctx, t: Tree)
    requires ShortAt(c, t) && c.InLeft?
    ensures c.right.Fork? && (Red(c.right) ==> !c.red && c.right.left.Fork? && !Red(c.right.left))
  {
  }

  /** A red sibling is rotated above the parent. */
  ghost function FlipLeft(c: Ctx): Ctx
    requires c.InLeft? && c.right.Fork?
  {
    InLeft(true, c.n, c.seg, c.right.left, InLeft(false, c.right.n, c.right.seg, c.right.right, c.up))
  }

  lemma FlippedLeft(c: Ctx, t: Tree)
    requires ShortAt(c, t) && c.InLeft? && Red(c.right)
    ensures ShortAt(FlipLeft(c), t) && All(FlipLeft(c), t) == All(c, t)
    ensures !Red(FlipLeft(c).right) && FlipLeft(c).right.Fork?
    ensures Up(FlipLeft(c).up, Up(FlipLeft(c), t)) == RotL(Fork(true, t, c.n, c.seg, c.right.(red := false)))
  {
    assert CtxBalanced(c.up, BlackHeight(t) + 2);
    var p := Fork(true, t, c.n, c.seg, c.right.(red := false));
    RotatedLeftEntries(p);
    FocusEntries(c, t);
    FocusEntries(FlipLeft(c), t);
    FocusEntries(FlipLeft(c).up, Up(FlipLeft(c), t));
    assert Entries(p) == Entries(Up(c, t));
  }

  /** A black sibling without red children becomes red; the missing black moves up. */
  lemma SunkLeft(c: Ctx, t: Tree)
    requires ShortAt(c, t) && c.InLeft? && !Red(t) && !Red(c.right) && c.right.Fork?
    requires !Red(c.right.left) && !Red(c.right.right)
    ensures
      var t' := Fork(c.red, t, c.n, c.seg, c.right.(red := true));
      ShortAt(c.up, t') && All(c.up, t') == All(c, t)
  {
    FocusEntries(c, t);
    assert Entries(c.right.(red := true)) == Entries(c.right);
  }

  /** The sibling with its far child red: its near child, red, is rotated up if needed. */
  ghost function FarRedLeft(s: Tree): Tree
    requires s.Fork? && (Red(s.right) || Red(s.left))
  {
    if Red(s.right) then s else RotR(s.(red := true, left := s.left.(red := false)))
  }

  lemma FarIsRedLeft(s: Tree)
    requires s.Fork? && !s.red && Balanced(s) && (Red(s.left) || Red(s.right))
    ensures
      var s' := FarRedLeft(s);
      !Red(s') && Red(s'.right) && Balanced(s') && BlackHeight(s') == BlackHeight(s) && Entries(s') == Entries(s)
  {
    if !Red(s.right) {
      assert Balanced(s.left.(red := false));
      RotatedRightEntries(s.(red := true, left := s.left.(red := false)));
      assert Entries(s.left.(red := false)) == Entries(s.left);
    }
  }

  /** The last rotation supplies the missing black. */
  ghost function SettleLeft(c: Ctx, t: Tree): Tree
    requires c.InLeft? && c.right.Fork? && (Red(c.right.right) || Red(c.right.left))
  {
    var s := FarRedLeft(c.right);
    RotL(Fork(false, t, c.n, c.seg, s.(red := c.red, right := s.right.(red := false))))
  }

  lemma SettledLeft(c: Ctx, t: Tree)
    requires ShortAt(c, t) && c.InLeft? && !Red(t) && !Red(c.right) && c.right.Fork?
    requires Red(c.right.left) || Red(c.right.right)
    ensures
      var t' := SettleLeft(c, t);
      && Balanced(t') && CtxBalanced(c.up, BlackHeight(t')) && (CtxRed(c.up) ==> !Red(t'))
      && RootBlack(c.up) && (c.up.Top? ==> !Red(t')) && All(c.up, t') == All(c, t)
  {
    var s := FarRedLeft(c.right);
    FarIsRedLeft(c.right);
    assert Entries(s.(red := c.red, right := s.right.(red := false))) == Entries(s) by {
      assert Entries(s.right.(red := false)) == Entries(s.right);
    }
    RotatedLeftEntries(Fork(false, t, c.n, c.seg, s.(red := c.red, right := s.right.(red := false))));
    FocusEntries(c, t);
  }

  lemma ShortSiblingRight(c: Ctx, t: Tree)
    requires ShortAt(c, t) && c.InRight?
    ensures c.left.Fork? && (Red(c.left) ==> !c.red && c.left.right.Fork? && !Red(c.left.right))
  {
  }

  /** A red sibling is rotated above the parent. */
  ghost function FlipRight(c: Ctx): Ctx
    requires c.InRight? && c.left.Fork?
  {
    InRight(true, c.left.right, c.n, c.seg, InRight(false, c.left.left, c.left.n, c.left.seg, c.up))
  }

  lemma FlippedRight(c: Ctx, t: Tree)
    requires ShortAt(c, t) && c.InRight? && Red(c.left)
    ensures ShortAt(FlipRight(c), t) && All(FlipRight(c), t) == All(c, t)
    ensures !Red(FlipRight(c).left) && FlipRight(c).left.Fork?
    ensures Up(FlipRight(c).up, Up(FlipRight(c), t)) == RotR(Fork(true, c.left.(red := false), c.n, c.seg, t))
  {
    assert CtxBalanced(c.up, BlackHeight(t) + 2);
    var p := Fork(true, c.left.(red := false), c.n, c.seg, t);
    RotatedRightEntries(p);
    FocusEntries(c, t);
    FocusEntries(FlipRight(c), t);
    FocusEntries(FlipRight(c).up, Up(FlipRight(c), t));
    assert Entries(p) == Entries(Up(c, t));
  }

  /** A black sibling without red children becomes red; the missing black moves up. */
  lemma SunkRight(c: Ctx, t: Tree)
    requires ShortAt(c, t) && c.InRight? && !Red(t) && !Red(c.left) && c.left.Fork?
    requires !Red(c.left.right) && !Red(c.left.left)
    ensures
      var t' := Fork(c.red, c.left.(red := true), c.n, c.seg, t);
      ShortAt(c.up, t') && All(c.up, t') == All(c, t)
  {
    FocusEntries(c, t);
    assert Entries(c.left.(red := true)) == Entries(c.left);
  }

  /** The sibling with its far child red: its near child, red, is rotated up if needed. */
  ghost function FarRedRight(s: Tree): Tree
    requires s.Fork? && (Red(s.left) || Red(s.right))
  {
    if Red(s.left) then s else RotL(s.(red := true, right := s.right.(red := false)))
  }

  lemma FarIsRedRight(s: Tree)
    requires s.Fork? && !s.red && Balanced(s) && (Red(s.left) || Red(s.right))
    ensures
      var s' := FarRedRight(s);
      !Red(s') && Red(s'.left) && Balanced(s') && BlackHeight(s') == BlackHeight(s) && Entries(s') == Entries(s)
  {
    if !Red(s.left) {
      assert Balanced(s.right.(red := false));
      RotatedLeftEntries(s.(red := true, right := s.right.(red := false)));
      assert Entries(s.right.(red := false)) == Entries(s.right);
    }
  }

  /** The last rotation supplies the missing black. */
  ghost function SettleRight(c: Ctx, t: Tree): Tree
    requires c.InRight? && c.left.Fork? && (Red(c.left.left) || Red(c.left.right))
  {
    var s := FarRedRight(c.left);
    RotR(Fork(false, s.(red := c.red, left := s.left.(red := false)), c.n, c.seg, t))
  }

  lemma SettledRight(c: Ctx, t: Tree)
    requires ShortAt(c, t) && c.InRight? && !Red(t) && !Red(c.left) && c.left.Fork?
    requires Red(c.left.right) || Red(c.left.left)
    ensures
      var t' := SettleRight(c, t);
      && Balanced(t') && CtxBalanced(c.up, BlackHeight(t')) && (CtxRed(c.up) ==> !Red(t'))
      && RootBlack(c.up) && (c.up.Top? ==> !Red(t')) && All(c.up, t') == All(c, t)
  {
    var s := FarRedRight(c.left);
    FarIsRedRight(c.left);
    assert Entries(s.(red := c.red, left := s.left.(red := false))) == Entries(s) by {
      assert Entries(s.left.(red := false)) == Entries(s.left);
    }
    RotatedRightEntries(Fork(false, s.(red := c.red, left := s.left.(red := false)), c.n, c.seg, t));
    FocusEntries(c, t);
  }

  /** Below the root, the root pointer leads to a node outside the cursor's range. */
  lemma {:induction false} RootOutside(m: Store, root: Ptr, c: Ctx, x: Ptr)
    requires CtxHolds(m, root, c, x) && CtxOrd(c) && !c.Top?
    ensures root != NULL && root in m && !(Lo(c) < m[root].seg.start < Hi(c))
  {
    if !c.up.Top? { RootOutside(m, root, c.up, c.n); }
  }

  /** Blackening completes the repair when the cursor is red or at the root. */
  lemma FinishedShort(m: Store, root: Ptr, c: Ctx, t: Tree)
    requires At(m, root, c, Blackened(t)) && ShortAt(c, t) && (c.Top? || Red(t))
    ensures At(m, root, Top, Plug(c, Blackened(t))) && RedBlackTree(Plug(c, Blackened(t)))
    ensures Entries(Plug(c, Blackened(t))) == All(c, t)
  {
    Zip(m, root, c, Blackened(t));
    ZipBalanced(c, Blackened(t));
    PlugEntries(c, Blackened(t));
    assert Entries(Blackened(t)) == Entries(t);
  }

  // ---------- unlinking a node ----------

  lemma {:induction false} OrdWiden(t: Tree, lo: int, hi: int, lo': int, hi': int)
    requires Ord(t, lo, hi) && lo' <= lo && hi <= hi'
    ensures Ord(t, lo', hi')
  {
    if t.Fork? {
      OrdWiden(t.left, lo, t.seg.start, lo', t.seg.start);
      OrdWiden(t.right, t.seg.start, hi, t.seg.start, hi');
    }
  }

  /** The only child, if any, takes the place of its parent. */
  lemma Spliced(m: Store, root: Ptr, m': Store, root': Ptr, c: Ctx, t: Tree, x: Tree)
    requires At(m, root, c, t) && t.Fork?
    requires (t.left.Leaf? && x == t.right) || (t.right.Leaf? && x == t.left)
    requires Relinked(m, root, m', root', c, Root(x))
    requires x.Fork? ==> x.n in m && x.n in m' && m'[x.n] == m[x.n].(parent := Parent(c))
    requires forall n :: n in m && n != NULL && n != Root(x) && n != Parent(c) ==> n in m' && m'[n] == m[n]
    ensures At(m', root', c, x)
  {
    var lo := if t.left.Leaf? && x == t.right then t.seg.start else Lo(c);
    var hi := if t.left.Leaf? && x == t.right then Hi(c) else t.seg.start;
    assert Ord(x, lo, hi) && Holds(m, x, t.n);
    if !c.Top? { KeyOfParent(m, root, c, t.n); }
    Reparent(m, m', x, t.n, Parent(c), lo, hi);
    OrdWiden(x, lo, hi, Lo(c), Hi(c));
    CtxSwap(m, root, m', root', c, t.n, Root(x));
  }

  /** Node y takes the place of the root of t, next in order after it. */
  lemma Replaced(m: Store, root: Ptr, m': Store, root': Ptr, c: Ctx, t: Tree, y: Ptr, g: Seg)
    requires At(m, root, c, t) && t.Fork? && y != NULL && y in m && m[y].seg == g && g.start <= g.end
    requires t.seg.start < g.start < Hi(c) && Ord(t.right, g.start, Hi(c))
    requires Relinked(m, root, m', root', c, y)
    requires y in m' && m'[y] == m[t.n].(seg := g)
    requires t.left.Fork? ==> t.left.n in m && t.left.n in m' && m'[t.left.n] == m[t.left.n].(parent := y)
    requires t.right.Fork? ==> t.right.n in m && t.right.n in m' && m'[t.right.n] == m[t.right.n].(parent := y)
    requires forall n :: n in m && n != NULL && n != y && n != Root(t.left) && n != Root(t.right) && n != Parent(c) ==>
      n in m' && m'[n] == m[n]
    ensures At(m', root', c, Fork(t.red, t.left, y, g, t.right))
  {
    if !c.Top? { KeyOfParent(m, root, c, t.n); }
    Kids(m, root, c, t);
    Reparent(m, m', t.left, t.n, y, Lo(c), t.seg.start);
    OrdWiden(t.left, Lo(c), t.seg.start, Lo(c), g.start);
    Reparent(m, m', t.right, t.n, y, g.start, Hi(c));
    CtxSwap(m, root, m', root', c, t.n, y);
  }

  /** The context inner continued by the context outer. */
  ghost function Append(inner: Ctx, outer: Ctx): Ctx {
    match inner
    case Top => outer
    case InLeft(red, n, s, r, up) => InLeft(red, n, s, r, Append(up, outer))
    case InRight(red, l, n, s, up) => InRight(red, l, n, s, Append(up, outer))
  }

  lemma {:induction false} AtAppend(m: Store, root: Ptr, inner: Ctx, outer: Ctx, t: Tree)
    ensures At(m, root, Append(inner, outer), t) <==> At(m, root, outer, Plug(inner, t))
    decreases inner
  {
    if !inner.Top? {
      Refocus(m, root, Append(inner.up, outer), Up(inner, t));
      AtAppend(m, root, inner.up, outer, Up(inner, t));
    }
  }

  lemma {:induction false} AllAppend(inner: Ctx, outer: Ctx, t: Tree)
    ensures All(Append(inner, outer), t) == All(outer, Plug(inner, t))
    decreases inner
  {
    if !inner.Top? {
      FocusEntries(Append(inner, outer), t);
      AllAppend(inner.up, outer, Up(inner, t));
    }
  }

  /** Balance does not depend on which node sits in the outer frame. */
  lemma {:induction false} BalancedAppend(inner: Ctx, outer: Ctx, outer': Ctx, h: nat)
    requires CtxBalanced(Append(inner, outer), h) && RootBlack(Append(inner, outer))
    requires outer.InRight? && outer'.InRight? && outer'.red == outer.red && outer'.left == outer.left &&
      outer'.up == outer.up
    ensures CtxBalanced(Append(inner, outer'), h) && RootBlack(Append(inner, outer'))
    ensures CtxRed(Append(inner, outer')) == CtxRed(Append(inner, outer))
  {
    if !inner.Top? { BalancedAppend(inner.up, outer, outer', if inner.red then h else h + 1); }
  }

  ghost predicate LeftPath(c: Ctx) { c.Top? || (c.InLeft? && LeftPath(c.up)) }

  lemma {:induction false} LeftPathBefore(c: Ctx)
    requires LeftPath(c)
    ensures Before(c) == []
  {
    if !c.Top? { LeftPathBefore(c.up); }
  }

  /** Without its first node, a subtree lies after that node. */
  lemma {:induction false} OrdAfterFirst(inner: Ctx, t: Tree, t': Tree, lo: int, hi: int, y: int)
    requires LeftPath(inner) && Ord(Plug(inner, t), lo, hi)
    requires forall h :: Ord(t, lo, h) ==> y < h && Ord(t', y, h)
    ensures y < hi && Ord(Plug(inner, t'), y, hi)
    decreases inner
  {
    if !inner.Top? { OrdAfterFirst(inner.up, Up(inner, t), Up(inner, t'), lo, hi, y); }
  }

  /** The cursor at the k-th node. */
  lemma {:induction false} Seek(m: Store, root: Ptr, c: Ctx, t: Tree, k: nat) returns (c': Ctx, t': Tree)
    requires Cursor(m, root, c, t) && |Before(c)| <= k < |Before(c)| + |Entries(t)|
    ensures Cursor(m, root, c', t') && t'.Fork? && All(c', t') == All(c, t)
    ensures |Before(c')| + |Entries(t'.left)| == k && All(c, t)[k] == Entry(t'.n, t'.seg)
    decreases t
  {
    Descend(m, root, c, t);
    var i := |Before(c)| + |Entries(t.left)|;
    if k < i {
      c', t' := Seek(m, root, InLeft(t.red, t.n, t.seg, t.right, c), t.left, k);
    } else if k == i {
      c', t' := c, t;
    } else {
      c', t' := Seek(m, root, InRight(t.red, t.left, t.n, t.seg, c), t.right, k);
    }
  }

  /** The cursor after splicing out a node: balanced if the node was red, short of one black if not. */
  lemma SpliceBalance(m: Store, root: Ptr, c: Ctx, t: Tree, x: Tree)
    requires Cursor(m, root, c, t) && t.Fork?
    requires (t.left.Leaf? && x == t.right) || (t.right.Leaf? && x == t.left)
    ensures Balanced(x) && RootBlack(c)
    ensures t.red ==> !c.Top? && !CtxRed(c) && CtxBalanced(c, BlackHeight(x))
    ensures !t.red ==> ShortAt(c, x)
  {
  }

  lemma {:induction false} LoAppend(inner: Ctx, outer: Ctx)
    requires LeftPath(inner)
    ensures Lo(Append(inner, outer)) == Lo(outer)
  {
    if !inner.Top? { LoAppend(inner.up, outer); }
  }

  /** The parent of the successor is the node itself only if it is its right child. */
  lemma ParentOfSuccessor(m: Store, root: Ptr, c: Ctx, t: Tree, inner: Ctx, y: Tree)
    requires t.Fork? && LeftPath(inner) && At(m, root, Append(inner, InRight(t.red, t.left, t.n, t.seg, c)), y)
    requires At(m, root, c, t)
    ensures Parent(Append(inner, InRight(t.red, t.left, t.n, t.seg, c))) == t.n <==> inner.Top?
  {
    if !inner.Top? { LoAppend(inner.up, InRight(t.red, t.left, t.n, t.seg, c)); }
  }

  lemma SuccessorEntries(c: Ctx, t: Tree, inner: Ctx, y: Tree)
    requires t.Fork? && LeftPath(inner) && Plug(inner, y) == t.right && y.Fork? && y.left.Leaf?
    ensures All(Append(inner, InRight(t.red, t.left, y.n, y.seg, c)), y.right)
            == Before(c) + Entries(t.left) + Entries(t.right) + After(c)
  {
    var base' := InRight(t.red, t.left, y.n, y.seg, c);
    AllAppend(inner, base', y.right);
    FirstEntry(inner, y);
    var a, l, r, z, e := Before(c), Entries(t.left), Entries(Plug(inner, y.right)), After(c), [Entry(y.n, y.seg)];
    assert All(base', Plug(inner, y.right)) == (a + l + e) + r + z;
    Regroup(a, l, e, r, z);
  }

  lemma Regroup<T>(a: seq<T>, b: seq<T>, c: seq<T>, d: seq<T>, e: seq<T>)
    ensures (a + b + c) + d + e == a + b + (c + d) + e
  {
  }

  lemma FirstEntry(inner: Ctx, y: Tree)
    requires LeftPath(inner) && y.Fork? && y.left.Leaf?
    ensures Entries(Plug(inner, y)) == [Entry(y.n, y.seg)] + Entries(Plug(inner, y.right))
  {
    LeftPathBefore(inner);
    PlugEntries(inner, y);
    PlugEntries(inner, y.right);
    assert Entries(y) == [Entry(y.n, y.seg)] + Entries(y.right);
  }

  lemma LeafEntries(c: Ctx, n: Ptr, g: Seg)
    ensures All(c, Leaf) == Before(c) + After(c)
    ensures All(c, Fork(true, Leaf, n, g, Leaf)) == Before(c) + [Entry(n, g)] + After(c)
  {
    assert Entries(Fork(true, Leaf, n, g, Leaf)) == [Entry(n, g)];
    NoLeft(Before(c), Entries(Leaf));
  }

  lemma NoLeft<T>(a: seq<T>, b: seq<T>)
    requires b == []
    ensures a + b == a
  {
  }

  lemma AroundMiddle<T>(a: seq<T>, l: seq<T>, e: T, r: seq<T>, z: seq<T>)
    ensures
      var es, k := a + (l + [e] + r) + z, |a| + |l|;
      && es[k] == e && es[..k] == a + l && es[k + 1..] == r + z && es[..k] + es[k + 1..] == a + l + r + z
  {
  }

  /** The content around the node at the cursor. */
  lemma Around(c: Ctx, t: Tree)
    requires t.Fork?
    ensures
      var es, k := All(c, t), |Before(c)| + |Entries(t.left)|;
      && k < |es| && es[k] == Entry(t.n, t.seg)
      && es[..k] == Before(c) + Entries(t.left) && es[k + 1..] == Entries(t.right) + After(c)
      && es[..k] + es[k + 1..] == Before(c) + Entries(t.left) + Entries(t.right) + After(c)
  {
    AroundMiddle(Before(c), Entries(t.left), Entry(t.n, t.seg), Entries(t.right), After(c));
  }

  lemma SeekAround(m: Store, root: Ptr, tree: Tree, k: nat) returns (c: Ctx, t: Tree)
    requires Cursor(m, root, Top, tree) && k < |Entries(tree)|
    ensures Cursor(m, root, c, t) && t.Fork? && Entries(tree)[k] == Entry(t.n, t.seg)
    ensures Entries(tree)[..k] + Entries(tree)[k + 1..] == Before(c) + Entries(t.left) + Entries(t.right) + After(c)
  {
    TopAll(tree);
    c, t := Seek(m, root, Top, tree, k);
    AroundIn(c, t, Entries(tree), k);
  }

  lemma TopAll(t: Tree)
    ensures All(Top, t) == Entries(t)
  {
  }

  lemma AroundIn(c: Ctx, t: Tree, es: seq<Entry>, k: nat)
    requires t.Fork? && es == All(c, t) && k == |Before(c)| + |Entries(t.left)|
    ensures k < |es| && es[..k] + es[k + 1..] == Before(c) + Entries(t.left) + Entries(t.right) + After(c)
  {
    AroundMiddle(Before(c), Entries(t.left), Entry(t.n, t.seg), Entries(t.right), After(c));
  }

  /** A new leaf hung below the cursor. */
  lemma Hung(m: Store, root: Ptr, m': Store, root': Ptr, c: Ctx, n: Ptr, g: Seg)
    requires At(m, root, c, Leaf) && n != NULL && n !in m
    requires Lo(c) < g.start < Hi(c) && g.start <= g.end
    requires n in m' && m'[n] == Rec(NULL, NULL, Parent(c), true, g)
    requires Relinked(m, root, m', root', c, n)
    requires forall x :: x in m && x != NULL && x != Parent(c) ==> x in m' && m'[x] == m[x]
    ensures At(m', root', c, Fork(true, Leaf, n, g, Leaf))
  {
    CtxSwap(m, root, m', root', c, NULL, n);
  }

  /** The child link of p that leads to x, or the root if p is NULL, becomes y. */
  function LinkTo(m: Store, p: Ptr, x: Ptr, y: Ptr): Store
    requires p != NULL ==> p in m
  {
    if p == NULL then m else if m[p].left == x then m[p := m[p].(left := y)] else m[p := m[p].(right := y)]
  }

  lemma FreshExists(s: set<Ptr>)
    ensures exists n: Ptr :: n !in s
  {
    var n := UpperBound(s);
    assert n !in s;
  }

  lemma {:induction false} UpperBound(s: set<Ptr>) returns (n: Ptr)
    ensures forall x :: x in s ==> x < n
    decreases |s|
  {
    if s == {} {
      n := 0;
    } else {
      var x :| x in s;
      var n' := UpperBound(s - {x});
      n := if n' <= x then x + 1 else n';
      assert forall y :: y in s ==> y == x || y in s - {x};
    }
  }

  lemma {:induction false} HeldEntries(m: Store, t: Tree, p: Ptr)
    requires Holds(m, t, p)
    ensures forall e :: e in Entries(t) ==> e.at != NULL && e.at in m && m[e.at].seg == e.seg
  {
    if t.Fork? {
      HeldEntries(m, t.left, t.n);
      HeldEntries(m, t.right, t.n);
    }
  }

  lemma {:induction false} BoundsAreNeighbours(c: Ctx)
    ensures Lo(c) == if Before(c) == [] then -1 else Before(c)[|Before(c)| - 1].seg.start
    ensures Hi(c) == if After(c) == [] then LIMIT else After(c)[0].seg.start
  {
    if !c.Top? { BoundsAreNeighbours(c.up); }
  }

  lemma {:induction false} OrdEnds(t: Tree, lo: int, hi: int)
    requires Ord(t, lo, hi) && t.Fork?
    ensures Entries(t) != []
    ensures Ord(t, lo, Entries(t)[|Entries(t)| - 1].seg.start + 1) && Ord(t, Entries(t)[0].seg.start - 1, hi)
    ensures lo < Entries(t)[0].seg.start && lo < Entries(t)[|Entries(t)| - 1].seg.start < hi &&
      Entries(t)[0].seg.start < hi
  {
    if t.left.Fork? { OrdEnds(t.left, lo, t.seg.start); }
    if t.right.Fork? { OrdEnds(t.right, t.seg.start, hi); }
  }

  /** The neighbours of the k-th node start before and after g. */
  ghost predicate Between(es: seq<Entry>, k: nat, g: Seg) {
    && (0 < k <= |es| ==> es[k - 1].seg.start < g.start)
    && (k + 1 < |es| ==> g.start < es[k + 1].seg.start)
  }

  lemma OrdInPlace(c: Ctx, t: Tree, g: Seg)
    requires CtxOrd(c) && Ord(t, Lo(c), Hi(c)) && t.Fork? && g.start <= g.end && g.start < LIMIT
    requires Between(All(c, t), |Before(c)| + |Entries(t.left)|, g)
    ensures Ord(t.(seg := g), Lo(c), Hi(c))
  {
    BoundsAreNeighbours(c);
    Beside(c, t);
    if t.left.Fork? {
      OrdEnds(t.left, Lo(c), t.seg.start);
      OrdWiden(t.left, Lo(c), Entries(t.left)[|Entries(t.left)| - 1].seg.start + 1, Lo(c), g.start);
    }
    if t.right.Fork? {
      OrdEnds(t.right, t.seg.start, Hi(c));
      OrdWiden(t.right, Entries(t.right)[0].seg.start - 1, Hi(c), g.start, Hi(c));
    }
    assert Lo(c) < g.start;
    assert g.start < Hi(c);
    assert Ord(t.left, Lo(c), g.start);
    assert Ord(t.right, g.start, Hi(c));
  }

  /** A node's extent may change within its neighbours. */
  lemma SetInPlace(m: Store, root: Ptr, c: Ctx, t: Tree, g: Seg)
    requires Cursor(m, root, c, t) && t.Fork? && g.start <= g.end && g.start < LIMIT
    requires Between(All(c, t), |Before(c)| + |Entries(t.left)|, g)
    ensures t.n in m && Cursor(m[t.n := m[t.n].(seg := g)], root, c, t.(seg := g))
  {
    var m' := m[t.n := m[t.n].(seg := g)];
    OrdInPlace(c, t, g);
    HoldsFrame(m, m', t.left, t.n, Lo(c), t.seg.start);
    HoldsFrame(m, m', t.right, t.n, t.seg.start, Hi(c));
    CtxFrame(m, m', root, c, t.n);
  }

  /** The neighbours of the node at the cursor. */
  lemma Beside(c: Ctx, t: Tree)
    requires t.Fork?
    ensures
      var es, k := All(c, t), |Before(c)| + |Entries(t.left)|;
      && k < |es|
      && (k + 1 < |es| ==> es[k + 1] == if t.right.Fork? then Entries(t.right)[0] else After(c)[0])
      && (k > 0 ==> es[k - 1] == if t.left.Fork? then Entries(t.left)[|Entries(t.left)| - 1]
        else Before(c)[|Before(c)| - 1])
      && (k + 1 == |es| <==> t.right.Leaf? && After(c) == [])
      && (k == 0 <==> t.left.Leaf? && Before(c) == [])
  {
    Around(c, t);
    assert t.left.Fork? ==> Entries(t.left) != [];
    assert t.right.Fork? ==> Entries(t.right) != [];
  }

  lemma ChangedEntries(c: Ctx, t: Tree, g: Seg)
    requires t.Fork?
    ensures
      var k := |Before(c)| + |Entries(t.left)|;
      k < |All(c, t)| && All(c, t.(seg := g)) == All(c, t)[k := Entry(t.n, g)]
  {
    var a, b, r, z := Before(c), Entries(t.left), Entries(t.right), After(c);
    Replace1(a, b, Entry(t.n, t.seg), Entry(t.n, g), r, z);
  }

  lemma Replace1<T>(a: seq<T>, b: seq<T>, x: T, y: T, r: seq<T>, z: seq<T>)
    ensures a + (b + [y] + r) + z == (a + (b + [x] + r) + z)[|a| + |b| := y]
  {
  }

  lemma Rezip(m: Store, root: Ptr, c: Ctx, t: Tree)
    requires Cursor(m, root, c, t)
    ensures At(m, root, Top, Plug(c, t)) && RedBlackTree(Plug(c, t)) && Entries(Plug(c, t)) == All(c, t)
  {
    Zip(m, root, c, t);
    ZipBalanced(c, t);
    PlugEntries(c, t);
  }

  lemma {:induction false} HoldsOwn(m: Store, m': Store, t: Tree, p: Ptr)
    requires Holds(m, t, p)
    requires forall e :: e in Entries(t) ==> e.at in m && e.at in m' && m'[e.at] == m[e.at]
    ensures Holds(m', t, p)
  {
    if t.Fork? {
      assert Entry(t.n, t.seg) in Entries(t);
      HoldsOwn(m, m', t.left, t.n);
      HoldsOwn(m, m', t.right, t.n);
    }
  }

  lemma {:induction false} Increasing(t: Tree, lo: int, hi: int)
    requires Ord(t, lo, hi)
    ensures forall i :: 0 <= i < |Entries(t)| ==> lo < Entries(t)[i].seg.start < hi
    ensures forall i, j :: 0 <= i < j < |Entries(t)| ==> Entries(t)[i].seg.start < Entries(t)[j].seg.start
  {
    if t.Fork? {
      Increasing(t.left, lo, t.seg.start);
      Increasing(t.right, t.seg.start, hi);
    }
  }

  /** No node is linked twice. */
  lemma DistinctNodes(m: Store, t: Tree, p: Ptr)
    requires Holds(m, t, p) && Ord(t, -1, LIMIT)
    ensures forall i, j :: 0 <= i < j < |Entries(t)| ==> Entries(t)[i].at != Entries(t)[j].at
  {
    Increasing(t, -1, LIMIT);
    HeldEntries(m, t, p);
    forall i, j | 0 <= i < j < |Entries(t)| ensures Entries(t)[i].at != Entries(t)[j].at {
      assert Entries(t)[i] in Entries(t) && Entries(t)[j] in Entries(t);
    }
  }

  // ---------- height ----------

  ghost function Height(t: Tree): nat {
    if t.Leaf? then 0 else 1 + (if Height(t.left) < Height(t.right) then Height(t.right) else Height(t.left))
  }

  ghost function Pow2(n: nat): nat { if n == 0 then 1 else 2 * Pow2(n - 1) }

  lemma {:induction false} Pow2Add(a: nat, b: nat)
    ensures Pow2(a + b) == Pow2(a) * Pow2(b)
  {
    if a > 0 { Pow2Add(a - 1, b); }
  }

  lemma {:induction false} BlackHeightSize(t: Tree)
    requires Balanced(t)
    ensures Pow2(BlackHeight(t)) <= |Entries(t)| + 1
    ensures Height(t) <= 2 * BlackHeight(t) + (if Red(t) then 1 else 0)
  {
    if t.Fork? {
      BlackHeightSize(t.left);
      BlackHeightSize(t.right);
    }
  }

  /** The height is at most 2 lg(n + 1): 2 to the height is at most (n + 1) squared. */
  lemma HeightBound(t: Tree)
    requires RedBlackTree(t)
    ensures Pow2(Height(t)) <= (|Entries(t)| + 1) * (|Entries(t)| + 1)
  {
    var h, b, n := Height(t), BlackHeight(t), |Entries(t)| + 1;
    BlackHeightSize(t);
    Pow2Grows(h, 2 * b);
    Pow2Add(b, b);
    assert b + b == 2 * b;
    Squares(Pow2(b), n);
  }

  lemma Squares(a: nat, b: nat)
    requires a <= b
    ensures a * a <= b * b
  {
    assert a * a <= a * b <= b * b;
  }

  lemma {:induction false} Pow2Grows(a: nat, b: nat)
    requires a <= b
    ensures 1 <= Pow2(a) <= Pow2(b)
    decreases b
  {
    if a < b { Pow2Grows(a, b - 1); } else if a > 0 { Pow2Grows(a - 1, b - 1); }
  }

  /** stn_compare_func: the order of extents, 0 when they overlap. */
  function Compare(a: Seg, b: Seg): int {
    if a.start > b.end then 1 else if a.end < b.start then -1 else 0
  }

  ghost function Segs(es: seq<Entry>): seq<Seg> { seq(|es|, i requires 0 <= i < |es| => es[i].seg) }

  /** The extents of the nodes follow each other without overlap. */
  ghost predicate InOrder(es: seq<Entry>) {
    && (forall i :: 0 <= i < |es| ==> es[i].seg.start <= es[i].seg.end)
    && (forall i, j :: 0 <= i < j < |es| ==> es[i].seg.end < es[j].seg.start)
  }

  ghost predicate Passed(es: seq<Entry>, o: int) { es != [] ==> es[|es| - 1].seg.end < o }

  ghost predicate Ahead(es: seq<Entry>, o: int) { es != [] ==> o < es[0].seg.start }

  ghost predicate Lowest(es: seq<Entry>, o: nat, n: Ptr) {
    if es == [] then n == NULL else n == es[0].at && n != NULL && o < es[0].seg.start <= es[0].seg.end
  }

  class RbTree {
    var root: Ptr
    var mem: Store

    ghost var tree: Tree

    constructor ()
      ensures Valid() && Content() == [] && mem == map[]
    {
      root, mem, tree := NULL, map[], Leaf;
    }

    ghost predicate Shape(c: Ctx, t: Tree)
      reads this
    {
      At(mem, root, c, t)
    }

    ghost predicate Valid()
      reads this
    {
      At(mem, root, Top, tree) && RedBlackTree(tree)
    }

    /** The nodes of the tree in order. */
    ghost function Content(): seq<Entry>
      reads this
    {
      Entries(tree)
    }

    method ReplaceChild(p: Ptr, x: Ptr, y: Ptr)
      requires p != NULL ==> p in mem
      modifies this`mem, this`root
      ensures mem == LinkTo(old(mem), p, x, y)
      ensures root == if p == NULL then y else old(root)
    {
      if p != NULL {
        if x == mem[p].left {
          mem := mem[p := mem[p].(left := y)];
        } else {
          mem := mem[p := mem[p].(right := y)];
        }
      } else {
        root := y;
      }
    }

    /** RB_ROTATE_LEFT on the four records it touches. */
    method RotateLeftLinks(elm: Ptr) returns (tmp: Ptr)
      requires elm in mem && mem[elm].right != NULL && mem[elm].right in mem && mem[elm].right != elm
      requires mem[mem[elm].right].left != NULL ==>
        && mem[mem[elm].right].left in mem
        && mem[mem[elm].right].left != elm && mem[mem[elm].right].left != mem[elm].right
      requires mem[elm].parent != NULL ==>
        && mem[elm].parent in mem && mem[elm].parent != elm
        && mem[elm].parent != mem[elm].right && mem[elm].parent != mem[mem[elm].right].left
      modifies this`mem, this`root
      ensures mem.Keys == old(mem.Keys) && tmp == old(mem)[elm].right
      ensures
        var m, b, p := old(mem), old(mem)[tmp].left, old(mem)[elm].parent;
        && Only(m, mem, elm, tmp, b, p)
        && mem[elm] == m[elm].(right := b, parent := tmp)
        && mem[tmp] == m[tmp].(left := elm, parent := p)
        && (b != NULL ==> mem[b] == m[b].(parent := elm))
        && (p != NULL ==> mem[p] == LinkTo(m, p, elm, tmp)[p])
        && root == if p == NULL then tmp else old(root)
    {
      tmp := mem[elm].right;
      ghost var b, p := mem[tmp].left, mem[elm].parent;
      mem := mem[elm := mem[elm].(right := mem[tmp].left)];
      if mem[tmp].left != NULL {
        mem := mem[mem[tmp].left := mem[mem[tmp].left].(parent := elm)];
      }
      assert mem[tmp].left == b && mem[elm].parent == p;
      mem := mem[tmp := mem[tmp].(parent := mem[elm].parent)];
      ReplaceChild(mem[elm].parent, elm, tmp);
      assert mem[elm].left == old(mem)[elm].left && mem[elm].right == b;
      mem := mem[tmp := mem[tmp].(left := elm)];
      mem := mem[elm := mem[elm].(parent := tmp)];
    }

    method RotateRightLinks(elm: Ptr) returns (tmp: Ptr)
      requires elm in mem && mem[elm].left != NULL && mem[elm].left in mem && mem[elm].left != elm
      requires mem[mem[elm].left].right != NULL ==>
        && mem[mem[elm].left].right in mem
        && mem[mem[elm].left].right != elm && mem[mem[elm].left].right != mem[elm].left
      requires mem[elm].parent != NULL ==>
        && mem[elm].parent in mem && mem[elm].parent != elm
        && mem[elm].parent != mem[elm].left && mem[elm].parent != mem[mem[elm].left].right
      modifies this`mem, this`root
      ensures mem.Keys == old(mem.Keys) && tmp == old(mem)[elm].left
      ensures
        var m, b, p := old(mem), old(mem)[tmp].right, old(mem)[elm].parent;
        && Only(m, mem, elm, tmp, b, p)
        && mem[elm] == m[elm].(left := b, parent := tmp)
        && mem[tmp] == m[tmp].(right := elm, parent := p)
        && (b != NULL ==> mem[b] == m[b].(parent := elm))
        && (p != NULL ==> mem[p] == LinkTo(m, p, elm, tmp)[p])
        && root == if p == NULL then tmp else old(root)
    {
      tmp := mem[elm].left;
      ghost var b, p := mem[tmp].right, mem[elm].parent;
      mem := mem[elm := mem[elm].(left := mem[tmp].right)];
      if mem[tmp].right != NULL {
        mem := mem[mem[tmp].right := mem[mem[tmp].right].(parent := elm)];
      }
      assert mem[tmp].right == b && mem[elm].parent == p;
      mem := mem[tmp := mem[tmp].(parent := mem[elm].parent)];
      ReplaceChild(mem[elm].parent, elm, tmp);
      assert mem[elm].right == old(mem)[elm].right && mem[elm].left == b;
      mem := mem[tmp := mem[tmp].(right := elm)];
      mem := mem[elm := mem[elm].(parent := tmp)];
    }

    method RotateLeft(elm: Ptr, ghost c: Ctx, ghost t: Tree) returns (tmp: Ptr)
      requires Shape(c, t) && t.Fork? && t.right.Fork? && elm == t.n
      modifies this`mem, this`root
      ensures mem.Keys == old(mem.Keys) && tmp == t.right.n
      ensures Shape(c, RotL(t))
    {
      ghost var m, r := mem, root;
      assert Holds(m, t.right, elm) && Ord(t.right, t.seg.start, Hi(c));
      assert Holds(m, t.right.left, t.right.n) && Ord(t.right.left, t.seg.start, t.right.seg.start);
      tmp := RotateLeftLinks(elm);
      RotLTree(m, mem, r, c, t);
      CtxSwap(m, r, mem, root, c, elm, tmp);
    }

    method RotateRight(elm: Ptr, ghost c: Ctx, ghost t: Tree) returns (tmp: Ptr)
      requires Shape(c, t) && t.Fork? && t.left.Fork? && elm == t.n
      modifies this`mem, this`root
      ensures mem.Keys == old(mem.Keys) && tmp == t.left.n
      ensures Shape(c, RotR(t))
    {
      ghost var m, r := mem, root;
      assert Holds(m, t.left, elm) && Ord(t.left, Lo(c), t.seg.start);
      assert Holds(m, t.left.right, t.left.n) && Ord(t.left.right, t.left.seg.start, t.seg.start);
      tmp := RotateRightLinks(elm);
      RotRTree(m, mem, r, c, t);
      CtxSwap(m, r, mem, root, c, elm, tmp);
    }

    method SetColor(n: Ptr, red: bool)
      requires n in mem
      modifies this`mem
      ensures mem == Paint(old(mem), n, red)
    {
      mem := mem[n := mem[n].(red := red)];
    }

    /** Parent and uncle become black, the grandparent red. */
    method PushBlackDown(uncle: Ptr, parent: Ptr, gparent: Ptr, ghost c: Ctx, ghost t: Tree)
      requires Shape(c, t) && t.Fork? && t.left.Fork? && t.right.Fork? && gparent == t.n
      requires (uncle == t.right.n && parent == t.left.n) || (uncle == t.left.n && parent == t.right.n)
      modifies this`mem, this`root
      ensures mem.Keys == old(mem.Keys)
      ensures Shape(c, Fork(true, t.left.(red := false), t.n, t.seg, t.right.(red := false)))
    {
      ghost var t1 := t.(left := t.left.(red := false));
      ghost var t2 := t.(right := t.right.(red := false));
      RecolorLeft(mem, root, c, t, false);
      RecolorRight(mem, root, c, t, false);
      SetColor(uncle, false);
      if uncle == t.right.n {
        RecolorLeft(mem, root, c, t2, false);
      } else {
        RecolorRight(mem, root, c, t1, false);
      }
      SetColor(parent, false);
      Recolor(mem, root, c, t.(left := t.left.(red := false), right := t.right.(red := false)), true);
      SetColor(gparent, true);
    }

    /** RB_INSERT_COLOR below a left parent with a black uncle. */
    method InsertRotateLeftSide(e: Ptr, p: Ptr, gparent: Ptr, ghost c: Ctx, ghost t: Tree, ghost inner: bool)
      returns (elm: Ptr)
      requires Shape(c, t) && t.Fork? && t.left.Fork? && gparent == t.n && p == t.left.n
      requires if inner then t.left.right.Fork? && e == t.left.right.n else t.left.left.Fork? && e == t.left.left.n
      modifies this`mem, this`root
      ensures mem.Keys == old(mem.Keys) && elm == if inner then p else e
      ensures Shape(c, LiftLeft(t, inner))
    {
      elm := e;
      var parent := p;
      ghost var l := t.left;
      Refocus(mem, root, c, t);
      Siblings(mem, l, t.n, Lo(c), t.seg.start);
      assert mem[parent].right == elm <==> inner;
      if mem[parent].right == elm {
        var tmp := RotateLeft(parent, InLeft(t.red, t.n, t.seg, t.right, c), t.left);
        l := RotL(t.left);
        Refocus(mem, root, c, t.(left := l));
        tmp := parent;
        parent := elm;
        elm := tmp;
      }
      ghost var t1 := t.(left := l);
      RecolorLeft(mem, root, c, t1, false);
      SetColor(parent, false);
      Recolor(mem, root, c, t1.(left := l.(red := false)), true);
      SetColor(gparent, true);
      var _ := RotateRight(gparent, c, t1.(red := true, left := l.(red := false)));
    }

    method InsertRotateRightSide(e: Ptr, p: Ptr, gparent: Ptr, ghost c: Ctx, ghost t: Tree, ghost inner: bool)
      returns (elm: Ptr)
      requires Shape(c, t) && t.Fork? && t.right.Fork? && gparent == t.n && p == t.right.n
      requires if inner then t.right.left.Fork? && e == t.right.left.n else t.right.right.Fork? && e == t.right.right.n
      modifies this`mem, this`root
      ensures mem.Keys == old(mem.Keys) && elm == if inner then p else e
      ensures Shape(c, LiftRight(t, inner))
    {
      elm := e;
      var parent := p;
      ghost var r := t.right;
      Refocus(mem, root, c, t);
      Siblings(mem, r, t.n, t.seg.start, Hi(c));
      assert mem[parent].left == elm <==> inner;
      if mem[parent].left == elm {
        var tmp := RotateRight(parent, InRight(t.red, t.left, t.n, t.seg, c), t.right);
        r := RotR(t.right);
        Refocus(mem, root, c, t.(right := r));
        tmp := parent;
        parent := elm;
        elm := tmp;
      }
      ghost var t1 := t.(right := r);
      RecolorRight(mem, root, c, t1, false);
      SetColor(parent, false);
      Recolor(mem, root, c, t1.(right := r.(red := false)), true);
      SetColor(gparent, true);
      var _ := RotateLeft(gparent, c, t1.(red := true, right := r.(red := false)));
    }

    /** One round of RB_INSERT_COLOR below a left parent. */
    method InsertRoundLeft(e: Ptr, parent: Ptr, gparent: Ptr, ghost c: Ctx, ghost t: Tree)
      returns (elm: Ptr, ghost c': Ctx, ghost t': Tree)
      requires Shape(c, t) && t.Fork? && e == t.n && RedAt(c, t) && CtxRed(c) && c.up.InLeft?
      requires parent == c.n && gparent == c.up.n
      modifies this`mem, this`root
      ensures mem.Keys == old(mem.Keys) && Depth(c') < Depth(c)
      ensures Shape(c', t') && t'.Fork? && elm == t'.n && RedAt(c', t') && All(c', t') == All(c, t)
    {
      ghost var g := Up(c.up, Up(c, t));
      Refocus(mem, root, c.up, Up(c, t));
      Refocus(mem, root, c.up.up, g);
      FocusEntries(c, t);
      FocusEntries(c.up, Up(c, t));
      var tmp := mem[gparent].right;
      if tmp != NULL && mem[tmp].red {
        PushedBlack(c, t);
        PushBlackDown(tmp, parent, gparent, c.up.up, g);
        elm := gparent;
        c', t' := c.up.up, Fork(true, g.left.(red := false), g.n, g.seg, g.right.(red := false));
      } else {
        LiftedLeft(c, t);
        elm := InsertRotateLeftSide(e, parent, gparent, c.up.up, g, c.InRight?);
        ghost var l := LiftLeft(g, c.InRight?);
        Refocus(mem, root, c.up.up, l);
        c', t' := InLeft(false, l.n, l.seg, l.right, c.up.up), l.left;
        FocusEntries(c', t');
      }
    }

    /** One round of RB_INSERT_COLOR below a right parent. */
    method InsertRoundRight(e: Ptr, parent: Ptr, gparent: Ptr, ghost c: Ctx, ghost t: Tree)
      returns (elm: Ptr, ghost c': Ctx, ghost t': Tree)
      requires Shape(c, t) && t.Fork? && e == t.n && RedAt(c, t) && CtxRed(c) && c.up.InRight?
      requires parent == c.n && gparent == c.up.n
      modifies this`mem, this`root
      ensures mem.Keys == old(mem.Keys) && Depth(c') < Depth(c)
      ensures Shape(c', t') && t'.Fork? && elm == t'.n && RedAt(c', t') && All(c', t') == All(c, t)
    {
      ghost var g := Up(c.up, Up(c, t));
      Refocus(mem, root, c.up, Up(c, t));
      Refocus(mem, root, c.up.up, g);
      FocusEntries(c, t);
      FocusEntries(c.up, Up(c, t));
      var tmp := mem[gparent].left;
      if tmp != NULL && mem[tmp].red {
        PushedBlack(c, t);
        PushBlackDown(tmp, parent, gparent, c.up.up, g);
        elm := gparent;
        c', t' := c.up.up, Fork(true, g.left.(red := false), g.n, g.seg, g.right.(red := false));
      } else {
        LiftedRight(c, t);
        elm := InsertRotateRightSide(e, parent, gparent, c.up.up, g, c.InLeft?);
        ghost var l := LiftRight(g, c.InLeft?);
        Refocus(mem, root, c.up.up, l);
        c', t' := InRight(false, l.left, l.n, l.seg, c.up.up), l.right;
        FocusEntries(c', t');
      }
    }

    /** RB_INSERT_COLOR: repair the colours upward from a new red node. */
    method InsertColor(e: Ptr, ghost c0: Ctx, ghost t0: Tree) returns (ghost tree: Tree)
      requires Shape(c0, t0) && t0.Fork? && e == t0.n && RedAt(c0, t0)
      modifies this`mem, this`root
      ensures mem.Keys == old(mem.Keys)
      ensures Shape(Top, tree) && RedBlackTree(tree) && Entries(tree) == All(c0, t0)
    {
      var elm := e;
      ghost var c, t := c0, t0;
      while mem[elm].parent != NULL && mem[mem[elm].parent].red
        invariant mem.Keys == old(mem.Keys)
        invariant Shape(c, t) && t.Fork? && elm == t.n && RedAt(c, t) && All(c, t) == All(c0, t0)
        invariant elm in mem && mem[elm].parent == Parent(c)
        invariant !c.Top? ==> c.n != NULL && c.n in mem && mem[c.n].red == c.red
        decreases Depth(c)
      {
        RedParent(c, t);
        var parent := mem[elm].parent;
        var gparent := mem[parent].parent;
        ghost var g := Up(c.up, Up(c, t));
        Refocus(mem, root, c.up, Up(c, t));
        Refocus(mem, root, c.up.up, g);
        Siblings(mem, g, Parent(c.up.up), Lo(c.up.up), Hi(c.up.up));
        if parent == mem[gparent].left {
          elm, c, t := InsertRoundLeft(elm, parent, gparent, c, t);
        } else {
          elm, c, t := InsertRoundRight(elm, parent, gparent, c, t);
        }
      }
      Zip(mem, root, c, t);
      PlugEntries(c, t);
      tree := Plug(c, t);
      PlugFork(c, t);
      Recolor(mem, root, Top, tree, false);
      SetColor(root, false);
      tree := tree.(red := false);
      FinishedRed(c, t);
    }

    /** The descent of RB_INSERT and RB_FIND: down to a node overlapping g, or to the free place for g. */
    method Locate(g: Seg) returns (tmp: Ptr, parent: Ptr, comp: int, ghost c: Ctx, ghost t: Tree)
      requires Valid() && g.start <= g.end < LIMIT
      ensures Cursor(mem, root, c, t) && All(c, t) == Content()
      ensures tmp == Root(t) && parent == Parent(c)
      ensures (comp < 0 ==> c.InLeft?) && (comp > 0 ==> c.InRight?) && (tmp == NULL && comp == 0 ==> c.Top?)
      ensures Lo(c) < g.start < Hi(c)
      ensures t.Leaf? || Compare(g, t.seg) == 0
      ensures Passed(Before(c), g.start) && Ahead(After(c), g.end)
    {
      tmp := root;
      parent := NULL;
      comp := 0;
      c, t := Top, tree;
      while tmp != NULL
        invariant Cursor(mem, root, c, t) && All(c, t) == Content()
        invariant tmp == Root(t) && parent == Parent(c)
        invariant (comp < 0 <==> c.InLeft?) && (comp > 0 <==> c.InRight?)
        invariant Lo(c) < g.start < Hi(c)
        invariant Passed(Before(c), g.start) && Ahead(After(c), g.end)
        decreases t
      {
        var comp' := Compare(g, mem[tmp].seg);
        Descend(mem, root, c, t);
        if comp' == 0 {
          return;
        }
        parent, comp := tmp, comp';
        if comp < 0 {
          tmp := mem[tmp].left;
          c, t := InLeft(t.red, t.n, t.seg, t.right, c), t.left;
        } else {
          tmp := mem[tmp].right;
          c, t := InRight(t.red, t.left, t.n, t.seg, c), t.right;
        }
      }
    }

    /** RB_INSERT: link the new node elm in order, unless its extent overlaps a node already there.
        Returns that node, or NULL; k is its place, or the place of the new one. */
    method Insert(elm: Ptr, g: Seg) returns (overlap: Ptr, ghost k: nat)
      requires Valid() && elm != NULL && elm !in mem && g.start <= g.end < LIMIT
      modifies this
      ensures Valid()
      ensures overlap != NULL ==>
        && mem == old(mem) && Content() == old(Content())
        && k < |Content()| && Content()[k].at == overlap && Compare(g, Content()[k].seg) == 0
      ensures overlap == NULL ==>
        var es := old(Content());
        && mem.Keys == old(mem.Keys) + {elm}
        && k <= |es| && Content() == es[..k] + [Entry(elm, g)] + es[k..]
        && (k > 0 ==> es[k - 1].seg.end < g.start) && (k < |es| ==> g.end < es[k].seg.start)
    {
      var tmp, parent, comp;
      ghost var c, t;
      tmp, parent, comp, c, t := Locate(g);
      overlap := tmp;
      if tmp != NULL {
        k := |Before(c)| + |Entries(t.left)|;
        assert All(c, t)[k] == Entry(t.n, t.seg);
      } else {
        k := |Before(c)|;
        Attach(elm, g, parent, comp, c);
      }
    }

    /** RB_INSERT from RB_SET on: hang the new node below the cursor and repair the colours. */
    method Attach(elm: Ptr, g: Seg, parent: Ptr, comp: int, ghost c: Ctx)
      requires Cursor(mem, root, c, Leaf) && elm != NULL && elm !in mem && parent == Parent(c)
      requires (comp < 0 ==> c.InLeft?) && (comp > 0 ==> c.InRight?) && (comp == 0 ==> c.Top?)
      requires Lo(c) < g.start < Hi(c) && g.start <= g.end
      modifies this
      ensures Valid() && mem.Keys == old(mem.Keys) + {elm}
      ensures All(c, Leaf) == Before(c) + After(c)
      ensures Content() == Before(c) + [Entry(elm, g)] + After(c)
    {
      ghost var t := Fork(true, Leaf, elm, g, Leaf);
      LeafEntries(c, elm, g);
      LinkLeaf(elm, g, parent, comp, c);
      tree := InsertColor(elm, c, t);
    }

    method LinkLeaf(elm: Ptr, g: Seg, parent: Ptr, comp: int, ghost c: Ctx)
      requires Shape(c, Leaf) && elm != NULL && elm !in mem && parent == Parent(c)
      requires (comp < 0 ==> c.InLeft?) && (comp > 0 ==> c.InRight?) && (comp == 0 ==> c.Top?)
      requires Lo(c) < g.start < Hi(c) && g.start <= g.end
      modifies this`mem, this`root
      ensures mem.Keys == old(mem.Keys) + {elm}
      ensures Shape(c, Fork(true, Leaf, elm, g, Leaf))
    {
      ghost var m, r := mem, root;
      mem := mem[elm := Rec(NULL, NULL, parent, true, g)];
      if parent != NULL {
        if comp < 0 {
          mem := mem[parent := mem[parent].(left := elm)];
        } else {
          mem := mem[parent := mem[parent].(right := elm)];
        }
      } else {
        root := elm;
      }
      Hung(m, r, mem, root, c, elm, g);
    }

    /** RB_REMOVE_COLOR, red sibling on the right: rotate it above the parent. */
    method RemoveFlipLeft(parent: Ptr, tmp: Ptr, ghost c: Ctx, ghost t: Tree)
      requires Shape(c, t) && c.InLeft? && c.right.Fork? && parent == c.n && tmp == c.right.n
      modifies this`mem, this`root
      ensures mem.Keys == old(mem.Keys)
      ensures Shape(FlipLeft(c), t)
    {
      ghost var p := Up(c, t);
      Refocus(mem, root, c.up, p);
      RecolorRight(mem, root, c.up, p, false);
      SetColor(tmp, false);
      p := p.(right := p.right.(red := false));
      Recolor(mem, root, c.up, p, true);
      SetColor(parent, true);
      p := p.(red := true);
      var _ := RotateLeft(parent, c.up, p);
      Refocus(mem, root, c.up, RotL(p));
      Refocus(mem, root, FlipLeft(c).up, RotL(p).left);
    }

    /** RB_REMOVE_COLOR: make the far child of the sibling red. */
    method RemoveFarRedLeft(parent: Ptr, s: Ptr, ghost c: Ctx, ghost t: Tree) returns (tmp: Ptr)
      requires Shape(c, t) && c.InLeft? && c.right.Fork? && parent == c.n && s == c.right.n
      requires Red(c.right.right) || Red(c.right.left)
      modifies this`mem, this`root
      ensures mem.Keys == old(mem.Keys) && tmp == FarRedLeft(c.right).n
      ensures Shape(c.(right := FarRedLeft(c.right)), t)
    {
      tmp := s;
      ghost var p := Up(c, t);
      Refocus(mem, root, c.up, p);
      ghost var k := InRight(c.red, t, c.n, c.seg, c.up);
      Kids(mem, root, k, c.right);
      if mem[tmp].right == NULL || !mem[mem[tmp].right].red {
        var oleft := mem[tmp].left;
        if oleft != NULL {
          RecolorLeft(mem, root, k, c.right, false);
          SetColor(oleft, false);
        }
        ghost var q := c.right.(left := c.right.left.(red := false));
        Recolor(mem, root, k, q, true);
        SetColor(tmp, true);
        oleft := RotateRight(tmp, k, q.(red := true));
        Refocus(mem, root, c.up, p.(right := RotR(q.(red := true))));
        Kids(mem, root, c.up, p.(right := RotR(q.(red := true))));
        tmp := mem[parent].right;
      }
    }

    /** RB_REMOVE_COLOR: the sibling takes the parent's colour, the parent and the far child become black. */
    method RemovePaintLeft(parent: Ptr, tmp: Ptr, ghost c: Ctx, ghost p: Tree)
      requires Shape(c, p) && p.Fork? && p.right.Fork? && p.right.right.Fork? && parent == p.n && tmp == p.right.n
      modifies this`mem, this`root
      ensures mem.Keys == old(mem.Keys)
      ensures Shape(c, p.(red := false, right := p.right.(red := p.red, right := p.right.right.(red := false))))
    {
      Kids(mem, root, c, p);
      RecolorRight(mem, root, c, p, p.red);
      SetColor(tmp, mem[parent].red);
      ghost var p1 := p.(right := p.right.(red := p.red));
      Recolor(mem, root, c, p1, false);
      SetColor(parent, false);
      ghost var p2 := p1.(red := false);
      ghost var k := InRight(false, p2.left, p2.n, p2.seg, c);
      Refocus(mem, root, c, p2);
      Kids(mem, root, k, p2.right);
      if mem[tmp].right != NULL {
        RecolorRight(mem, root, k, p2.right, false);
        SetColor(mem[tmp].right, false);
      }
      Refocus(mem, root, c, p2.(right := p2.right.(right := p2.right.right.(red := false))));
    }

    /** RB_REMOVE_COLOR, a red child of the sibling: the last rotation. */
    method RemoveSettleLeft(parent: Ptr, s: Ptr, ghost c: Ctx, ghost t: Tree)
      requires Shape(c, t) && c.InLeft? && c.right.Fork? && !Red(c.right) && Balanced(c.right) && parent == c.n &&
        s == c.right.n
      requires Red(c.right.right) || Red(c.right.left)
      modifies this`mem, this`root
      ensures mem.Keys == old(mem.Keys)
      ensures Shape(c.up, SettleLeft(c, t))
    {
      FarIsRedLeft(c.right);
      var tmp := RemoveFarRedLeft(parent, s, c, t);
      ghost var q := FarRedLeft(c.right);
      ghost var p := Up(c.(right := q), t);
      Refocus(mem, root, c.up, p);
      RemovePaintLeft(parent, tmp, c.up, p);
      var _ := RotateLeft(parent, c.up, p.(red := false, right := q.(red := c.red, right := q.right.(red := false))));
    }

    /** RB_REMOVE_COLOR, red sibling on the left: rotate it above the parent. */
    method RemoveFlipRight(parent: Ptr, tmp: Ptr, ghost c: Ctx, ghost t: Tree)
      requires Shape(c, t) && c.InRight? && c.left.Fork? && parent == c.n && tmp == c.left.n
      modifies this`mem, this`root
      ensures mem.Keys == old(mem.Keys)
      ensures Shape(FlipRight(c), t)
    {
      ghost var p := Up(c, t);
      Refocus(mem, root, c.up, p);
      RecolorLeft(mem, root, c.up, p, false);
      SetColor(tmp, false);
      p := p.(left := p.left.(red := false));
      Recolor(mem, root, c.up, p, true);
      SetColor(parent, true);
      p := p.(red := true);
      var _ := RotateRight(parent, c.up, p);
      Refocus(mem, root, c.up, RotR(p));
      Refocus(mem, root, FlipRight(c).up, RotR(p).right);
    }

    /** RB_REMOVE_COLOR: make the far child of the sibling red. */
    method RemoveFarRedRight(parent: Ptr, s: Ptr, ghost c: Ctx, ghost t: Tree) returns (tmp: Ptr)
      requires Shape(c, t) && c.InRight? && c.left.Fork? && parent == c.n && s == c.left.n
      requires Red(c.left.left) || Red(c.left.right)
      modifies this`mem, this`root
      ensures mem.Keys == old(mem.Keys) && tmp == FarRedRight(c.left).n
      ensures Shape(c.(left := FarRedRight(c.left)), t)
    {
      tmp := s;
      ghost var p := Up(c, t);
      Refocus(mem, root, c.up, p);
      ghost var k := InLeft(c.red, c.n, c.seg, t, c.up);
      Kids(mem, root, k, c.left);
      if mem[tmp].left == NULL || !mem[mem[tmp].left].red {
        var oright := mem[tmp].right;
        if oright != NULL {
          RecolorRight(mem, root, k, c.left, false);
          SetColor(oright, false);
        }
        ghost var q := c.left.(right := c.left.right.(red := false));
        Recolor(mem, root, k, q, true);
        SetColor(tmp, true);
        oright := RotateLeft(tmp, k, q.(red := true));
        Refocus(mem, root, c.up, p.(left := RotL(q.(red := true))));
        Kids(mem, root, c.up, p.(left := RotL(q.(red := true))));
        tmp := mem[parent].left;
      }
    }

    /** RB_REMOVE_COLOR: the sibling takes the parent's colour, the parent and the far child become black. */
    method RemovePaintRight(parent: Ptr, tmp: Ptr, ghost c: Ctx, ghost p: Tree)
      requires Shape(c, p) && p.Fork? && p.left.Fork? && p.left.left.Fork? && parent == p.n && tmp == p.left.n
      modifies this`mem, this`root
      ensures mem.Keys == old(mem.Keys)
      ensures Shape(c, p.(red := false, left := p.left.(red := p.red, left := p.left.left.(red := false))))
    {
      Kids(mem, root, c, p);
      RecolorLeft(mem, root, c, p, p.red);
      SetColor(tmp, mem[parent].red);
      ghost var p1 := p.(left := p.left.(red := p.red));
      Recolor(mem, root, c, p1, false);
      SetColor(parent, false);
      ghost var p2 := p1.(red := false);
      ghost var k := InLeft(false, p2.n, p2.seg, p2.right, c);
      Refocus(mem, root, c, p2);
      Kids(mem, root, k, p2.left);
      if mem[tmp].left != NULL {
        RecolorLeft(mem, root, k, p2.left, false);
        SetColor(mem[tmp].left, false);
      }
      Refocus(mem, root, c, p2.(left := p2.left.(left := p2.left.left.(red := false))));
    }

    /** RB_REMOVE_COLOR, a red child of the sibling: the last rotation. */
    method RemoveSettleRight(parent: Ptr, s: Ptr, ghost c: Ctx, ghost t: Tree)
      requires Shape(c, t) && c.InRight? && c.left.Fork? && !Red(c.left) && Balanced(c.left) && parent == c.n &&
        s == c.left.n
      requires Red(c.left.left) || Red(c.left.right)
      modifies this`mem, this`root
      ensures mem.Keys == old(mem.Keys)
      ensures Shape(c.up, SettleRight(c, t))
    {
      FarIsRedRight(c.left);
      var tmp := RemoveFarRedRight(parent, s, c, t);
      ghost var q := FarRedRight(c.left);
      ghost var p := Up(c.(left := q), t);
      Refocus(mem, root, c.up, p);
      RemovePaintRight(parent, tmp, c.up, p);
      var _ := RotateRight(parent, c.up, p.(red := false, left := q.(red := c.red, left := q.left.(red := false))));
    }

    /** RB_REMOVE_COLOR, black sibling on the right. */
    method RemoveBlackSiblingLeft(p: Ptr, tmp: Ptr, ghost c: Ctx, ghost t: Tree)
      returns (elm: Ptr, parent: Ptr, done: bool, ghost c': Ctx, ghost t': Tree)
      requires Shape(c, t) && ShortAt(c, t) && !Red(t) && c.InLeft? && c.right.Fork? && !Red(c.right)
      requires p == c.n && tmp == c.right.n
      modifies this`mem, this`root
      ensures mem.Keys == old(mem.Keys) && All(c', t') == All(c, t)
      ensures c' == c.up && (!done ==> t'.Fork? && t'.red == c.red)
      ensures !done ==> Shape(c', t') && ShortAt(c', t') && elm == Root(t') && parent == Parent(c')
      ensures done ==> Cursor(mem, root, c', t') && elm == root
    {
      ghost var u := Up(c, t);
      ghost var k := InRight(c.red, t, c.n, c.seg, c.up);
      Refocus(mem, root, c.up, u);
      Kids(mem, root, k, c.right);
      if (mem[tmp].left == NULL || !mem[mem[tmp].left].red) && (mem[tmp].right == NULL || !mem[mem[tmp].right].red) {
        SunkLeft(c, t);
        RecolorRight(mem, root, c.up, u, true);
        SetColor(tmp, true);
        c', t', done := c.up, u.(right := u.right.(red := true)), false;
        Kids(mem, root, c', t');
        elm := p;
        parent := mem[elm].parent;
      } else {
        SettledLeft(c, t);
        RemoveSettleLeft(p, tmp, c, t);
        elm, parent, done := root, NULL, true;
        c', t' := c.up, SettleLeft(c, t);
      }
    }

    /** One round of RB_REMOVE_COLOR with the short side on the left. */
    method RemoveRoundLeft(p: Ptr, ghost c0: Ctx, ghost t: Tree)
      returns (elm: Ptr, parent: Ptr, done: bool, ghost c': Ctx, ghost t': Tree)
      requires Shape(c0, t) && ShortAt(c0, t) && !Red(t) && c0.InLeft? && p == c0.n
      modifies this`mem, this`root
      ensures mem.Keys == old(mem.Keys) && All(c', t') == All(c0, t)
      ensures !done ==> Shape(c', t') && ShortAt(c', t') && elm == Root(t') && parent == Parent(c')
      ensures !done ==> Rank(c', t') < Rank(c0, t)
      ensures done ==> Cursor(mem, root, c', t') && elm == root
    {
      ghost var c := c0;
      ShortSiblingLeft(c, t);
      Refocus(mem, root, c.up, Up(c, t));
      Kids(mem, root, c.up, Up(c, t));
      var tmp := mem[p].right;
      if mem[tmp].red {
        FlippedLeft(c, t);
        RemoveFlipLeft(p, tmp, c, t);
        c := FlipLeft(c);
        Refocus(mem, root, c.up, Up(c, t));
        Kids(mem, root, c.up, Up(c, t));
        tmp := mem[p].right;
      }
      elm, parent, done, c', t' := RemoveBlackSiblingLeft(p, tmp, c, t);
    }

    /** RB_REMOVE_COLOR, black sibling on the left. */
    method RemoveBlackSiblingRight(p: Ptr, tmp: Ptr, ghost c: Ctx, ghost t: Tree)
      returns (elm: Ptr, parent: Ptr, done: bool, ghost c': Ctx, ghost t': Tree)
      requires Shape(c, t) && ShortAt(c, t) && !Red(t) && c.InRight? && c.left.Fork? && !Red(c.left)
      requires p == c.n && tmp == c.left.n
      modifies this`mem, this`root
      ensures mem.Keys == old(mem.Keys) && All(c', t') == All(c, t)
      ensures c' == c.up && (!done ==> t'.Fork? && t'.red == c.red)
      ensures !done ==> Shape(c', t') && ShortAt(c', t') && elm == Root(t') && parent == Parent(c')
      ensures done ==> Cursor(mem, root, c', t') && elm == root
    {
      ghost var u := Up(c, t);
      ghost var k := InLeft(c.red, c.n, c.seg, t, c.up);
      Refocus(mem, root, c.up, u);
      Kids(mem, root, k, c.left);
      if (mem[tmp].right == NULL || !mem[mem[tmp].right].red) && (mem[tmp].left == NULL || !mem[mem[tmp].left].red) {
        SunkRight(c, t);
        RecolorLeft(mem, root, c.up, u, true);
        SetColor(tmp, true);
        c', t', done := c.up, u.(left := u.left.(red := true)), false;
        Kids(mem, root, c', t');
        elm := p;
        parent := mem[elm].parent;
      } else {
        SettledRight(c, t);
        RemoveSettleRight(p, tmp, c, t);
        elm, parent, done := root, NULL, true;
        c', t' := c.up, SettleRight(c, t);
      }
    }

    /** One round of RB_REMOVE_COLOR with the short side on the right. */
    method RemoveRoundRight(p: Ptr, ghost c0: Ctx, ghost t: Tree)
      returns (elm: Ptr, parent: Ptr, done: bool, ghost c': Ctx, ghost t': Tree)
      requires Shape(c0, t) && ShortAt(c0, t) && !Red(t) && c0.InRight? && p == c0.n
      modifies this`mem, this`root
      ensures mem.Keys == old(mem.Keys) && All(c', t') == All(c0, t)
      ensures !done ==> Shape(c', t') && ShortAt(c', t') && elm == Root(t') && parent == Parent(c')
      ensures !done ==> Rank(c', t') < Rank(c0, t)
      ensures done ==> Cursor(mem, root, c', t') && elm == root
    {
      ghost var c := c0;
      ShortSiblingRight(c, t);
      Refocus(mem, root, c.up, Up(c, t));
      Kids(mem, root, c.up, Up(c, t));
      var tmp := mem[p].left;
      if mem[tmp].red {
        FlippedRight(c, t);
        RemoveFlipRight(p, tmp, c, t);
        c := FlipRight(c);
        Refocus(mem, root, c.up, Up(c, t));
        Kids(mem, root, c.up, Up(c, t));
        tmp := mem[p].left;
      }
      elm, parent, done, c', t' := RemoveBlackSiblingRight(p, tmp, c, t);
    }

    /** RB_REMOVE_COLOR: restore the black missing below the cursor. */
    method RemoveColor(p: Ptr, e: Ptr, ghost c0: Ctx, ghost t0: Tree)
      requires Shape(c0, t0) && ShortAt(c0, t0) && e == Root(t0) && p == Parent(c0)
      modifies this
      ensures Valid() && mem.Keys == old(mem.Keys) && Content() == All(c0, t0)
    {
      var parent, elm, done := p, e, false;
      ghost var c, t := c0, t0;
      while !done && (elm == NULL || !mem[elm].red) && elm != root
        invariant mem.Keys == old(mem.Keys) && All(c, t) == All(c0, t0)
        invariant !done ==> Shape(c, t) && ShortAt(c, t) && elm == Root(t) && parent == Parent(c)
        invariant elm != NULL ==> elm in mem && (!done ==> mem[elm].red == t.red)
        invariant done ==> Cursor(mem, root, c, t) && elm == root
        decreases !done, Rank(c, t)
      {
        ghost var u := Up(c, t);
        Refocus(mem, root, c.up, u);
        Kids(mem, root, c.up, u);
        if c.InLeft? { ShortSiblingLeft(c, t); } else { ShortSiblingRight(c, t); }
        Siblings(mem, u, Parent(c.up), Lo(c.up), Hi(c.up));
        if mem[parent].left == elm {
          elm, parent, done, c, t := RemoveRoundLeft(parent, c, t);
        } else {
          elm, parent, done, c, t := RemoveRoundRight(parent, c, t);
        }
        if done { Zip(mem, root, c, t); }
      }
      RemoveFinish(elm, done, c, t);
    }

    /** The last lines of RB_REMOVE_COLOR. */
    method RemoveFinish(elm: Ptr, done: bool, ghost c: Ctx, ghost t: Tree)
      requires !done ==> Shape(c, t) && ShortAt(c, t) && elm == Root(t) && (elm == root || Red(t))
      requires done ==> Cursor(mem, root, c, t) && elm == root
      modifies this
      ensures Valid() && mem.Keys == old(mem.Keys) && Content() == All(c, t)
    {
      if done {
        Zip(mem, root, c, t);
        ZipBalanced(c, t);
        PlugEntries(c, t);
        tree := Plug(c, t);
        if elm != NULL {
          Recolor(mem, root, Top, tree, false);
          assert tree.(red := false) == tree;
          SetColor(elm, false);
        }
      } else {
        if !c.Top? { RootOutside(mem, root, c, Root(t)); }
        if elm != NULL {
          Recolor(mem, root, c, t, false);
          SetColor(elm, false);
        }
        FinishedShort(mem, root, c, t);
        tree := Plug(c, Blackened(t));
      }
    }

    /** RB_REMOVE: the only child, if any, takes the place of elm. */
    method Splice(elm: Ptr, child: Ptr, ghost c: Ctx, ghost t: Tree, ghost x: Tree) returns (parent: Ptr, red: bool)
      requires Shape(c, t) && t.Fork? && elm == t.n && child == Root(x)
      requires (t.left.Leaf? && x == t.right) || (t.right.Leaf? && x == t.left)
      modifies this`mem, this`root
      ensures mem.Keys == old(mem.Keys) && parent == Parent(c) && red == t.red
      ensures Shape(c, x) && mem[elm] == old(mem)[elm] && mem[elm].seg == t.seg
    {
      ghost var m, r := mem, root;
      Kids(mem, root, c, t);
      if !c.Top? { ParentLink(mem, root, c, t); }
      parent := mem[elm].parent;
      red := mem[elm].red;
      if child != NULL {
        mem := mem[child := mem[child].(parent := parent)];
      }
      ReplaceChild(parent, elm, child);
      Spliced(m, r, mem, root, c, t, x);
    }

    /** RB_REMOVE: elm takes the links and the colour of node o, whose successor it was. */
    method TakePlace(o: Ptr, elm: Ptr, ghost c: Ctx, ghost t: Tree)
      requires Shape(c, t) && t.Fork? && t.left.Fork? && o == t.n && elm != NULL && elm in mem
      requires t.seg.start < mem[elm].seg.start < Hi(c) && Ord(t.right, mem[elm].seg.start, Hi(c))
      requires mem[elm].seg.start <= mem[elm].seg.end
      modifies this`mem, this`root
      ensures mem.Keys == old(mem.Keys)
      ensures Shape(c, Fork(t.red, t.left, elm, old(mem)[elm].seg, t.right))
    {
      ghost var m, r := mem, root;
      Kids(mem, root, c, t);
      if !c.Top? { ParentLink(mem, root, c, t); KeyOfParent(mem, root, c, o); }
      mem := mem[elm := mem[o].(seg := mem[elm].seg)];
      ReplaceChild(mem[o].parent, o, elm);
      mem := mem[mem[o].left := mem[mem[o].left].(parent := elm)];
      if mem[o].right != NULL {
        mem := mem[mem[o].right := mem[mem[o].right].(parent := elm)];
      }
      Replaced(m, r, mem, root, c, t, elm, m[elm].seg);
    }

    /** RB_REMOVE from label color on, the node having been spliced out. */
    method Recover(parent: Ptr, child: Ptr, red: bool, ghost c: Ctx, ghost x: Tree)
      requires Shape(c, x) && parent == Parent(c) && child == Root(x) && Balanced(x) && RootBlack(c)
      requires red ==> !c.Top? && !CtxRed(c) && CtxBalanced(c, BlackHeight(x))
      requires !red ==> ShortAt(c, x)
      modifies this
      ensures Valid() && mem.Keys == old(mem.Keys) && Content() == All(c, x)
    {
      if !red {
        RemoveColor(parent, child, c, x);
      } else {
        Zip(mem, root, c, x);
        ZipBalanced(c, x);
        PlugEntries(c, x);
        tree := Plug(c, x);
      }
    }

    /** RB_REMOVE of a node with two children. */
    method RemoveInner(o: Ptr, ghost c: Ctx, ghost t: Tree)
      requires Cursor(mem, root, c, t) && t.Fork? && t.left.Fork? && t.right.Fork? && o == t.n
      modifies this
      ensures Valid() && mem.Keys == old(mem.Keys)
      ensures Content() == Before(c) + Entries(t.left) + Entries(t.right) + After(c)
    {
      ghost var base := InRight(t.red, t.left, t.n, t.seg, c);
      ghost var inner, y := Top, t.right;
      Descend(mem, root, c, t);
      Kids(mem, root, c, t);
      var elm := mem[o].right;
      Kids(mem, root, base, y);
      while mem[elm].left != NULL
        invariant LeftPath(inner) && Plug(inner, y) == t.right && y.Fork? && elm == y.n
        invariant elm in mem && mem[elm].left == Root(y.left)
        invariant Cursor(mem, root, Append(inner, base), y)
        invariant mem == old(mem) && root == old(root)
        decreases y
      {
        Descend(mem, root, Append(inner, base), y);
        inner, y := InLeft(y.red, y.n, y.seg, y.right, inner), y.left;
        elm := mem[elm].left;
        Kids(mem, root, Append(inner, base), y);
      }
      Kids(mem, root, Append(inner, base), y);
      RemoveSuccessor(o, elm, c, t, inner, y);
    }

    /** RB_REMOVE: the successor elm is spliced out and takes the place of o. */
    method Promote(o: Ptr, elm: Ptr, ghost c: Ctx, ghost t: Tree, ghost inner: Ctx, ghost y: Tree)
      returns (parent: Ptr, child: Ptr, red: bool)
      requires At(mem, root, c, t) && t.Fork? && t.left.Fork? && o == t.n
      requires LeftPath(inner) && Plug(inner, y) == t.right && y.Fork? && y.left.Leaf? && elm == y.n
      requires At(mem, root, Append(inner, InRight(t.red, t.left, t.n, t.seg, c)), y)
      modifies this`mem, this`root
      ensures mem.Keys == old(mem.Keys) && child == Root(y.right) && red == y.red
      ensures Shape(Append(inner, InRight(t.red, t.left, y.n, y.seg, c)), y.right)
      ensures parent == Parent(Append(inner, InRight(t.red, t.left, y.n, y.seg, c)))
    {
      ghost var base := InRight(t.red, t.left, t.n, t.seg, c);
      ghost var r' := Plug(inner, y.right);
      ParentOfSuccessor(mem, root, c, t, inner, y);
      LoAppend(inner, base);
      Kids(mem, root, Append(inner, base), y);
      OrdAfterFirst(inner, y, y.right, t.seg.start, Hi(c), y.seg.start);
      child := mem[elm].right;
      parent, red := Splice(elm, child, Append(inner, base), y, y.right);
      AtAppend(mem, root, inner, base, y.right);
      Refocus(mem, root, c, t.(right := r'));
      if mem[elm].parent == o {
        parent := elm;
      }
      TakePlace(o, elm, c, t.(right := r'));
      Refocus(mem, root, c, Fork(t.red, t.left, y.n, y.seg, r'));
      AtAppend(mem, root, inner, InRight(t.red, t.left, y.n, y.seg, c), y.right);
    }

    /** RB_REMOVE of a node with two children, from its successor elm on. */
    method RemoveSuccessor(o: Ptr, elm: Ptr, ghost c: Ctx, ghost t: Tree, ghost inner: Ctx, ghost y: Tree)
      requires At(mem, root, c, t) && t.Fork? && t.left.Fork? && o == t.n
      requires LeftPath(inner) && Plug(inner, y) == t.right && y.Fork? && y.left.Leaf? && elm == y.n
      requires Cursor(mem, root, Append(inner, InRight(t.red, t.left, t.n, t.seg, c)), y)
      modifies this
      ensures Valid() && mem.Keys == old(mem.Keys)
      ensures Content() == Before(c) + Entries(t.left) + Entries(t.right) + After(c)
    {
      ghost var base := InRight(t.red, t.left, t.n, t.seg, c);
      ghost var base' := InRight(t.red, t.left, y.n, y.seg, c);
      SpliceBalance(mem, root, Append(inner, base), y, y.right);
      var parent, child, red := Promote(o, elm, c, t, inner, y);
      BalancedAppend(inner, base, base', if y.red then BlackHeight(y.right) else BlackHeight(y.right) + 1);
      SuccessorEntries(c, t, inner, y);
      Recover(parent, child, red, Append(inner, base'), y.right);
    }

    /** RB_REMOVE and free() of the k-th node. */
    method Remove(elm: Ptr, ghost k: nat)
      requires Valid() && k < |Content()| && Content()[k].at == elm
      modifies this
      ensures Valid() && elm in old(mem) && mem.Keys == old(mem.Keys) - {elm}
      ensures Content() == old(Content())[..k] + old(Content())[k + 1..]
    {
      HeldEntries(mem, tree, NULL);
      DistinctNodes(mem, tree, NULL);
      Unlink(elm, k);
      HeldEntries(mem, tree, NULL);
      HoldsOwn(mem, mem - {elm}, tree, NULL);
      mem := mem - {elm};
    }

    /** RB_REMOVE: unlink the k-th node. */
    method Unlink(elm: Ptr, ghost k: nat)
      requires Valid() && k < |Content()| && Content()[k].at == elm
      modifies this
      ensures Valid() && mem.Keys == old(mem.Keys)
      ensures Content() == old(Content())[..k] + old(Content())[k + 1..]
    {
      ghost var c, t := SeekAround(mem, root, tree, k);
      UnlinkHere(elm, c, t);
    }

    method UnlinkHere(elm: Ptr, ghost c: Ctx, ghost t: Tree)
      requires Cursor(mem, root, c, t) && t.Fork? && elm == t.n
      modifies this
      ensures Valid() && mem.Keys == old(mem.Keys)
      ensures Content() == Before(c) + Entries(t.left) + Entries(t.right) + After(c)
    {
      Kids(mem, root, c, t);
      if mem[elm].left == NULL {
        NoLeft(Before(c), Entries(t.left));
        RemoveOuter(elm, mem[elm].right, c, t, t.right);
      } else if mem[elm].right == NULL {
        NoLeft(Before(c) + Entries(t.left), Entries(t.right));
        RemoveOuter(elm, mem[elm].left, c, t, t.left);
      } else {
        RemoveInner(elm, c, t);
      }
    }

    /** RB_REMOVE of a node with at most one child. */
    method RemoveOuter(elm: Ptr, child: Ptr, ghost c: Ctx, ghost t: Tree, ghost x: Tree)
      requires Cursor(mem, root, c, t) && t.Fork? && elm == t.n && child == Root(x)
      requires (t.left.Leaf? && x == t.right) || (t.right.Leaf? && x == t.left)
      modifies this
      ensures Valid() && mem.Keys == old(mem.Keys) && Content() == All(c, x)
    {
      SpliceBalance(mem, root, c, t, x);
      var parent, red := Splice(elm, child, c, t, x);
      Recover(parent, child, red, c, x);
    }

    // ---------- searching and walking ----------

    /** The descent of RB_NFIND: res is the last node passed on its left. */
    method NDescend(o: nat) returns (tmp: Ptr, res: Ptr, ghost c: Ctx, ghost t: Tree)
      requires Valid() && o < LIMIT
      ensures Cursor(mem, root, c, t) && All(c, t) == Content() && tmp == Root(t)
      ensures t.Fork? ==> Has(t.seg, o) && tmp != NULL
      ensures Passed(Before(c), o) && Lowest(After(c), o, res)
    {
      tmp, res := root, NULL;
      c, t := Top, tree;
      while tmp != NULL
        invariant Cursor(mem, root, c, t) && All(c, t) == Content() && tmp == Root(t)
        invariant Passed(Before(c), o) && Lowest(After(c), o, res)
        decreases t
      {
        var comp := Compare(Seg(o, o, 0, 0), mem[tmp].seg);
        Descend(mem, root, c, t);
        if comp < 0 {
          res := tmp;
          tmp := mem[tmp].left;
          c, t := InLeft(t.red, t.n, t.seg, t.right, c), t.left;
        } else if comp > 0 {
          tmp := mem[tmp].right;
          c, t := InRight(t.red, t.left, t.n, t.seg, c), t.right;
        } else {
          return;
        }
      }
    }

    /** RB_NFIND for the single offset o: the first node that ends at or after o. */
    method NFind(o: nat) returns (res: Ptr, ghost k: nat)
      requires Valid() && o < LIMIT && InOrder(Content())
      ensures k <= |Content()| && (res == NULL <==> k == |Content()|)
      ensures k < |Content()| ==> Content()[k].at == res && o <= Content()[k].seg.end
      ensures k > 0 ==> Content()[k - 1].seg.end < o
    {
      var tmp;
      ghost var c, t;
      tmp, res, c, t := NDescend(o);
      if tmp != NULL {
        res := tmp;
        k := |Before(c)| + |Entries(t.left)|;
        Around(c, t);
      } else {
        k := |Before(c)|;
        NoLeft(Before(c), Entries(t));
      }
    }

    /** RB_NEXT: the node after the k-th, NULL after the last. */
    method Next(n: Ptr, ghost k: nat) returns (elm: Ptr)
      requires Valid() && k < |Content()| && Content()[k].at == n
      ensures k + 1 < |Content()| ==> elm == Content()[k + 1].at && elm != NULL
      ensures k + 1 == |Content()| ==> elm == NULL
    {
      ghost var c, t := Seek(mem, root, Top, tree, k);
      Beside(c, t);
      Kids(mem, root, c, t);
      elm := n;
      if mem[elm].right != NULL {
        Descend(mem, root, c, t);
        elm := mem[elm].right;
        c, t := InRight(t.red, t.left, t.n, t.seg, c), t.right;
        elm := Leftmost(elm, c, t);
      } else {
        elm := Ascend(elm, c, t, true);
      }
    }

    /** RB_PREV: the node before the k-th, NULL before the first. */
    method Prev(n: Ptr, ghost k: nat) returns (elm: Ptr)
      requires Valid() && k < |Content()| && Content()[k].at == n
      ensures k > 0 ==> elm == Content()[k - 1].at && elm != NULL
      ensures k == 0 ==> elm == NULL
    {
      ghost var c, t := Seek(mem, root, Top, tree, k);
      Beside(c, t);
      Kids(mem, root, c, t);
      elm := n;
      if mem[elm].left != NULL {
        Descend(mem, root, c, t);
        elm := mem[elm].left;
        c, t := InLeft(t.red, t.n, t.seg, t.right, c), t.left;
        elm := Rightmost(elm, c, t);
      } else {
        elm := Ascend(elm, c, t, false);
      }
    }

    /** Down the left links to the first node of a subtree. */
    method Leftmost(n: Ptr, ghost c0: Ctx, ghost t0: Tree) returns (elm: Ptr)
      requires Cursor(mem, root, c0, t0) && t0.Fork? && n == t0.n
      ensures Entries(t0) != [] && elm == Entries(t0)[0].at && elm != NULL
    {
      elm := n;
      ghost var c, t := c0, t0;
      Kids(mem, root, c, t);
      while mem[elm].left != NULL
        invariant Cursor(mem, root, c, t) && t.Fork? && elm == t.n && elm in mem && elm != NULL &&
          mem[elm].left == Root(t.left)
        invariant Entries(t0) != [] && Entries(t) != [] && Entries(t)[0] == Entries(t0)[0]
        decreases t
      {
        Descend(mem, root, c, t);
        elm := mem[elm].left;
        c, t := InLeft(t.red, t.n, t.seg, t.right, c), t.left;
        Kids(mem, root, c, t);
      }
      Kids(mem, root, c, t);
    }

    /** Down the right links to the last node of a subtree. */
    method Rightmost(n: Ptr, ghost c0: Ctx, ghost t0: Tree) returns (elm: Ptr)
      requires Cursor(mem, root, c0, t0) && t0.Fork? && n == t0.n
      ensures Entries(t0) != [] && elm == Entries(t0)[|Entries(t0)| - 1].at && elm != NULL
    {
      elm := n;
      ghost var c, t := c0, t0;
      Kids(mem, root, c, t);
      while mem[elm].right != NULL
        invariant Cursor(mem, root, c, t) && t.Fork? && elm == t.n && elm in mem && elm != NULL &&
          mem[elm].right == Root(t.right)
        invariant Entries(t0) != [] && Entries(t) != [] &&
          Entries(t)[|Entries(t)| - 1] == Entries(t0)[|Entries(t0)| - 1]
        decreases t
      {
        Descend(mem, root, c, t);
        elm := mem[elm].right;
        c, t := InRight(t.red, t.left, t.n, t.seg, c), t.right;
        Kids(mem, root, c, t);
      }
      Kids(mem, root, c, t);
    }

    /** Up the parent links to the first ancestor on the other side. */
    method Ascend(n: Ptr, ghost c0: Ctx, ghost t0: Tree, forward: bool) returns (elm: Ptr)
      requires At(mem, root, c0, t0) && t0.Fork? && n == t0.n
      ensures forward ==> if After(c0) == [] then elm == NULL else elm == After(c0)[0].at && elm != NULL
      ensures !forward ==>
        if Before(c0) == [] then elm == NULL else elm == Before(c0)[|Before(c0)| - 1].at && elm != NULL
    {
      elm := n;
      ghost var c, t := c0, t0;
      Kids(mem, root, c, t);
      if !c.Top? { ParentLink(mem, root, c, t); }
      while mem[elm].parent != NULL &&
        elm == (if forward then mem[mem[elm].parent].right else mem[mem[elm].parent].left)
        invariant At(mem, root, c, t) && t.Fork? && elm == t.n && elm in mem && mem[elm].parent == Parent(c)
        invariant !c.Top? ==> c.n != NULL && c.n in mem
        invariant !c.Top? ==> (mem[c.n].left == elm <==> c.InLeft?) && (mem[c.n].right == elm <==> c.InRight?)
        invariant if forward then After(c) == After(c0) else Before(c) == Before(c0)
        decreases c
      {
        elm := mem[elm].parent;
        Refocus(mem, root, c.up, Up(c, t));
        c, t := c.up, Up(c, t);
        Kids(mem, root, c, t);
        if !c.Top? { ParentLink(mem, root, c, t); }
      }
      elm := mem[elm].parent;
    }

    /** RB_MIN: the first node, NULL if there is none. */
    method Min() returns (elm: Ptr)
      requires Valid()
      ensures if Content() == [] then elm == NULL else elm == Content()[0].at && elm != NULL
    {
      if root == NULL {
        elm := NULL;
      } else {
        elm := Leftmost(root, Top, tree);
      }
    }

    /** seg_tree_node_alloc: the address of a new node. */
    method Alloc(avoid: Ptr) returns (n: Ptr)
      ensures n != NULL && n !in mem && n != avoid
    {
      FreshExists(mem.Keys + {NULL, avoid});
      n :| n !in mem.Keys + {NULL, avoid};
    }

    /** In-place update of the extent of the k-th node, within its neighbours. */
    method SetSeg(n: Ptr, g: Seg, ghost k: nat)
      requires Valid() && k < |Content()| && Content()[k].at == n
      requires g.start <= g.end && g.start < LIMIT && Between(Content(), k, g)
      modifies this`mem, this`tree
      ensures Valid() && mem.Keys == old(mem.Keys)
      ensures Content() == old(Content())[k := Entry(n, g)]
    {
      ghost var c, t := Seek(mem, root, Top, tree, k);
      SetInPlace(mem, root, c, t, g);
      ChangedEntries(c, t, g);
      mem := mem[n := mem[n].(seg := g)];
      Rezip(mem, root, c, t.(seg := g));
      tree := Plug(c, t.(seg := g));
    }
  }
}
