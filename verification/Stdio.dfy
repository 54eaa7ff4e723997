/** Buffered streams.

    A stream keeps one buffer over the file, which is either a copy of a part of the file or output
    that has not reached it yet, and a push-back buffer filled from its end. The reference is an
    unbuffered file with a position and a stack of pushed-back bytes. Every operation takes the
    number of underlying calls (write, sync, read, file size) that succeed before one fails, so a
    run covers every pattern of I/O errors. */
module Stdio {
  import opened Common

  const MAX_OFF: int := 0x7FFF_FFFF_FFFF_FFFF
  const BUFSIZE := 1048576
  const MAX_PUSH_BACK := 1024
  const EOF := -1

  datatype Code = Success | AtEnd | BadFile | Overflow | TooBig | Failed | Invalid

  datatype Whence = Set | Cur | End | Other

  /** The unbuffered stream. */
  datatype File = File(
    data: seq<Byte>, pos: nat, pushed: seq<Byte>, eof: bool, err: bool, readable: bool, writable: bool)

  function Min(a: int, b: int): int { if a < b then a else b }

  function Max(a: int, b: int): int { if a < b then b else a }

  function Drop(s: seq<Byte>, n: nat): seq<Byte> { s[Min(n, |s|)..] }

  /** The n bytes of d from offset p on, fewer at the end of d. */
  function Slice(d: seq<Byte>, p: nat, n: nat): seq<Byte> { if |d| <= p then [] else d[p..Min(p + n, |d|)] }

  /** d with w written at p; a gap reads as zeros. */
  function Patch(d: seq<Byte>, p: nat, w: seq<Byte>): seq<Byte> {
    if w == [] then d else seq(Max(|d|, p + |w|), i requires 0 <= i => Patched(d, p, w, i))
  }

  function Patched(d: seq<Byte>, p: nat, w: seq<Byte>, i: nat): Byte {
    if p <= i < p + |w| then w[i - p] else if i < |d| then d[i] else 0
  }

  lemma PatchAt(d: seq<Byte>, p: nat, w: seq<Byte>)
    ensures |Patch(d, p, w)| == if w == [] then |d| else Max(|d|, p + |w|)
    ensures forall i :: 0 <= i < |Patch(d, p, w)| ==> Patch(d, p, w)[i] == Patched(d, p, w, i)
  {
  }

  /** r is d with w written at p. */
  ghost predicate Wrote(d: seq<Byte>, p: nat, w: seq<Byte>, r: seq<Byte>) {
    && |r| == (if w == [] then |d| else Max(|d|, p + |w|))
    && forall i :: 0 <= i < |r| ==> r[i] == Patched(d, p, w, i)
  }

  lemma WroteIsPatch(d: seq<Byte>, p: nat, w: seq<Byte>, r: seq<Byte>)
    ensures Wrote(d, p, w, r) <==> r == Patch(d, p, w)
  {
    PatchAt(d, p, w);
    if Wrote(d, p, w, r) { SameBytes(r, Patch(d, p, w)); }
  }

  /** Two files of the same length that agree everywhere are the same. */
  lemma SameBytes(a: seq<Byte>, b: seq<Byte>)
    requires |a| == |b| && forall i :: 0 <= i < |a| ==> a[i] == b[i]
    ensures a == b
  {
  }

  /** Writing twice in a row is writing once. */
  lemma PatchTwice(d: seq<Byte>, p: nat, a: seq<Byte>, b: seq<Byte>)
    ensures Patch(Patch(d, p, a), p + |a|, b) == Patch(d, p, a + b)
  {
    var x := Patch(d, p, a);
    PatchAt(d, p, a);
    PatchAt(x, p + |a|, b);
    PatchAt(d, p, a + b);
    forall i: nat | i < |d| || i < p + |a + b| ensures Patched(x, p + |a|, b, i) == Patched(d, p, a + b, i) {
      PatchedTwice(d, p, a, b, x, i);
    }
    SameBytes(Patch(x, p + |a|, b), Patch(d, p, a + b));
  }

  lemma PatchedTwice(d: seq<Byte>, p: nat, a: seq<Byte>, b: seq<Byte>, x: seq<Byte>, i: nat)
    requires |x| == if a == [] then |d| else Max(|d|, p + |a|)
    requires forall i :: 0 <= i < |x| ==> x[i] == Patched(d, p, a, i)
    ensures Patched(x, p + |a|, b, i) == Patched(d, p, a + b, i)
  {
  }

  lemma PatchHolds(d: seq<Byte>, p: nat, w: seq<Byte>)
    requires w != []
    ensures At(Patch(d, p, w), p, w)
  {
    PatchAt(d, p, w);
    forall i | 0 <= i < |w| ensures Patch(d, p, w)[p + i] == w[i] {
      assert Patched(d, p, w, p + i) == w[i];
    }
  }

  /** d has the bytes w at offset p. */
  ghost predicate At(d: seq<Byte>, p: nat, w: seq<Byte>) {
    (w != [] ==> p + |w| <= |d|) && forall i :: 0 <= i < |w| ==> d[p + i] == w[i]
  }

  /** w is what a read of n bytes at offset p gets. */
  ghost predicate Got(d: seq<Byte>, p: nat, n: nat, w: seq<Byte>) {
    At(d, p, w) && |w| <= n && (|w| == n || |d| <= p + |w|)
  }

  lemma GotIsSlice(d: seq<Byte>, p: nat, n: nat, w: seq<Byte>)
    ensures Got(d, p, n, w) <==> w == Slice(d, p, n)
  {
    if Got(d, p, n, w) {
      SameBytes(w, Slice(d, p, n));
    }
  }

  lemma AtPart(d: seq<Byte>, p: nat, w: seq<Byte>, o: nat, n: nat)
    requires At(d, p, w) && p <= o && o + n <= p + |w|
    ensures At(d, o, w[o - p..o - p + n])
  {
    var v := w[o - p..o - p + n];
    forall i | 0 <= i < |v| ensures d[o + i] == v[i] {
      assert v[i] == w[o - p + i];
    }
    assert At(d, o, v);
  }

  lemma AtMore(d: seq<Byte>, p: nat, a: seq<Byte>, b: seq<Byte>)
    requires At(d, p, a) && At(d, p + |a|, b)
    ensures At(d, p, a + b)
  {
    forall i | 0 <= i < |a + b| ensures d[p + i] == (a + b)[i] {
      if i < |a| { assert (a + b)[i] == a[i]; } else { assert (a + b)[i] == b[i - |a|]; }
    }
  }

  /** What is read: the bytes pushed back, then bytes of the file. */
  function ReadOut(f: File, n: nat): seq<Byte> {
    var k := Min(|f.pushed|, n);
    f.pushed[..k] + Slice(f.data, f.pos + k, n - k)
  }

  function AfterRead(f: File, n: nat): File {
    var out := |ReadOut(f, n)|;
    f.(pos := f.pos + out, pushed := Drop(f.pushed, n), eof := out < n)
  }

  function ReadCode(f: File, n: nat): Code {
    if !f.readable then BadFile else if f.eof then AtEnd else if f.pos + n > MAX_OFF then Overflow else Success
  }

  /** What a read of n bytes may do to f; I/O errors lose the bytes pushed back. */
  ghost predicate ReadBy(f: File, n: nat, rc: Code, out: seq<Byte>, g: File) {
    if ReadCode(f, n) != Success then rc == ReadCode(f, n) && g == f.(err := f.err || rc != AtEnd)
    else if rc == Success then out == ReadOut(f, n) && g == AfterRead(f, n)
    else rc == Failed && g == f.(pushed := Drop(f.pushed, n), err := true)
  }

  lemma ReadDone(f: File, n: nat, front: seq<Byte>, rest: seq<Byte>, g: File)
    requires ReadCode(f, n) == Success && front == f.pushed[..Min(|f.pushed|, n)]
    requires Got(f.data, f.pos + |front|, n - |front|, rest)
    requires g == f.(pos := f.pos + |front + rest|, pushed := f.pushed[|front|..], eof := |front + rest| < n)
    ensures ReadBy(f, n, Success, front + rest, g)
  {
    GotIsSlice(f.data, f.pos + |front|, n - |front|, rest);
  }

  function WriteCode(f: File, n: nat): Code {
    if !f.writable then BadFile else if f.pos + n > MAX_OFF then TooBig else Success
  }

  function AfterWrite(f: File, w: seq<Byte>): File {
    f.(data := Patch(f.data, f.pos, w), pos := f.pos + |w|, pushed := Drop(f.pushed, |w|))
  }

  /** What i bytes of a write of w at p make of d when the first j of them go to offset e instead. */
  function Landing(d: seq<Byte>, e: nat, j: nat, p: nat, w: seq<Byte>, i: nat): seq<Byte>
    requires j <= i <= |w|
  {
    Patch(Patch(d, e, w[..j]), p + j, w[j..i])
  }

  /** A write is right where the buffered output ends at the position, or nothing joins it. */
  lemma LandingAligned(d: seq<Byte>, e: nat, j: nat, p: nat, w: seq<Byte>, i: nat)
    requires j <= i <= |w| && (j == 0 || e == p)
    ensures Landing(d, e, j, p, w, i) == Patch(d, p, w[..i])
  {
    assert w[..j] + w[j..i] == w[..i];
    if j == 0 {
      assert w[..j] == [];
    } else {
      PatchTwice(d, p, w[..j], w[j..i]);
    }
  }

  /** A write of n bytes that shows where they go. */
  function Telling(n: nat, b: Byte): (w: seq<Byte>)
    ensures |w| == n && forall i :: 0 < i < n ==> w[i] == 0
    ensures n > 0 ==> w[0] == if b == 1 then 2 else 1
  {
    if n == 0 then [] else [if b == 1 then 2 else 1] + seq(n - 1, i => 0)
  }

  lemma Misplaced(d: seq<Byte>, e: nat, j: nat, p: nat, w: seq<Byte>)
    requires 0 < j <= |w| && e != p && w == Telling(|w|, if p < |d| then d[p] else 0)
    ensures Landing(d, e, j, p, w, |w|) != Patch(d, p, w)
  {
    var u := Patch(d, e, w[..j]);
    PatchAt(d, e, w[..j]);
    PatchAt(u, p + j, w[j..]);
    PatchAt(d, p, w);
    assert w[j..|w|] == w[j..];
    assert Patched(d, p, w, p) == w[0];
    if p < |Patch(u, p + j, w[j..])| {
      assert Patched(u, p + j, w[j..], p) == if p < |u| then u[p] else 0;
      if p < |u| { assert Patched(d, e, w[..j], p) != w[0]; }
    }
  }

  ghost predicate LandsRight(d: seq<Byte>, e: nat, j: nat, p: nat, n: nat)
    requires j <= n
  {
    forall w: seq<Byte> :: |w| == n ==> Landing(d, e, j, p, w, n) == Patch(d, p, w)
  }

  /** Writes of n bytes are right, whatever the bytes, exactly if none of them joins output that
      ends elsewhere than at the position. */
  lemma WriteExactly(d: seq<Byte>, e: nat, j: nat, p: nat, n: nat)
    requires j <= n
    ensures LandsRight(d, e, j, p, n) <==> j == 0 || e == p
  {
    if j == 0 || e == p {
      forall w: seq<Byte> | |w| == n ensures Landing(d, e, j, p, w, n) == Patch(d, p, w) {
        assert w[..n] == w;
        LandingAligned(d, e, j, p, w, n);
      }
    } else {
      var w := Telling(n, if p < |d| then d[p] else 0);
      Misplaced(d, e, j, p, w);
    }
  }

  /** What storing w may do to f, with output in the buffer that ends at e and is joined by j bytes. */
  ghost predicate StoredBy(f: File, w: seq<Byte>, e: nat, j: nat, rc: Code, done: nat, g: File) {
    && j <= done <= |w| && ((rc == Success && done == |w|) || rc == Failed)
    && g == f.(data := Landing(f.data, e, j, f.pos, w, done), err := f.err || rc == Failed,
               pos := if rc == Success then f.pos + |w| else f.pos)
  }

  /** What a write of w may do to f. It drops as many of the bytes pushed back as it writes. */
  ghost predicate WroteBy(f: File, w: seq<Byte>, e: nat, j: nat, rc: Code, done: nat, g: File) {
    if !f.writable then rc == BadFile && g == f.(err := true)
    else
      var f1 := f.(pushed := Drop(f.pushed, |w|));
      if WriteCode(f, |w|) != Success then rc == TooBig && g == f1.(err := true) else StoredBy(f1, w, e, j, rc, done, g)
  }

  lemma WroteNothing(d: seq<Byte>, e: nat, w: seq<Byte>)
    requires w == []
    ensures Wrote(d, e, w, d)
  {
  }

  lemma Landed(d: seq<Byte>, e: nat, j: nat, p: nat, w: seq<Byte>, i: nat, base: seq<Byte>, r: seq<Byte>)
    requires j <= i <= |w| && Wrote(d, e, w[..j], base) && Wrote(base, p + j, w[j..i], r)
    ensures r == Landing(d, e, j, p, w, i)
  {
    WroteIsPatch(d, e, w[..j], base);
    WroteIsPatch(base, p + j, w[j..i], r);
  }

  lemma Pieces(w: seq<Byte>, j: nat, i: nat, n: nat)
    requires j <= i && i + n <= |w|
    ensures w[j..i] + w[i..][..n] == w[j..i + n]
  {
  }

  lemma WroteMore(b: seq<Byte>, p: nat, a: seq<Byte>, x: seq<Byte>, q: nat, c: seq<Byte>, y: seq<Byte>, ac: seq<Byte>)
    requires Wrote(b, p, a, x) && Wrote(x, q, c, y) && q == p + |a| && ac == a + c
    ensures Wrote(b, p, ac, y)
  {
    WroteIsPatch(b, p, a, x);
    WroteIsPatch(x, q, c, y);
    WroteIsPatch(b, p, ac, y);
    PatchTwice(b, p, a, c);
  }

  predicate WouldOverflow(a: int, b: int) {
    (a > 0 && b > 0 && MAX_OFF - a < b) || (a < 0 && b < 0 && -MAX_OFF - 1 - a > b)
  }

  /** What the offset of a seek counts from. */
  function Base(pos: int, size: int, whence: Whence): int {
    match whence
    case Set => 0
    case Cur => pos
    case End => size
    case Other => 0
  }

  function SeekCode(pos: int, size: int, off: int, whence: Whence): Code {
    if whence == Other then Invalid
    else if whence != Set && WouldOverflow(Base(pos, size, whence), off) then Overflow
    else if Base(pos, size, whence) + off < 0 then Invalid
    else Success
  }

  lemma SeekBound(pos: nat, size: int, off: int, whence: Whence)
    requires pos <= MAX_OFF && -1 <= size <= MAX_OFF && -MAX_OFF - 1 <= off <= MAX_OFF
    requires SeekCode(pos, size, off, whence) == Success
    ensures 0 <= Base(pos, size, whence) + off <= MAX_OFF
  {
  }

  function AfterSeek(f: File, size: int, off: int, whence: Whence): File {
    var rc := SeekCode(f.pos, size, off, whence);
    if rc == Success then f.(pos := Base(f.pos, size, whence) + off, pushed := [], eof := false)
    else f.(err := f.err || rc == Overflow || whence == Other)
  }

  /** What a seek does to f, with the file size it learns. */
  ghost predicate SoughtBy(f: File, size: int, off: int, whence: Whence, rc: Code, g: File) {
    if rc == Failed then g == f.(err := true)
    else rc == SeekCode(f.pos, size, off, whence) && g == AfterSeek(f, size, off, whence)
  }

  /** A buffer holding held from offset p on: a copy of part of the file, or output to come. */
  ghost predicate Cached(disk: seq<Byte>, data: seq<Byte>, p: nat, held: seq<Byte>, dirty: bool) {
    if dirty then Wrote(disk, p, held, data)
    else data == disk && At(disk, p, held)
  }

  lemma FlushedCache(disk: seq<Byte>, data: seq<Byte>, p: nat, held: seq<Byte>)
    requires held != [] && Cached(disk, data, p, held, true)
    ensures data == Patch(disk, p, held)
    ensures Cached(data, data, p, held, true) && Cached(data, data, p, held, false)
  {
    WroteIsPatch(disk, p, held, data);
    PatchHolds(disk, p, held);
  }

  /** What the buffer holds is what the file reads there. */
  lemma CachedAt(disk: seq<Byte>, data: seq<Byte>, p: nat, held: seq<Byte>, dirty: bool)
    requires Cached(disk, data, p, held, dirty)
    ensures At(data, p, held)
  {
    if dirty {
      forall i | 0 <= i < |held| ensures data[p + i] == held[i] {
        assert Patched(disk, p, held, p + i) == held[i];
      }
    }
  }

  /** Adding output behind output keeps the buffer in step with the file. */
  lemma CacheMore(disk: seq<Byte>, data: seq<Byte>, p: nat, held: seq<Byte>, dirty: bool, x: seq<Byte>, next: seq<Byte>)
    requires Cached(disk, data, p, held, dirty) && (dirty || held == []) && Wrote(data, p + |held|, x, next)
    ensures Cached(disk, next, p, held + x, true)
  {
    if dirty {
      WroteMore(disk, p, held, data, p + |held|, x, next, held + x);
    } else {
      assert held + x == x;
    }
  }

  /** The sizes the push-back buffer can have. */
  predicate Doubling(n: nat) { n <= 1 || (n % 2 == 0 && Doubling(n / 2)) }

  lemma {:induction false} DoublingTop(n: nat, c: nat)
    requires Doubling(n) && Doubling(c) && n <= c < 2 * n
    ensures n == c
  {
    if n > 1 { DoublingTop(n / 2, c / 2); }
  }

  datatype Op = Reading(n: nat) | Writing(w: seq<Byte>) | Flushing | Seeking(off: int, whence: Whence) | Pushing(c: int)

  datatype Out = Out(rc: Code, bytes: seq<Byte>)

  /** The unbuffered stream, without I/O errors. */
  function Next(f: File, op: Op): File {
    match op
    case Reading(n) =>
      if ReadCode(f, n) == Success then AfterRead(f, n) else f.(err := f.err || ReadCode(f, n) != AtEnd)
    case Writing(w) => Written(f, w)
    case Flushing => f
    case Seeking(off, whence) => AfterSeek(f, |f.data|, off, whence)
    case Pushing(c) =>
      if PushCode(f, c) != Success then f
      else f.(pos := f.pos - 1, pushed := [(c % 256) as Byte] + f.pushed, eof := false)
  }

  function Written(f: File, w: seq<Byte>): File {
    if WriteCode(f, |w|) == Success then AfterWrite(f, w)
    else f.(err := true, pushed := if f.writable then Drop(f.pushed, |w|) else f.pushed)
  }

  function PushCode(f: File, c: int): Code {
    if c == EOF || f.pos == 0 || |f.pushed| >= MAX_PUSH_BACK then AtEnd else Success
  }

  function Answer(f: File, op: Op): Out {
    match op
    case Reading(n) => Out(ReadCode(f, n), if ReadCode(f, n) == Success then ReadOut(f, n) else [])
    case Writing(w) => Out(WriteCode(f, |w|), [])
    case Flushing => Out(Success, [])
    case Seeking(off, whence) => Out(SeekCode(f.pos, |f.data|, off, whence), [])
    case Pushing(c) => Out(PushCode(f, c), [])
  }

  function After(f: File, ops: seq<Op>): File
    decreases ops
  {
    if ops == [] then f else After(Next(f, ops[0]), ops[1..])
  }

  function Answers(f: File, ops: seq<Op>): seq<Out>
    decreases ops
  {
    if ops == [] then [] else [Answer(f, ops[0])] + Answers(Next(f, ops[0]), ops[1..])
  }

  lemma AnswersOneMore(f: File, ops: seq<Op>, k: nat)
    requires k < |ops|
    ensures Answers(f, ops[..k + 1]) == [Answer(f, ops[0])] + Answers(Next(f, ops[0]), ops[1..][..k])
  {
    assert ops[..k + 1][1..] == ops[1..][..k];
  }

  /** Arguments that a C caller can give. */
  predicate Sane(op: Op) {
    match op
    case Reading(n) => n <= MAX_OFF
    case Writing(w) => |w| <= MAX_OFF
    case Seeking(off, _) => -MAX_OFF - 1 <= off <= MAX_OFF
    case _ => true
  }

  /** Section 7.19.5.3 of C99: no input straight after output, without a flush or a seek between. */
  predicate Disciplined(ops: seq<Op>, output: bool) {
    ops != [] ==>
      && !(output && (ops[0].Reading? || ops[0].Pushing?))
      && Disciplined(ops[1..], ops[0].Writing?)
  }

  /** Calls enough for op, and an offset far enough from the largest to fill a buffer of size room. */
  predicate Served(f: File, op: Op, io: nat, room: nat) {
    match op
    case Reading(n) => io >= n && f.pos + n + room <= MAX_OFF
    case Writing(w) => io >= 2 * |w| + 2
    case _ => io >= 3
  }

  predicate AllServed(f: File, ops: seq<Op>, io: seq<nat>, room: nat)
    requires |io| == |ops|
    decreases ops
  {
    ops != [] ==> Served(f, ops[0], io[0], room) && AllServed(Next(f, ops[0]), ops[1..], io[1..], room)
  }

  lemma WrittenRight(f: File, w: seq<Byte>, e: nat, j: nat, rc: Code, done: nat, g: File)
    requires WroteBy(f, w, e, j, rc, done, g) && e == f.pos && rc != Failed
    ensures g == Written(f, w) && rc == WriteCode(f, |w|)
  {
    if WriteCode(f, |w|) == Success {
      LandingAligned(f.data, e, j, f.pos, w, done);
      assert w[..done] == w;
    }
  }

  function Pushes(cs: seq<Byte>): seq<Op> { seq(|cs|, i requires 0 <= i < |cs| => Pushing(cs[i] as int)) }

  function Reversed(cs: seq<Byte>): seq<Byte> { if cs == [] then [] else Reversed(cs[1..]) + [cs[0]] }

  /** Bytes pushed back, as many as the buffer takes. */
  lemma {:induction false} AllPushed(f: File, cs: seq<Byte>)
    requires |cs| <= f.pos && |f.pushed| + |cs| <= MAX_PUSH_BACK && cs != []
    ensures After(f, Pushes(cs)) == f.(pos := f.pos - |cs|, pushed := Reversed(cs) + f.pushed, eof := false)
    decreases |cs|
  {
    var f1 := Next(f, Pushing(cs[0] as int));
    assert Pushes(cs)[0] == Pushing(cs[0] as int) && Pushes(cs)[1..] == Pushes(cs[1..]);
    assert f1.pushed == [cs[0]] + f.pushed;
    if |cs| > 1 {
      AllPushed(f1, cs[1..]);
      assert Reversed(cs[1..]) + ([cs[0]] + f.pushed) == Reversed(cs) + f.pushed;
    } else {
      assert Pushes(cs[1..]) == [] && Reversed(cs) == [cs[0]];
    }
  }

  lemma {:induction false} ReversedLength(cs: seq<Byte>)
    ensures |Reversed(cs)| == |cs|
  {
    if cs != [] { ReversedLength(cs[1..]); }
  }

  /** Bytes pushed back are read last in, first out, and reading them undoes the pushes. */
  lemma PushedReadBack(f: File, cs: seq<Byte>)
    requires f.readable && cs != [] && |cs| <= f.pos <= MAX_OFF && |f.pushed| + |cs| <= MAX_PUSH_BACK
    ensures
      var g := After(f, Pushes(cs));
      Answer(g, Reading(|cs|)) == Out(Success, Reversed(cs)) && Next(g, Reading(|cs|)) == f.(eof := false)
  {
    AllPushed(f, cs);
    ReversedLength(cs);
    var g := After(f, Pushes(cs));
    assert g.pushed[..|cs|] == Reversed(cs) && g.pushed[|cs|..] == f.pushed;
    assert ReadOut(g, |cs|) == Reversed(cs);
  }

  lemma SoughtBack(f: File, w: seq<Byte>, g: File)
    requires f.writable && f.pos + |w| <= MAX_OFF && g == Next(Next(f, Writing(w)), Seeking(f.pos, Set))
    ensures g.data == Patch(f.data, f.pos, w) && g.pos == f.pos && g.pushed == [] && !g.eof && g.readable == f.readable
  {
  }

  /** What is written is what is read back. */
  lemma WrittenReadBack(f: File, w: seq<Byte>)
    requires f.readable && f.writable && f.pos + |w| <= MAX_OFF
    ensures
      var g := Next(Next(f, Writing(w)), Seeking(f.pos, Set));
      Answer(g, Reading(|w|)) == Out(Success, w)
  {
    var g := Next(Next(f, Writing(w)), Seeking(f.pos, Set));
    SoughtBack(f, w, g);
    if w != [] { PatchHolds(f.data, f.pos, w); }
    GotIsSlice(g.data, f.pos, |w|, w);
  }

  lemma SoughtRight(f: File, size: int, off: int, whence: Whence, rc: Code, g: File)
    requires SoughtBy(f, size, off, whence, rc, g) && rc != Failed &&
      (size == |f.data| || (size == -1 && whence != End))
    ensures g == Next(f, Seeking(off, whence)) && Out(rc, []) == Answer(f, Seeking(off, whence))
  {
  }

  // ---------- what the operations mean ----------

  /** A read refuses for these reasons, in this order; otherwise it gives the bytes pushed back and then
      those of the file, up to n, and sets the end-of-file indicator if there are fewer. */
  lemma ReadMeans(f: File, n: nat, rc: Code, out: seq<Byte>, g: File)
    requires ReadBy(f, n, rc, out, g)
    ensures rc == BadFile <==> !f.readable
    ensures rc == AtEnd <==> f.readable && f.eof
    ensures rc == Overflow <==> f.readable && !f.eof && f.pos + n > MAX_OFF
    ensures rc == BadFile || rc == AtEnd || rc == Overflow ==> g == f.(err := f.err || rc != AtEnd)
    ensures rc == Success ==> g == AfterGot(f, n, out) && GotAll(f, n, out)
    ensures rc == Failed ==> g == f.(pushed := if n < |f.pushed| then f.pushed[n..] else [], err := true)
    ensures rc == Success || rc == BadFile || rc == AtEnd || rc == Overflow || rc == Failed
  {
    if rc == Success { ReadOutIs(f, n, out); }
  }

  /** The stream behind the bytes that were read. */
  ghost function AfterGot(f: File, n: nat, out: seq<Byte>): File {
    f.(pos := f.pos + |out|, pushed := if n < |f.pushed| then f.pushed[n..] else [], eof := |out| < n)
  }

  /** As many of the n bytes as there are: first those pushed back, the others from the file. */
  ghost predicate GotAll(f: File, n: nat, out: seq<Byte>) {
    && |out| <= n && (|out| == n || (|f.pushed| <= |out| && |f.data| <= f.pos + |out|))
    && forall i :: 0 <= i < |out| ==>
         if i < |f.pushed| then out[i] == f.pushed[i] else f.pos + i < |f.data| && out[i] == f.data[f.pos + i]
  }

  lemma ReadOutIs(f: File, n: nat, out: seq<Byte>)
    requires out == ReadOut(f, n)
    ensures GotAll(f, n, out)
  {
    var k := Min(|f.pushed|, n);
    GotIsSlice(f.data, f.pos + k, n - k, Slice(f.data, f.pos + k, n - k));
  }

  /** A write refuses for these reasons; otherwise the bytes are in the file at the position, which moves
      behind them, a gap before them reads as zeros, and nothing else of the file changes. It drops as many
      of the bytes pushed back. */
  lemma WriteMeans(f: File, w: seq<Byte>)
    ensures
      var g, rc := Next(f, Writing(w)), Answer(f, Writing(w)).rc;
      && rc == (if !f.writable then BadFile else if f.pos + |w| > MAX_OFF then TooBig else Success)
      && g.pushed == (if rc == BadFile then f.pushed else if |w| < |f.pushed| then f.pushed[|w|..] else [])
      && g.eof == f.eof && g.err == (f.err || rc != Success)
      && g.pos == (if rc == Success then f.pos + |w| else f.pos)
      && if rc == Success then HasWritten(f.data, f.pos, w, g.data) else g.data == f.data
  {
    PatchHasWritten(f.data, f.pos, w);
  }

  /** d' is d with w at offset p, and zeros in a gap before it. */
  ghost predicate HasWritten(d: seq<Byte>, p: nat, w: seq<Byte>, d': seq<Byte>) {
    if w == [] then d' == d
    else
      && |d'| == Max(|d|, p + |w|)
      && forall i :: 0 <= i < |d'| ==> d'[i] == if p <= i < p + |w| then w[i - p] else if i < |d| then d[i] else 0
  }

  lemma PatchHasWritten(d: seq<Byte>, p: nat, w: seq<Byte>)
    ensures HasWritten(d, p, w, Patch(d, p, w))
  {
    PatchAt(d, p, w);
  }

  /** Where a seek leads: an offset from the beginning, from the position or from the end, if it is there
      and an off_t can hold it. It drops the bytes pushed back and the end-of-file indicator. */
  lemma SeekMeans(f: File, size: int, off: int, whence: Whence, rc: Code, g: File)
    requires SoughtBy(f, size, off, whence, rc, g) && f.pos <= MAX_OFF && -1 <= size <= MAX_OFF
    requires -MAX_OFF - 1 <= off <= MAX_OFF && rc != Failed
    ensures rc == Success ==> g == f.(pos := g.pos, pushed := [], eof := false)
    ensures rc == Success && whence == Set ==> g.pos == off
    ensures rc == Success && whence == Cur ==> g.pos == f.pos + off
    ensures rc == Success && whence == End ==> g.pos == size + off
    ensures whence == Set ==> rc == if off < 0 then Invalid else Success
    ensures whence == Cur ==>
      rc == if f.pos + off < 0 then Invalid else if f.pos + off > MAX_OFF then Overflow else Success
    ensures whence == End ==>
      rc == if size + off < -MAX_OFF - 1 || size + off > MAX_OFF then Overflow
            else if size + off < 0 then Invalid else Success
    ensures whence == Other ==> rc == Invalid
    ensures rc != Success ==> g == f.(err := f.err || rc == Overflow || whence == Other)
  {
  }

  /** A byte is pushed back unless it is none, there is no byte before the position, or the buffer is full. */
  lemma PushMeans(f: File, c: int)
    ensures
      var g, rc := Next(f, Pushing(c)), Answer(f, Pushing(c)).rc;
      && (rc == Success <==> c != EOF && f.pos > 0 && |f.pushed| < MAX_PUSH_BACK) && (rc != Success ==> g == f)
      && (rc == Success ==>
            && |g.pushed| == |f.pushed| + 1 && g.pushed[0] as int == c % 256 && g.pushed[1..] == f.pushed
            && g == f.(pos := f.pos - 1, pushed := g.pushed, eof := false))
  {
  }

  /** What is written at the end of the file is added to it. */
  lemma AppendAtEnd(f: File, w: seq<Byte>)
    requires f.writable && |f.data| + |w| <= MAX_OFF
    ensures Next(Next(f, Seeking(0, End)), Writing(w)).data == f.data + w
  {
    PatchEnd(f.data, w);
  }

  /** What was just written is read again after going back by as much, from the position or, at the end of
      the file, from the end. */
  lemma BackAndRead(f: File, w: seq<Byte>, whence: Whence)
    requires f.readable && f.writable && f.pos + |w| <= MAX_OFF
    requires whence == Cur || (whence == End && f.pos + |w| >= |f.data| && (w == [] ==> f.pos == |f.data|))
    ensures
      var g := Next(Next(f, Writing(w)), Seeking(-|w|, whence));
      g.pos == f.pos && Answer(g, Reading(|w|)) == Out(Success, w)
  {
    var x := Next(f, Writing(w));
    PatchAt(f.data, f.pos, w);
    assert x.pos == f.pos + |w| && x.data == Patch(f.data, f.pos, w) && (whence == End ==> |x.data| == x.pos);
    WentBack(x, w, whence);
    ReadsThere(Next(x, Seeking(-|w|, whence)), f.data, w);
  }

  lemma WentBack(x: File, w: seq<Byte>, whence: Whence)
    requires |w| <= x.pos <= MAX_OFF && (whence == Cur || (whence == End && |x.data| == x.pos))
    ensures Next(x, Seeking(-|w|, whence)) == x.(pos := x.pos - |w|, pushed := [], eof := false)
  {
  }

  lemma ReadsThere(g: File, d: seq<Byte>, w: seq<Byte>)
    requires g.readable && !g.eof && g.pushed == [] && g.data == Patch(d, g.pos, w) && g.pos + |w| <= MAX_OFF
    ensures Answer(g, Reading(|w|)) == Out(Success, w)
  {
    if w != [] { PatchHolds(d, g.pos, w); }
    GotIsSlice(g.data, g.pos, |w|, w);
  }

  /** If the size of the file cannot be had, it counts as -1: a seek from the end succeeds, and ends up one
      before the offset, however long the file is. */
  lemma EndUnknown(f: File, off: int, rc: Code, g: File)
    requires SoughtBy(f, -1, off, End, rc, g) && 0 < off <= MAX_OFF && rc != Failed
    ensures rc == Success && g.pos == off - 1
  {
  }

  class Stream {
    const readable: bool
    const writable: bool
    var disk: seq<Byte>
    var pos: nat
    var buf: array<Byte>
    var bufpos: nat
    var buflen: nat
    var bufdirty: bool
    var ubuf: array<Byte>
    var ubuflen: nat
    var eof: bool
    var err: bool

    /** The file with the output that has not reached it yet, the bytes in the buffer, and the
        bytes pushed back. */
    ghost var data: seq<Byte>
    ghost var held: seq<Byte>
    ghost var pushed: seq<Byte>

    ghost predicate Valid()
      reads this, buf, ubuf
    {
      && buf != ubuf && buflen <= buf.Length && ubuflen <= ubuf.Length
      && pos <= MAX_OFF && |disk| <= MAX_OFF
      && held == buf[..buflen] && pushed == ubuf[ubuf.Length - ubuflen..]
      && (bufdirty ==> writable && buflen > 0) && Cached(disk, data, bufpos, held, bufdirty)
    }

    ghost function Abs(): File
      reads this
    {
      File(data, pos, pushed, eof, err, readable, writable)
    }

    constructor (contents: seq<Byte>, canRead: bool, canWrite: bool)
      requires |contents| <= MAX_OFF
      ensures Valid() && fresh(buf) && fresh(ubuf)
      ensures Abs() == File(contents, 0, [], false, false, canRead, canWrite) && !bufdirty
      ensures buf.Length == 0 && Grown()
    {
      readable, writable, disk, pos := canRead, canWrite, contents, 0;
      buf, bufpos, buflen, bufdirty := new Byte[0], 0, 0, false;
      ubuf, ubuflen := new Byte[0], 0;
      eof, err := false, false;
      data, held, pushed := contents, [], [];
    }

    /** unifyfs_setvbuf: a stream gets one buffer, once. A buffer of length 0 stands for none. */
    method SetBuffer(size: nat) returns (rc: Code)
      requires Valid()
      modifies this`buf, this`bufpos, this`buflen, this`bufdirty, this`held
      ensures Valid()
      ensures rc == if old(buf.Length) != 0 then BadFile else if size == 0 then Invalid else Success
      ensures if rc == Success then fresh(buf) && buf.Length == size && !bufdirty && buflen == 0
              else buf == old(buf) && bufpos == old(bufpos) && buflen == old(buflen) && bufdirty == old(bufdirty)
    {
      if buf.Length != 0 { return BadFile; }
      if size <= 0 { return Invalid; }
      buf, bufpos, buflen, bufdirty, held := new Byte[size], 0, 0, false, [];
      return Success;
    }

    /** Sets the error indicator of the stream. */
    method Fail(really: bool)
      requires Valid()
      modifies this`err
      ensures Valid() && err == (old(err) || really)
    {
      err := err || really;
    }

    /** Writes the output in the buffer to the file. */
    method WriteOut()
      requires Valid() && bufdirty && bufpos + buflen <= MAX_OFF
      modifies this`disk
      ensures Valid() && disk == data
    {
      FlushedCache(disk, data, bufpos, held);
      disk := Patch(disk, bufpos, buf[..buflen]);
    }

    method Clean()
      requires Valid() && disk == data
      modifies this`bufdirty
      ensures Valid() && !bufdirty
    {
      CachedAt(disk, data, bufpos, held, bufdirty);
      bufdirty := false;
    }

    /** unifyfs_stream_flush. A failed flush leaves the output pending. */
    method Flush(io: nat) returns (rc: Code, left: nat)
      requires Valid()
      modifies this`disk, this`bufdirty, this`err
      ensures Valid() && left <= io
      ensures if rc == Success then !bufdirty && err == old(err) else rc == Failed && bufdirty && err
      ensures !old(bufdirty) ==> rc == Success && left == io
      ensures io >= 2 && bufpos + buflen <= MAX_OFF ==> rc == Success && left >= io - 2
    {
      left := io;
      if buf.Length != 0 && bufdirty {
        if left == 0 || bufpos + buflen > MAX_OFF {
          Fail(true);
          return Failed, left;
        }
        left := left - 1;
        WriteOut();
        if left == 0 {
          Fail(true);
          return Failed, left;
        }
        left := left - 1;
        Clean();
      }
      return Success, left;
    }

    method Copy(dst: array<Byte>, at: nat, src: seq<Byte>)
      requires at + |src| <= dst.Length
      modifies dst
      ensures dst[..at + |src|] == old(dst[..at]) + src
      ensures dst[at + |src|..] == old(dst[at + |src|..])
    {
      forall i | 0 <= i < |src| { dst[at + i] := src[i]; }
    }

    /** Reads the buffer full from offset current. */
    method Refill(current: nat, io: nat) returns (rc: Code, left: nat)
      requires Valid() && buf.Length > 0 && !bufdirty
      modifies this`bufpos, this`buflen, this`err, this`held, buf
      ensures Valid() && left <= io
      ensures if rc == Success then bufpos == current && (buflen == buf.Length || |data| <= current + buflen) &&
        err == old(err)
              else rc == Failed && err
      ensures io >= 1 && current + buf.Length <= MAX_OFF ==> rc == Success && left == io - 1
    {
      left := io;
      if left == 0 || current + buf.Length > MAX_OFF {
        Fail(true);
        return Failed, left;
      }
      left := left - 1;
      var got := Slice(disk, current, buf.Length);
      GotIsSlice(disk, current, buf.Length, got);
      Copy(buf, 0, got);
      bufpos, buflen, held := current, |got|, got;
      return Success, left;
    }

    /** Makes the buffer hold offset current, unless the file ends before it. */
    method Seat(current: nat, io: nat) returns (rc: Code, left: nat, short: bool)
      requires Valid() && buf.Length > 0
      modifies this`disk, this`bufdirty, this`err, this`bufpos, this`buflen, this`held, buf
      ensures Valid() && left <= io
      ensures if rc == Success then err == old(err) && bufpos <= current <= bufpos + buflen else rc == Failed && err
      ensures rc == Success ==> if short then |data| <= bufpos + buflen else current < bufpos + buflen
      ensures bufdirty ==> old(bufdirty) && bufpos == old(bufpos) && buflen == old(buflen)
      ensures io >= 1 + (if old(bufdirty) then 2 else 0) && current + buf.Length <= MAX_OFF
        && (old(bufdirty) ==> old(bufpos + buflen) <= MAX_OFF)
        ==> rc == Success && left - (if bufdirty then 2 else 0) >= io - 1 - (if old(bufdirty) then 2 else 0)
    {
      rc, left, short := Success, io, false;
      if current < bufpos || current >= bufpos + buflen {
        rc, left := Flush(left);
        if rc != Success { return; }
        rc, left := Refill(current, left);
        if rc != Success { return; }
        if buflen < buf.Length { short := true; }
      }
    }

    /** Calls enough to read n more bytes. */
    ghost predicate Enough(io: nat, n: nat)
      reads this`bufdirty, this`bufpos, this`buflen
    {
      && io >= n + (if bufdirty then 2 else 0) && (bufdirty ==> bufpos + buflen <= MAX_OFF)
    }

    /** One round of the read loop: the bytes the buffer has from offset current on. */
    method Round(current: nat, remaining: nat, io: nat) returns (rc: Code, piece: seq<Byte>, eof: bool, left: nat)
      requires Valid() && buf.Length > 0 && remaining > 0
      modifies this`disk, this`bufdirty, this`err, this`bufpos, this`buflen, this`held, buf
      ensures Valid() && (bufdirty ==> old(bufdirty))
      ensures if rc == Success then err == old(err) else rc == Failed && err
      ensures rc == Success ==> |piece| <= remaining && At(data, current, piece)
      ensures rc == Success ==> if eof then |piece| == remaining || |data| <= current + |piece| else |piece| > 0
      ensures old(Enough(io, remaining)) && current + buf.Length <= MAX_OFF ==>
        rc == Success && (eof || Enough(left, remaining - |piece|))
    {
      piece := [];
      rc, left, eof := Seat(current, io);
      if rc == Success { piece := Piece(current, Min(bufpos + buflen - current, remaining)); }
    }

    method Piece(current: nat, bytes: nat) returns (piece: seq<Byte>)
      requires Valid() && bufpos <= current && current + bytes <= bufpos + buflen
      ensures |piece| == bytes && At(data, current, piece)
    {
      var off := current - bufpos;
      CachedAt(disk, data, bufpos, held, bufdirty);
      AtPart(data, bufpos, held, current, bytes);
      piece := buf[..buflen][off..off + bytes];
    }

    /** The read loop of unifyfs_stream_read. */
    method Fetch(start: nat, count: nat, io: nat) returns (rc: Code, got: seq<Byte>)
      requires Valid() && buf.Length > 0
      modifies this`disk, this`bufdirty, this`err, this`bufpos, this`buflen, this`held, buf
      ensures Valid() && (bufdirty ==> old(bufdirty))
      ensures if rc == Success then err == old(err) && Got(data, start, count, got)
              else rc == Failed && err
      ensures old(Enough(io, count)) && start + count + buf.Length <= MAX_OFF ==> rc == Success
    {
      var current: nat, remaining: nat, eof, left: nat := start, count, false, io;
      got := [];
      while remaining > 0 && !eof
        modifies this`disk, this`bufdirty, this`err, this`bufpos, this`buflen, this`held, buf
        invariant Valid() && err == old(err) && (bufdirty ==> old(bufdirty))
        invariant |got| + remaining == count && current == start + |got| && At(data, start, got)
        invariant eof ==> remaining == 0 || |data| <= current
        invariant old(Enough(io, count)) && start + count + buf.Length <= MAX_OFF ==> eof || Enough(left, remaining)
        decreases remaining, if eof then 0 else 1
      {
        var piece;
        rc, piece, eof, left := Round(current, remaining, left);
        if rc != Success { return; }
        AtMore(data, start, got, piece);
        got, current, remaining := got + piece, current + |piece|, remaining - |piece|;
      }
      return Success, got;
    }

    /** unifyfs_stream_read: the pushed-back bytes come first, the rest from the file as written so
        far, output still in the buffer included. */
    method Read(count: nat, io: nat) returns (rc: Code, out: seq<Byte>)
      requires Valid() && count <= MAX_OFF
      modifies this, buf
      ensures Valid() && ubuf == old(ubuf) && (bufdirty ==> old(bufdirty))
      ensures buf == old(buf) || (fresh(buf) && buf.Length == BUFSIZE)
      ensures ReadBy(old(Abs()), count, rc, out, Abs())
      ensures ReadCode(old(Abs()), count) == Success && old(Enough(io, count)) &&
        old(pos) + count + buf.Length <= MAX_OFF
        ==> rc == Success
    {
      out := [];
      if !readable {
        Fail(true);
        rc := BadFile;
      } else {
        NeedBuffer();
        if eof {
          rc := AtEnd;
        } else if pos + count > MAX_OFF {
          Fail(true);
          rc := Overflow;
        } else {
          rc, out := ReadOn(count, io);
        }
      }
    }

    /** Gives the stream a buffer if it has none. */
    method NeedBuffer()
      requires Valid()
      modifies this`buf, this`bufpos, this`buflen, this`bufdirty, this`held
      ensures Valid() && buf.Length > 0 && (buf == old(buf) || (fresh(buf) && buf.Length == BUFSIZE)) &&
        bufdirty == old(bufdirty)
      ensures bufdirty ==> bufpos == old(bufpos) && buflen == old(buflen) && buf == old(buf)
      ensures Room() == old(if buf.Length == 0 then BUFSIZE else Room())
    {
      if buf.Length == 0 { var _ := SetBuffer(BUFSIZE); }
    }

    /** The part of the read after its checks. */
    method ReadOn(count: nat, io: nat) returns (rc: Code, out: seq<Byte>)
      requires Valid() && buf.Length > 0 && ReadCode(Abs(), count) == Success
      modifies this, buf
      ensures Valid() && ubuf == old(ubuf) && buf == old(buf) && (bufdirty ==> old(bufdirty))
      ensures ReadBy(old(Abs()), count, rc, out, Abs())
      ensures old(Enough(io, count)) && old(pos) + count + buf.Length <= MAX_OFF ==> rc == Success
    {
      var rest;
      rc, out, rest := Collect(Min(ubuflen, count), count, io);
      if rc == Success {
        Advance(|out + rest|, count);
        ReadDone(old(Abs()), count, out, rest, Abs());
        out := out + rest;
      }
    }

    /** Takes k bytes pushed back and the rest from the file. */
    method Collect(k: nat, count: nat, io: nat) returns (rc: Code, out: seq<Byte>, rest: seq<Byte>)
      requires Valid() && buf.Length > 0 && k <= ubuflen && k <= count
      modifies this`ubuflen, this`pushed, this`disk, this`bufdirty, this`err, this`bufpos, this`buflen, this`held, buf
      ensures Valid() && (bufdirty ==> old(bufdirty))
      ensures out == old(pushed)[..k] && pushed == old(pushed)[k..]
      ensures if rc == Success then err == old(err) && Got(data, pos + k, count - k, rest) else rc == Failed && err
      ensures old(Enough(io, count)) && pos + count + buf.Length <= MAX_OFF ==> rc == Success
    {
      out := TakeBack(k);
      rc, rest := Fetch(pos + k, count - k, io);
    }

    /** Moves past n bytes of the count asked for. */
    method Advance(n: nat, count: nat)
      requires Valid() && pos + n <= MAX_OFF
      modifies this`pos, this`eof
      ensures Valid() && pos == old(pos) + n && eof == (old(eof) || n < count)
    {
      Forward(n);
      if n < count { eof := true; }
    }

    method Forward(n: nat)
      requires Valid() && pos + n <= MAX_OFF
      modifies this`pos
      ensures Valid() && pos == old(pos) + n
    {
      pos := pos + n;
    }

    /** Drops n of the bytes pushed back. */
    method DropBack(n: nat)
      requires Valid()
      modifies this`ubuflen, this`pushed
      ensures Valid() && pushed == Drop(old(pushed), n)
    {
      var _ := TakeBack(Min(ubuflen, n));
    }

    /** Takes k bytes off the push-back buffer. */
    method TakeBack(k: nat) returns (out: seq<Byte>)
      requires Valid() && k <= ubuflen
      modifies this`ubuflen, this`pushed
      ensures Valid() && out == old(pushed)[..k] && pushed == old(pushed)[k..]
    {
      out := ubuf[ubuf.Length - ubuflen..ubuf.Length - ubuflen + k];
      ubuflen, pushed := ubuflen - k, pushed[k..];
    }

    /** Puts x behind the bytes in the buffer, as output that makes the file read next. */
    method Append(x: seq<Byte>, ghost next: seq<Byte>)
      requires Valid() && writable && x != [] && buflen + |x| <= buf.Length &&
        Cached(disk, next, bufpos, held + x, true)
      modifies this`data, this`bufdirty, this`buflen, this`held, buf
      ensures Valid() && bufdirty && buflen == old(buflen) + |x| && data == next
    {
      Copy(buf, buflen, x);
      bufdirty, buflen := true, buflen + |x|;
      data, held := next, held + x;
    }

    /** Where the next output goes, and how much of it fits. */
    ghost function Tail(current: nat): nat
      reads this`bufdirty, this`bufpos, this`buflen
    {
      if bufdirty then bufpos + buflen else current
    }

    /** Where the buffer begins then. */
    ghost function Front(current: nat): nat
      reads this`bufdirty, this`bufpos
    {
      if bufdirty then bufpos else current
    }

    ghost function Room(): int
      reads this`bufdirty, this`buflen, this`buf
    {
      if bufdirty then buf.Length - buflen else buf.Length
    }

    /** Puts x behind the bytes in the buffer, as output for the offsets after theirs. */
    method Extend(x: seq<Byte>)
      requires Valid() && writable && x != [] && buflen + |x| <= buf.Length && (bufdirty || buflen == 0)
      modifies this`data, this`bufdirty, this`buflen, this`held, buf
      ensures Valid() && bufdirty && buflen == old(buflen) + |x| && Wrote(old(data), bufpos + old(buflen), x, data)
    {
      ghost var next := Patch(data, bufpos + buflen, x);
      WroteIsPatch(data, bufpos + buflen, x, next);
      CacheMore(disk, data, bufpos, held, bufdirty, x, next);
      Append(x, next);
    }

    /** Copies what fits of chunk to the buffer. */
    method Deposit(current: nat, chunk: seq<Byte>) returns (bytes: nat, full: bool)
      requires Valid() && writable && buf.Length > 0 && chunk != []
      modifies this`data, this`bufdirty, this`bufpos, this`buflen, this`held, buf
      ensures Valid() && bufdirty && bytes == Min(|chunk|, old(Room())) && full == (buflen == buf.Length)
      ensures Wrote(old(data), old(Tail(current)), chunk[..bytes], data)
      ensures bufpos + buflen == old(Tail(current)) + bytes && full == (bytes == old(Room()))
      ensures bufpos == old(Front(current))
    {
      Restart(current);
      var room := buf.Length - buflen;
      bytes, full := |chunk|, false;
      if bytes >= room { bytes, full := room, true; }
      WroteNothing(data, bufpos + buflen, chunk[..0]);
      if bytes > 0 { Extend(chunk[..bytes]); }
    }

    /** A clean buffer starts anew at offset current. */
    method Restart(current: nat)
      requires Valid()
      modifies this`bufpos, this`buflen, this`held
      ensures Valid() && bufpos + buflen == old(Tail(current)) && buf.Length - buflen == old(Room())
      ensures (bufdirty || buflen == 0) && bufpos == old(Front(current))
    {
      if !bufdirty { bufpos, buflen, held := current, 0, []; }
    }

    /** One round of the write loop. */
    method PutRound(current: nat, chunk: seq<Byte>, io: nat) returns (rc: Code, bytes: nat, left: nat)
      requires Valid() && writable && buf.Length > 0 && chunk != []
      modifies this`data, this`disk, this`err, this`bufdirty, this`bufpos, this`buflen, this`held, buf
      ensures Valid() && bytes == Min(|chunk|, old(Room()))
      ensures Wrote(old(data), old(Tail(current)), chunk[..bytes], data)
      ensures if rc == Success then err == old(err) && (bufdirty ==> bytes == |chunk|) else rc == Failed && err
      ensures bufdirty ==> bufpos + buflen == old(Tail(current)) + bytes
      ensures bytes < old(Room()) ==> rc == Success && bufdirty && bufpos == old(Front(current))
      ensures io >= 2 && old(Tail(current)) + bytes <= MAX_OFF ==> rc == Success && left >= io - 2
    {
      var full;
      bytes, full := Deposit(current, chunk);
      rc, left := Success, io;
      if full { rc, left := Flush(left); }
    }

    /** How much of a write of n bytes goes behind output that is already in the buffer. */
    ghost function Behind(n: nat): nat
      reads this`bufdirty, this`buflen, this`buf
      requires buflen <= buf.Length
    {
      if bufdirty then Min(n, buf.Length - buflen) else 0
    }

    /** A round of the write loop once the buffer is clean. */
    method PutNext(w: seq<Byte>, i: nat, ghost j: nat, ghost base: seq<Byte>, io: nat)
      returns (rc: Code, done: nat, left: nat)
      requires Valid() && writable && buf.Length > 0 && !bufdirty && j <= i < |w|
      requires Wrote(base, pos + j, w[j..i], data)
      modifies this`data, this`disk, this`err, this`bufdirty, this`bufpos, this`buflen, this`held, buf
      ensures Valid() && i < done <= |w| && Wrote(base, pos + j, w[j..done], data)
      ensures if rc == Success then err == old(err) && (bufdirty ==> done == |w| && bufpos + buflen == pos + done)
              else rc == Failed && err
      ensures |w| - i < buf.Length ==> rc == Success && done == |w| && bufdirty && bufpos == pos + i
      ensures io >= 2 && pos + |w| <= MAX_OFF ==> rc == Success && left >= io - 2
    {
      var bytes;
      rc, bytes, left := PutRound(pos + i, w[i..], io);
      done := i + bytes;
      Pieces(w, j, i, bytes);
      WroteMore(base, pos + j, w[j..i], old(data), pos + i, w[i..][..bytes], data, w[j..done]);
    }

    /** The write loop of unifyfs_stream_write, from a clean buffer on. */
    method PutRest(w: seq<Byte>, i: nat, ghost j: nat, ghost base: seq<Byte>, io: nat) returns (rc: Code, done: nat)
      requires Valid() && writable && buf.Length > 0 && pos + |w| <= MAX_OFF && j <= i < |w|
      requires !bufdirty && Wrote(base, pos + j, w[j..i], data)
      modifies this`data, this`disk, this`err, this`bufdirty, this`bufpos, this`buflen, this`held, buf
      ensures Valid() && i <= done <= |w| && Wrote(base, pos + j, w[j..done], data)
      ensures if rc == Success then err == old(err) && done == |w| else rc == Failed && err
      ensures rc == Success && bufdirty ==> bufpos + buflen == pos + |w|
      ensures |w| - i < buf.Length ==> rc == Success && bufdirty && bufpos == pos + i
      ensures io >= 2 * (|w| - i) ==> rc == Success
    {
      done, rc := i, Success;
      var left: nat := io;
      while done < |w|
        modifies this`data, this`disk, this`err, this`bufdirty, this`bufpos, this`buflen, this`held, buf
        invariant Valid() && i <= done <= |w| && err == old(err) && rc == Success
        invariant (done < |w| ==> !bufdirty) && Wrote(base, pos + j, w[j..done], data)
        invariant bufdirty ==> bufpos + buflen == pos + |w|
        invariant |w| - i < buf.Length && done > i ==> done == |w| && bufdirty && bufpos == pos + i
        invariant io >= 2 * (|w| - i) ==> left >= 2 * (|w| - done)
      {
        rc, done, left := PutNext(w, done, j, base, left);
        if rc != Success { return; }
      }
    }

    /** The write loop, or what is left of it, from a clean buffer on. */
    method PutMore(w: seq<Byte>, i: nat, io: nat) returns (rc: Code, done: nat)
      requires Valid() && writable && buf.Length > 0 && pos + |w| <= MAX_OFF && i <= |w| && (i < |w| ==> !bufdirty)
      modifies this`data, this`disk, this`err, this`bufdirty, this`bufpos, this`buflen, this`held, buf
      ensures Valid() && i <= done <= |w| && Wrote(old(data), pos + i, w[i..done], data)
      ensures if rc == Success then err == old(err) && done == |w| else rc == Failed && err
      ensures if i < |w| then rc == Success && bufdirty ==> bufpos + buflen == pos + |w|
              else rc == Success && bufdirty == old(bufdirty) && bufpos == old(bufpos) && buflen == old(buflen)
      ensures i < |w| && |w| - i < buf.Length ==> rc == Success && bufdirty && bufpos == pos + i
      ensures io >= 2 * (|w| - i) ==> rc == Success
    {
      rc, done := Success, i;
      WroteNothing(data, pos + i, w[i..i]);
      if i < |w| { rc, done := PutRest(w, i, i, data, io); }
    }

    /** The write loop if it finds output in the buffer, which only its first round can. */
    method PutBehind(w: seq<Byte>, io: nat) returns (rc: Code, done: nat, ghost first: nat)
      requires Valid() && writable && buf.Length > 0 && pos + |w| <= MAX_OFF && bufdirty && w != []
      modifies this`data, this`disk, this`err, this`bufdirty, this`bufpos, this`buflen, this`held, buf
      ensures Valid() && first == Min(|w|, old(Room())) <= done <= |w|
      ensures data == Landing(old(data), old(bufpos + buflen), first, pos, w, done)
      ensures if rc == Success then err == old(err) && done == |w| else rc == Failed && err
      ensures rc == Success && bufdirty ==>
        bufpos + buflen == (if first == |w| then old(bufpos + buflen) else pos) + |w|
      ensures |w| < old(Room()) ==> rc == Success && bufdirty && bufpos == old(bufpos)
      ensures io >= 2 * |w| + 2 && old(bufpos + buflen) + |w| <= MAX_OFF ==> rc == Success
    {
      var left;
      rc, done, left := PutRound(pos, w, io);
      ghost var base := data;
      first := done;
      if rc == Success {
        rc, done := PutMore(w, done, left);
      } else {
        WroteNothing(base, pos + first, w[first..done]);
      }
      Landed(old(data), old(bufpos + buflen), first, pos, w, done, base, data);
    }

    /** The write loop: the first bytes go behind output in the buffer, the others to the position. */
    method Put(w: seq<Byte>, io: nat) returns (rc: Code, done: nat, ghost first: nat)
      requires Valid() && writable && buf.Length > 0 && pos + |w| <= MAX_OFF
      modifies this`data, this`disk, this`err, this`bufdirty, this`bufpos, this`buflen, this`held, buf
      ensures Valid() && first == old(Behind(|w|)) <= done <= |w|
      ensures data == Landing(old(data), old(Tail(pos)), first, pos, w, done)
      ensures if rc == Success then err == old(err) && done == |w| else rc == Failed && err
      ensures rc == Success && bufdirty ==> bufpos + buflen == (if first == |w| then old(Tail(pos)) else pos) + |w|
      ensures w != [] && |w| < old(Room()) ==> rc == Success && bufdirty && bufpos == old(Front(pos))
      ensures old(Plenty(w, io)) ==> rc == Success
    {
      if bufdirty && w != [] {
        rc, done, first := PutBehind(w, io);
      } else {
        first := 0;
        WroteNothing(data, Tail(pos), w[..0]);
        rc, done := PutMore(w, 0, io);
        Landed(old(data), old(Tail(pos)), 0, pos, w, done, old(data), data);
      }
    }

    /** Output is in the buffer, for the offsets from b up to e. */
    ghost predicate Holding(b: nat, e: nat)
      reads this`bufdirty, this`bufpos, this`buflen
    {
      bufdirty && bufpos == b && bufpos + buflen == e
    }

    /** n bytes fit in the buffer, be it one the stream is yet to get, without filling it. */
    ghost predicate Fits(n: nat)
      reads this`bufdirty, this`buflen, this`buf
    {
      n < if buf.Length == 0 then BUFSIZE else Room()
    }

    /** Output in the buffer ends at the position. */
    ghost predicate Aligned()
      reads this`bufdirty, this`bufpos, this`buflen, this`pos
    {
      bufdirty ==> bufpos + buflen == pos
    }

    /** unifyfs_stream_write, fully buffered and not appending. */
    method Write(w: seq<Byte>, io: nat) returns (rc: Code, ghost done: nat)
      requires Valid() && |w| <= MAX_OFF
      modifies this, buf
      ensures Valid() && ubuf == old(ubuf) && (buf == old(buf) || (fresh(buf) && buf.Length == BUFSIZE))
      ensures WroteBy(old(Abs()), w, old(Tail(pos)), old(Behind(|w|)), rc, done, Abs())
      ensures rc != Failed && old(Aligned()) ==> Aligned()
      ensures w != [] && old(Fits(|w|)) && rc == Success ==> Holding(old(Front(pos)), old(Tail(pos)) + |w|)
      ensures WriteCode(old(Abs()), |w|) == Success && old(Plenty(w, io)) ==> rc == Success
    {
      done := 0;
      if !writable {
        Fail(true);
        rc := BadFile;
      } else {
        rc, done := WriteOpen(w, io);
      }
    }

    method WriteOpen(w: seq<Byte>, io: nat) returns (rc: Code, ghost done: nat)
      requires Valid() && |w| <= MAX_OFF && writable
      modifies this`buf, this`pos, this`data, this`disk, this`err, this`bufdirty, this`bufpos, this`buflen, this`held,
        this`ubuflen, this`pushed, buf
      ensures Valid() && (buf == old(buf) || (fresh(buf) && buf.Length == BUFSIZE))
      ensures WroteBy(old(Abs()), w, old(Tail(pos)), old(Behind(|w|)), rc, done, Abs())
      ensures rc != Failed && old(Aligned()) ==> Aligned()
      ensures w != [] && old(Fits(|w|)) && rc == Success ==> Holding(old(Front(pos)), old(Tail(pos)) + |w|)
      ensures WriteCode(old(Abs()), |w|) == Success && old(Plenty(w, io)) ==> rc == Success
    {
      done := 0;
      DropBack(|w|);
      ghost var f1 := Abs();
      if pos + |w| > MAX_OFF {
        Fail(true);
        rc := TooBig;
      } else {
        rc, done := WriteOn(w, io);
        assert StoredBy(f1, w, old(Tail(pos)), old(Behind(|w|)), rc, done, Abs());
      }
    }

    /** Calls enough for writing w. */
    ghost predicate Plenty(w: seq<Byte>, io: nat)
      reads this`bufdirty, this`bufpos, this`buflen
    {
      io >= 2 * |w| + 2 && (bufdirty ==> bufpos + buflen + |w| <= MAX_OFF)
    }

    /** The part of a write after its checks. */
    method WriteOn(w: seq<Byte>, io: nat) returns (rc: Code, ghost done: nat)
      requires Valid() && writable && pos + |w| <= MAX_OFF
      modifies this`buf, this`pos, this`data, this`disk, this`err, this`bufdirty, this`bufpos, this`buflen, this`held,
        buf
      ensures Valid() && (buf == old(buf) || (fresh(buf) && buf.Length == BUFSIZE))
      ensures StoredBy(old(Abs()), w, old(Tail(pos)), old(Behind(|w|)), rc, done, Abs())
      ensures rc == Success && old(Aligned()) ==> Aligned()
      ensures w != [] && old(Fits(|w|)) && rc == Success ==> Holding(old(Front(pos)), old(Tail(pos)) + |w|)
      ensures old(Plenty(w, io)) ==> rc == Success
    {
      NeedBuffer();
      rc, done := Store(w, io);
    }

    method Store(w: seq<Byte>, io: nat) returns (rc: Code, ghost done: nat)
      requires Valid() && writable && pos + |w| <= MAX_OFF && buf.Length > 0
      modifies this`pos, this`data, this`disk, this`err, this`bufdirty, this`bufpos, this`buflen, this`held, buf
      ensures Valid() && StoredBy(old(Abs()), w, old(Tail(pos)), old(Behind(|w|)), rc, done, Abs())
      ensures rc == Success && old(Aligned()) ==> Aligned()
      ensures w != [] && |w| < old(Room()) && rc == Success ==> Holding(old(Front(pos)), old(Tail(pos)) + |w|)
      ensures old(Plenty(w, io)) ==> rc == Success
    {
      ghost var first;
      var n;
      rc, n, first := Put(w, io);
      done := n;
      if rc == Success { Forward(|w|); }
    }

    /** ungetc: the byte in front of the position, in a buffer filled from its end that doubles when
        it is full. */
    method Ungetc(c: int) returns (r: int)
      requires Valid()
      modifies this`pos, this`eof, this`ubuf, this`ubuflen, this`pushed, ubuf
      ensures Valid() && (ubuf == old(ubuf) || fresh(ubuf))
      ensures r == EOF ==> Abs() == old(Abs()) && ubuf == old(ubuf)
      ensures r != EOF ==> 0 <= r < 256 && r == c % 256 && old(pos) > 0
      ensures r != EOF ==> Abs() == old(Abs()).(pos := old(pos) - 1, pushed := [r as Byte] + old(pushed), eof := false)
      ensures old(Grown()) ==> Grown() && (r != EOF <==> c != EOF && old(pos) > 0 && |old(pushed)| < MAX_PUSH_BACK)
    {
      if c == EOF || pos <= 0 { return EOF; }
      if ubuflen == ubuf.Length {
        var ok := Grow();
        if !ok { return EOF; }
      }
      Push((c % 256) as Byte);
      return c % 256;
    }

    /** The push-back buffer has one of its sizes. */
    ghost predicate Grown()
      reads this`ubuf
    {
      Doubling(ubuf.Length) && ubuf.Length <= MAX_PUSH_BACK
    }

    /** Doubles the push-back buffer. */
    method Grow() returns (ok: bool)
      requires Valid() && ubuflen == ubuf.Length
      modifies this`ubuf
      ensures Valid() && (if ok then fresh(ubuf) && ubuf.Length > ubuflen else ubuf == old(ubuf))
      ensures old(Grown()) ==> Grown() && (ok <==> ubuflen < MAX_PUSH_BACK)
    {
      var size := if ubuf.Length > 0 then ubuf.Length * 2 else 1;
      if size > MAX_PUSH_BACK {
        if Grown() { DoublingTop(ubuf.Length, MAX_PUSH_BACK); }
        return false;
      }
      ubuf := Bigger(size);
      return true;
    }

    /** A copy of the push-back buffer, filled from its end. */
    method Bigger(size: nat) returns (a: array<Byte>)
      requires Valid() && size > ubuflen
      ensures fresh(a) && a.Length == size && a[size - ubuflen..] == pushed
    {
      a := new Byte[size];
      var back := ubuf[ubuf.Length - ubuflen..];
      Copy(a, size - ubuflen, back);
      assert a[size - ubuflen..] == back;
    }

    method Push(b: Byte)
      requires Valid() && ubuflen < ubuf.Length && pos > 0
      modifies this`pos, this`eof, this`ubuflen, this`pushed, ubuf
      ensures Valid() && Abs() == old(Abs()).(pos := old(pos) - 1, pushed := [b] + old(pushed), eof := false)
    {
      ubuf[ubuf.Length - ubuflen - 1] := b;
      ubuflen, pushed := ubuflen + 1, [b] + pushed;
      pos, eof := pos - 1, false;
    }

    /** unifyfs_fseek: output is flushed first; the file size is -1 if it cannot be had. */
    method Seek(off: int, whence: Whence, io: nat) returns (rc: Code, size: int)
      requires Valid() && -MAX_OFF - 1 <= off <= MAX_OFF
      modifies this`disk, this`bufdirty, this`err, this`pos, this`eof, this`ubuflen, this`pushed
      ensures Valid() && (rc != Failed ==> !bufdirty)
      ensures (size == -1 || size == |data|) && SoughtBy(old(Abs()), size, off, whence, rc, Abs())
      ensures io >= 3 && (old(bufdirty) ==> bufpos + buflen <= MAX_OFF) ==> rc != Failed && size == |data|
    {
      var left;
      rc, left := Flush(io);
      size := if left > 0 then |disk| else -1;
      if rc == Success { rc := SeekOn(off, whence, size); } else { size := -1; }
    }

    /** The part of a seek after the flush. */
    method SeekOn(off: int, whence: Whence, size: int) returns (rc: Code)
      requires Valid() && -MAX_OFF - 1 <= off <= MAX_OFF && -1 <= size <= MAX_OFF
      modifies this`err, this`pos, this`eof, this`ubuflen, this`pushed
      ensures Valid() && rc == SeekCode(old(pos), size, off, whence) &&
        Abs() == AfterSeek(old(Abs()), size, off, whence)
    {
      rc := SeekCode(pos, size, off, whence);
      if rc == Success {
        SeekBound(pos, size, off, whence);
        MoveTo(Base(pos, size, whence) + off);
      } else {
        Fail(rc == Overflow || whence == Other);
      }
    }

    method MoveTo(target: nat)
      requires Valid() && target <= MAX_OFF
      modifies this`pos, this`eof, this`ubuflen, this`pushed
      ensures Valid() && Abs() == old(Abs()).(pos := target, pushed := [], eof := false)
    {
      ubuflen, pushed, pos, eof := 0, [], target, false;
    }

    /** An aligned write does what the unbuffered stream does, unless I/O fails. */
    method DoWrite(w: seq<Byte>, io: nat) returns (rc: Code)
      requires Valid() && |w| <= MAX_OFF && Aligned()
      modifies this, buf
      ensures Valid() && ubuf == old(ubuf) && (buf == old(buf) || (fresh(buf) && buf.Length == BUFSIZE))
      ensures rc != Failed ==> Aligned() && Abs() == Written(old(Abs()), w) && rc == WriteCode(old(Abs()), |w|)
      ensures io >= 2 * |w| + 2 ==> rc != Failed
    {
      ghost var f, e, j, done := Abs(), Tail(pos), Behind(|w|), 0;
      assert e == f.pos && (io >= 2 * |w| + 2 && WriteCode(f, |w|) == Success ==> Plenty(w, io));
      rc, done := Write(w, io);
      if rc != Failed { WrittenRight(f, w, e, j, rc, done, Abs()); }
    }

    method DoSeek(off: int, whence: Whence, io: nat) returns (ok: bool, rc: Code)
      requires Valid() && Sane(Seeking(off, whence)) && Aligned()
      modifies this`disk, this`bufdirty, this`err, this`pos, this`eof, this`ubuflen, this`pushed
      ensures Valid()
      ensures ok ==> !bufdirty && Abs() == Next(old(Abs()), Seeking(off, whence))
      ensures ok ==> Out(rc, []) == Answer(old(Abs()), Seeking(off, whence))
      ensures io >= 3 ==> ok
    {
      var size;
      rc, size := Seek(off, whence, io);
      ok := rc != Failed && (whence != End || size != -1);
      if ok { SoughtRight(old(Abs()), size, off, whence, rc, Abs()); }
    }

    method DoRead(n: nat, io: nat) returns (rc: Code, out: seq<Byte>)
      requires Valid() && n <= MAX_OFF && !bufdirty
      modifies this, buf
      ensures Valid() && ubuf == old(ubuf) && (buf == old(buf) || (fresh(buf) && buf.Length == BUFSIZE)) && !bufdirty
      ensures rc != Failed ==> Abs() == Next(old(Abs()), Reading(n)) && Out(rc, out) == Answer(old(Abs()), Reading(n))
      ensures io >= n && old(pos) + n + buf.Length <= MAX_OFF ==> rc != Failed
    {
      rc, out := Read(n, io);
      if rc != Success { out := []; }
    }

    method DoPush(c: int) returns (rc: Code)
      requires Valid() && Grown()
      modifies this`pos, this`eof, this`ubuf, this`ubuflen, this`pushed, ubuf
      ensures Valid() && Grown() && (ubuf == old(ubuf) || fresh(ubuf))
      ensures Abs() == Next(old(Abs()), Pushing(c)) && rc == PushCode(old(Abs()), c)
    {
      var r := Ungetc(c);
      rc := if r == EOF then AtEnd else Success;
    }

    /** One operation of a disciplined run does what the unbuffered stream does, unless I/O fails. */
    method Do(op: Op, io: nat) returns (ok: bool, out: Out)
      requires Valid() && Grown() && Sane(op) && Aligned() && (op.Reading? || op.Pushing? ==> !bufdirty)
      modifies this, buf, ubuf
      ensures Valid() && Grown() && (buf == old(buf) || (fresh(buf) && buf.Length == BUFSIZE)) &&
        (ubuf == old(ubuf) || fresh(ubuf))
      ensures ok ==> Abs() == Next(old(Abs()), op) && out == Answer(old(Abs()), op)
      ensures ok ==> Aligned() && (bufdirty ==> op.Writing?)
      ensures Served(old(Abs()), op, io, buf.Length) ==> ok
    {
      match op
      case Reading(n) =>
        var rc, bytes := DoRead(n, io);
        ok, out := rc != Failed, Out(rc, bytes);
      case Writing(w) =>
        var rc := DoWrite(w, io);
        ok, out := rc != Failed, Out(rc, []);
      case Flushing =>
        var rc, left := Flush(io);
        ok, out := rc == Success, Out(rc, []);
      case Seeking(off, whence) =>
        var rc;
        ok, rc := DoSeek(off, whence, io);
        out := Out(rc, []);
      case Pushing(c) =>
        var rc := DoPush(c);
        ok, out := true, Out(rc, []);
    }

    /** In every disciplined run the answers and the state are those of the unbuffered stream, up to
        the first I/O error; without one the run is complete. */
    method Run(ops: seq<Op>, io: seq<nat>, ghost room: nat) returns (outs: seq<Out>)
      requires Valid() && Grown() && Aligned() && |io| == |ops|
      requires (forall i :: 0 <= i < |ops| ==> Sane(ops[i])) && Disciplined(ops, bufdirty)
      requires buf.Length <= room && BUFSIZE <= room
      modifies this, buf, ubuf
      ensures Valid() && (buf == old(buf) || fresh(buf)) && (ubuf == old(ubuf) || fresh(ubuf))
      ensures |outs| <= |ops| && outs == Answers(old(Abs()), ops[..|outs|])
      ensures |outs| == |ops| ==> Abs() == After(old(Abs()), ops)
      ensures AllServed(old(Abs()), ops, io, room) ==> |outs| == |ops|
      decreases |ops|
    {
      outs := [];
      if ops != [] {
        var ok, out := Do(ops[0], io[0]);
        if ok {
          outs := Run(ops[1..], io[1..], room);
          AnswersOneMore(old(Abs()), ops, |outs|);
          outs := [out] + outs;
        }
      }
    }
  }

  /** Whatever a caller does with a new stream, in a disciplined way: the answers are those of the
      unbuffered stream on the same file. */
  method OpenAndRun(contents: seq<Byte>, canRead: bool, canWrite: bool, ops: seq<Op>, io: seq<nat>)
    returns (outs: seq<Out>)
    requires |contents| <= MAX_OFF && |io| == |ops|
    requires (forall i :: 0 <= i < |ops| ==> Sane(ops[i])) && Disciplined(ops, false)
    ensures |outs| <= |ops| && outs == Answers(File(contents, 0, [], false, false, canRead, canWrite), ops[..|outs|])
    ensures AllServed(File(contents, 0, [], false, false, canRead, canWrite), ops, io, BUFSIZE) ==> |outs| == |ops|
  {
    var s := new Stream(contents, canRead, canWrite);
    outs := s.Run(ops, io, BUFSIZE);
  }

  /** Patching behind the end of the file. */
  lemma PatchEnd(d: seq<Byte>, w: seq<Byte>)
    ensures Patch(d, |d|, w) == d + w
  {
    PatchAt(d, |d|, w);
    if w != [] {
      forall i: nat | i < |d + w| ensures Patched(d, |d|, w, i) == (d + w)[i] {
      }
    }
    SameBytes(Patch(d, |d|, w), d + w);
  }

  lemma LandingBehind(d: seq<Byte>, p: nat, z: seq<Byte>)
    ensures Landing(d, |d|, |z|, p, z, |z|) == d + z
  {
    assert z[..|z|] == z && z[|z|..|z|] == [];
    PatchEnd(d, z);
  }

  /** Output, a byte pushed back, and output again, on a new stream: the byte z goes behind the
      output that is still in the buffer, and not to the position. */
  method OutputAfterPush(a: seq<Byte>, c: Byte, z: Byte) returns (s: Stream)
    requires 0 < |a| < BUFSIZE - 1
    ensures fresh(s) && fresh(s.buf) && fresh(s.ubuf) && s.Valid() && s.buf.Length == BUFSIZE
    ensures s.Abs() == File(a + [z], |a|, [], false, false, true, true) && s.bufpos + s.buflen <= MAX_OFF
  {
    s := Started(a);
    var r := s.Ungetc(c as int);
    ghost var done;
    var w, rc := [z], Success;
    rc, done := s.Write(w, 4);
    assert s.data == a + w by { LandingBehind(a, |a| - 1, w); }
  }

  /** A new stream with output in its buffer. */
  method Started(a: seq<Byte>) returns (s: Stream)
    requires 0 < |a| < BUFSIZE
    ensures fresh(s) && fresh(s.buf) && fresh(s.ubuf) && s.Valid() && s.buf.Length == BUFSIZE && s.Grown()
    ensures s.Abs() == File(a, |a|, [], false, false, true, true) && s.Holding(0, |a|)
  {
    s := new Stream([], true, true);
    ghost var done;
    var rc;
    rc, done := s.Write(a, 2 * |a| + 2);
    assert s.data == a by { LandingBehind([], 0, a); }
  }

  /** What is read back then. */
  method ReadAfterPush(a: seq<Byte>, c: Byte, z: Byte) returns (got: seq<Byte>)
    requires 0 < |a| < BUFSIZE - 1
    ensures got == a + [z]
  {
    var s := OutputAfterPush(a, c, z);
    var rc, size;
    rc, size := s.Seek(0, Set, 3);
    assert s.Abs() == File(a + [z], 0, [], false, false, true, true);
    rc, got := s.Read(|a| + 1, |a| + 1);
    assert Slice(a + [z], 0, |a| + 1) == a + [z];
  }

  /** The unbuffered stream reads otherwise: z is where the byte pushed back was. */
  lemma UnbufferedAfterPush(a: seq<Byte>, c: Byte, z: Byte)
    requires 0 < |a| < MAX_OFF
    ensures After(File([], 0, [], false, false, true, true), [Writing(a), Pushing(c as int), Writing([z])]).data ==
      a[..|a| - 1] + [z]
  {
    var f0 := File([], 0, [], false, false, true, true);
    var ops, w := [Writing(a), Pushing(c as int), Writing([z])], [z];
    PatchEnd([], a);
    var f1 := Next(f0, ops[0]);
    var f2 := Next(f1, ops[1]);
    assert ops[1..][1..] == [ops[2]] && [ops[2]][1..] == [];
    assert After(f0, ops) == After(f1, ops[1..]) == After(f2, [ops[2]]) == Next(f2, ops[2]);
    var x := a[..|a| - 1] + w;
    PatchAt(a, |a| - 1, w);
    forall i: nat | i < |a| ensures Patched(a, |a| - 1, w, i) == x[i] {
    }
    SameBytes(Patch(a, |a| - 1, w), x);
  }
}
