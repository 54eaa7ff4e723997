/** Reads that the client serves from its own extents, without the server. */
module LocalRead {
  import opened Common
  import opened Extents
  import opened RedBlack
  import opened SegmentTree
  import opened ReadRequest
  import Owners

  /** The logs of the clients on a node: the byte at a position in the log of a client. */
  type Log = (int, nat) -> Byte

  /** What comes of reading a log: it cannot be opened, the read fails, or there are so many bytes. */
  datatype Outcome = NoLog | Failed(error: Code) | Got(n: nat)

  /** What reading a number of bytes at a position in the log of a client gives. */
  type Access = (int, nat, nat) -> Outcome

  /** A read that succeeds has a byte at least, and no more than were asked for. */
  ghost predicate Sane(access: Access) {
    forall c, p, n :: 0 < n ==>
      && (access(c, p, n).Got? ==> 0 < access(c, p, n).n <= n)
      && (access(c, p, n).Failed? ==> access(c, p, n).error != Success)
  }

  /** Every offset from b up to e, without e, has an extent. */
  ghost predicate AllCovered(s: seq<Seg>, b: nat, e: nat) {
    forall o: nat :: b <= o < e ==> Lookup(s, o).Some?
  }

  datatype Cover = Cover(reqByte: nat, extByte: nat, length: nat)

  predicate Asked(off: nat, len: nat, o: nat) { off <= o < off + len }

  /** get_extent_coverage: the part of a request that an extent has. */
  function Coverage(off: nat, len: nat, g: Seg): (c: Option<Cover>)
    requires len > 0 && g.start <= g.end
    ensures c.None? <==> forall o: nat :: Asked(off, len, o) ==> !Has(g, o)
    ensures c.Some? ==> c.value.length > 0 && off + c.value.reqByte == g.start + c.value.extByte
    ensures c.Some? ==> forall o: nat ::
      (Asked(off, len, o) && Has(g, o)) <==> off + c.value.reqByte <= o < off + c.value.reqByte + c.value.length
  {
    var reqEnd := off + len - 1;
    if g.end < off || g.start > reqEnd then None
    else
      var start := if off > g.start then off else g.start;
      var end := if reqEnd < g.end then reqEnd else g.end;
      assert Has(g, start) && Asked(off, len, start);
      Some(Cover(start - off, start - g.start, end - start + 1))
  }

  /** An offset after extent j - 1 that extent j does not have is a hole. */
  lemma Hole(s: seq<Seg>, j: nat, o: nat)
    requires Sorted(s) && j <= |s| && (j > 0 ==> s[j - 1].end < o) && (j < |s| ==> o < s[j].start)
    ensures Lookup(s, o).None?
  {
    LookupNone(s, o);
  }

  /** The check of service_local_reqs that no byte is missing. */
  method HaveLocal(t: SegTree, off: nat, len: nat) returns (local: bool, first: Ptr, ghost k: nat)
    requires t.Sound() && len > 0 && off + len < LIMIT
    requires forall i :: 0 <= i < |t.Extents()| ==> t.Extents()[i].end + 1 < LIMIT
    ensures local <==> AllCovered(t.Extents(), off, off + len)
    ensures local ==> first != NULL && k < |t.head.Content()| == |t.Extents()| && t.head.Content()[k].at == first
    ensures local ==> Has(t.Extents()[k], off)
  {
    ghost var s := t.Extents();
    SegsAt(t.head.Content());
    OrderedSegs(t.head.Content());
    first, k := t.Find(off, off);
    if first == NULL {
      LookupNone(s, off);
      return false, first, k;
    }
    var next, expected, j := Scan(t, off, len, first, k);
    local := expected >= off + len;
    if !local { Hole(s, j, expected); }
  }

  /** Node next has extent j; there is none behind the last extent. */
  ghost predicate Here(t: SegTree, next: Ptr, j: nat)
    reads t, t.head
  {
    var es := t.head.Content();
    if j < |es| then next == es[j].at && next != NULL && next in t.head.mem && t.head.mem[next].seg == es[j].seg
    else next == NULL
  }

  /** The node after the one with extent j. */
  method Following(t: SegTree, node: Ptr, ghost j: nat) returns (next: Ptr)
    requires t.Sound() && j < |t.head.Content()| && Here(t, node, j)
    ensures Here(t, next, j + 1)
  {
    next := t.Iter(node, j);
    if j + 1 < |t.head.Content()| { t.NodeAt(j + 1); }
  }

  /** The loop of the check: how far the extents from node first on follow each other. */
  method Scan(t: SegTree, off: nat, len: nat, first: Ptr, ghost k: nat) returns (next: Ptr, expected: nat, ghost j: nat)
    requires t.Sound() && len > 0 && off + len < LIMIT && k < |t.head.Content()| && t.head.Content()[k].at == first
    requires forall i :: 0 <= i < |t.Extents()| ==> t.Extents()[i].end + 1 < LIMIT
    requires Sorted(t.Extents()) && |t.Extents()| == |t.head.Content()| && Has(t.Extents()[k], off)
    ensures off < expected && AllCovered(t.Extents(), off, expected)
    ensures expected < off + len ==> j <= |t.Extents()| && (j > 0 ==> t.Extents()[j - 1].end < expected)
    ensures expected < off + len ==> (j < |t.Extents()| ==> expected < t.Extents()[j].start)
  {
    ghost var s := t.Extents();
    SegsAt(t.head.Content());
    expected, next, j := off, first, k;
    t.NodeAt(k);
    while next != NULL && t.head.mem[next].seg.start < off + len
      invariant off <= expected && AllCovered(s, off, expected) && Here(t, next, j)
      invariant k <= j <= |s| && (j > 0 ==> s[j - 1].end < expected) &&
        if j == k then expected == off else expected > off
      decreases |s| - j
    {
      if expected >= t.head.mem[next].seg.start {
        CoveredOn(s, off, expected, j);
        expected := t.head.mem[next].seg.end + 1;
      } else {
        break;
      }
      next := Following(t, next, j);
      j := j + 1;
    }
  }

  lemma CoveredOn(s: seq<Seg>, off: nat, expected: nat, j: nat)
    requires Sorted(s) && j < |s| && AllCovered(s, off, expected) && s[j].start <= expected
    ensures AllCovered(s, off, s[j].end + 1)
  {
    forall o: nat | off <= o < s[j].end + 1 ensures Lookup(s, o).Some? {
      if o >= expected { LookupAt(s, j, o); }
    }
  }

  /** The byte of the file at offset o, found through the extents. */
  function LogByte(s: seq<Seg>, log: Log, o: nat): Option<Byte> {
    var who, at := Owners.Client(s, o), Lookup(s, o);
    if at.Some? && who.Some? then Some(log(who.value, at.value)) else None
  }

  /** The first p bytes of the buffer are those of the file from off on. */
  ghost predicate Copied(s: seq<Seg>, log: Log, off: nat, buf: seq<Byte>, p: nat)
    requires p <= |buf|
  {
    forall i :: 0 <= i < p ==> Some(buf[i]) == LogByte(s, log, off + i)
  }

  /** Nothing is read yet. */
  ghost predicate Unread(req: ReadReq)
    reads req
  {
    req.Valid() && req.begin == -1 && req.end == -1 && req.nread == 0 && req.errcode == InProgress
  }

  predicate Buffered(r: Req) { 0 < r.length == |r.buf| }

  lemma CoverageFits(off: nat, len: nat, g: Seg)
    requires len > 0 && g.start <= g.end
    ensures var c := Coverage(off, len, g); c.Some? ==> c.value.length > 0 && c.value.reqByte + c.value.length <= len
  {
    var c := Coverage(off, len, g);
    if c.Some? { assert Asked(off, len, off + c.value.reqByte + c.value.length - 1); }
  }

  /** The n bytes at a position of a log. */
  function Bytes(log: Log, client: int, pos: nat, n: nat): seq<Byte> {
    seq(n, i requires 0 <= i => log(client, pos + i))
  }

  /** What comes of reading the part of an extent that a request asks for. */
  function OutcomeOf(g: Seg, off: nat, len: nat, access: Access): Outcome
    requires len > 0 && g.start <= g.end && Coverage(off, len, g).Some?
  {
    var c := Coverage(off, len, g).value;
    access(g.client, g.ptr + c.extByte, c.length)
  }

  /** One round of the copy loop: the request with what the log gives of extent g. */
  function Part(r: Req, g: Seg, log: Log, access: Access): (r1: Req)
    requires Buffered(r) && g.start <= g.end
    ensures r1.offset == r.offset && r1.length == r.length == |r1.buf|
  {
    CoverageFits(r.offset, r.length, g);
    match Coverage(r.offset, r.length, g)
    case None => r
    case Some(c) =>
      match OutcomeOf(g, r.offset, r.length, access)
      case NoLog => r
      case Failed(error) => r.(code := error)
      case Got(n) =>
        if 0 < n <= c.length then
          var chunk := Chunk(c.reqByte, Bytes(log, g.client, g.ptr + c.extByte, n));
          PlacedAt(r.buf, chunk);
          Delivered(r, chunk)
        else r
  }

  /** The copy loop over the first j extents. */
  function FromLogs(r: Req, s: seq<Seg>, j: nat, log: Log, access: Access): (r1: Req)
    requires Buffered(r) && Sorted(s) && j <= |s|
    ensures r1.offset == r.offset && r1.length == r.length == |r1.buf|
  {
    if j == 0 then r else Part(FromLogs(r, s, j - 1, log, access), s[j - 1], log, access)
  }

  /** Extents that end before the request are passed over. */
  lemma {:induction false} NothingBefore(r: Req, s: seq<Seg>, j: nat, log: Log, access: Access)
    requires Buffered(r) && Sorted(s) && j <= |s| && (j > 0 ==> s[j - 1].end < r.offset)
    ensures FromLogs(r, s, j, log, access) == r
  {
    if j > 0 {
      assert j > 1 ==> s[j - 2].end < s[j - 1].start;
      NothingBefore(r, s, j - 1, log, access);
    }
  }

  /** So are those that start behind it. */
  lemma {:induction false} NothingBehind(r: Req, s: seq<Seg>, j: nat, m: nat, log: Log, access: Access)
    requires Buffered(r) && Sorted(s) && j <= m <= |s| && (j < |s| ==> r.offset + r.length <= s[j].start)
    ensures FromLogs(r, s, m, log, access) == FromLogs(r, s, j, log, access)
  {
    if j < m {
      assert j < m - 1 ==> s[j].end < s[m - 1].start;
      NothingBehind(r, s, j, m - 1, log, access);
    }
  }

  /** Copies what the log gives of extent g. */
  method CopyPart(req: ReadReq, g: Seg, log: Log, access: Access)
    requires req.Valid() && Sane(access) && g.start <= g.end && Coverage(req.offset, req.length, g).Some?
    modifies req`begin, req`end, req`nread, req`errcode, req.buf
    ensures req.Valid() && Buffered(old(req.Abs())) && req.Abs() == Part(old(req.Abs()), g, log, access)
  {
    CoverageFits(req.offset, req.length, g);
    var c := Coverage(req.offset, req.length, g).value;
    match access(g.client, g.ptr + c.extByte, c.length)
    case NoLog =>
    case Failed(error) => req.errcode := error;
    case Got(n) =>
      req.Copy(c.reqByte, Bytes(log, g.client, g.ptr + c.extByte, n));
      req.Cover(c.reqByte, n);
  }

  /** What the request is before each extent, and behind the last one. */
  ghost predicate Trace(xs: seq<Req>, s: seq<Seg>, log: Log, access: Access)
    requires Sorted(s)
  {
    |xs| == |s| + 1 && forall j :: 0 <= j < |s| ==> Buffered(xs[j]) && xs[j + 1] == Part(xs[j], s[j], log, access)
  }

  ghost function TraceOf(r: Req, s: seq<Seg>, log: Log, access: Access): (xs: seq<Req>)
    requires Buffered(r) && Sorted(s)
    ensures |xs| == |s| + 1 && forall j :: 0 <= j <= |s| ==> xs[j] == FromLogs(r, s, j, log, access)
  {
    seq(|s| + 1, j requires 0 <= j <= |s| => FromLogs(r, s, j, log, access))
  }

  lemma TraceIs(r: Req, s: seq<Seg>, log: Log, access: Access)
    requires Buffered(r) && Sorted(s)
    ensures Trace(TraceOf(r, s, log, access), s, log, access)
  {
    var xs := TraceOf(r, s, log, access);
    forall j | 0 <= j < |s| ensures Buffered(xs[j]) && xs[j + 1] == Part(xs[j], s[j], log, access) {
      assert xs[j + 1] == FromLogs(r, s, j + 1, log, access);
    }
  }

  /** The copy loop of service_local_reqs, from the extent with the first byte on. */
  method FillLocal(t: SegTree, req: ReadReq, log: Log, access: Access, first: Ptr, ghost k: nat)
    requires t.Sound() && req.Valid() && Sane(access) && Sorted(t.Extents())
    requires k < |t.head.Content()| == |t.Extents()| && t.head.Content()[k].at == first
    requires Has(t.Extents()[k], req.offset)
    modifies req`begin, req`end, req`nread, req`errcode, req.buf
    ensures req.Valid() && Buffered(old(req.Abs())) && t.Extents() == old(t.Extents())
    ensures req.Abs() == FromLogs(old(req.Abs()), t.Extents(), |t.Extents()|, log, access)
  {
    ghost var s, r, j := t.Extents(), req.Abs(), k;
    SegsAt(t.head.Content());
    t.NodeAt(k);
    NothingBefore(r, s, k, log, access);
    TraceIs(r, s, log, access);
    j := FillLoop(t, s, req, log, access, first, TraceOf(r, s, log, access), k);
    NothingBehind(r, s, j, |s|, log, access);
  }

  /** The loop is at extent j, the k-th having the first byte of the request. */
  ghost predicate Walking(t: SegTree, s: seq<Seg>, off: nat, k: nat, j: nat, node: Ptr)
    reads t, t.head
  {
    && t.Sound() && t.Extents() == s && |t.head.Content()| == |s| && Here(t, node, j)
    && Sorted(s) && k < |s| && k <= j <= |s| && Has(s[k], off)
  }

  method FillLoop(t: SegTree, ghost s: seq<Seg>, req: ReadReq, log: Log, access: Access, first: Ptr,
                  ghost xs: seq<Req>, ghost k: nat)
    returns (ghost j: nat)
    requires Walking(t, s, req.offset, k, k, first) && Sane(access) && Trace(xs, s, log, access)
    requires req.Valid() && req.Abs() == xs[k]
    modifies req`begin, req`end, req`nread, req`errcode, req.buf
    ensures req.Valid() && k <= j < |xs| && req.Abs() == xs[j]
    ensures j < |s| ==> req.offset + req.length <= s[j].start
  {
    var next := first;
    j := k;
    var more := Reaches(t, s, next, req.offset, req.length, k, j);
    while more
      modifies req`begin, req`end, req`nread, req`errcode, req.buf
      invariant Walking(t, s, req.offset, k, j, next) && req.Valid() && req.Abs() == xs[j]
      invariant more <==> j < |s| && s[j].start < req.offset + req.length
      decreases |s| - j
    {
      FillNext(t, s, req, log, access, next, xs, k, j);
      next, more := Onward(t, s, req, next, k, j);
      j := j + 1;
    }
  }

  /** The copy of a round. */
  method FillNext(t: SegTree, ghost s: seq<Seg>, req: ReadReq, log: Log, access: Access, node: Ptr,
                  ghost xs: seq<Req>, ghost k: nat, ghost j: nat)
    requires Walking(t, s, req.offset, k, j, node) && Sane(access) && Trace(xs, s, log, access)
    requires req.Valid() && j < |s| && req.Abs() == xs[j] && s[j].start < req.offset + req.length
    modifies req`begin, req`end, req`nread, req`errcode, req.buf
    ensures Walking(t, s, req.offset, k, j, node) && req.Valid() && req.Abs() == xs[j + 1]
  {
    SegsAt(t.head.Content());
    StillAsked(s, k, j, req.offset, req.length);
    CopyPart(req, t.head.mem[node].seg, log, access);
  }

  /** The next node, and whether there is another round. */
  method Onward(t: SegTree, ghost s: seq<Seg>, req: ReadReq, node: Ptr, ghost k: nat, ghost j: nat)
    returns (next: Ptr, more: bool)
    requires Walking(t, s, req.offset, k, j, node) && j < |s|
    ensures Walking(t, s, req.offset, k, j + 1, next)
    ensures more <==> j + 1 < |s| && s[j + 1].start < req.offset + req.length
  {
    next := Following(t, node, j);
    more := Reaches(t, s, next, req.offset, req.length, k, j + 1);
  }

  /** The node has an extent, which starts before the end of the request. */
  method Reaches(t: SegTree, ghost s: seq<Seg>, node: Ptr, off: nat, len: nat, ghost k: nat, ghost j: nat)
    returns (more: bool)
    requires Walking(t, s, off, k, j, node)
    ensures more <==> j < |s| && s[j].start < off + len
  {
    SegsAt(t.head.Content());
    more := node != NULL && t.head.mem[node].seg.start < off + len;
  }

  lemma StillAsked(s: seq<Seg>, k: nat, j: nat, off: nat, len: nat)
    requires len > 0 && Sorted(s) && k <= j < |s| && Has(s[k], off) && s[j].start < off + len
    ensures Coverage(off, len, s[j]).Some?
  {
    assert k < j ==> s[k].end < s[j].start;
    assert Asked(off, len, off) && Asked(off, len, if s[j].start < off then off else s[j].start);
  }

  /** service_local_reqs, for one request of a file whose extents the client has: it is served here if
      and only if every byte has an extent, and otherwise left for the server as it was. */
  method Serve(t: SegTree, req: ReadReq, log: Log, access: Access) returns (local: bool)
    requires t.Sound() && req.Valid() && Sane(access) && req.offset + req.length < LIMIT
    requires forall i :: 0 <= i < |t.Extents()| ==> t.Extents()[i].end + 1 < LIMIT
    modifies req`begin, req`end, req`nread, req`errcode, req.buf
    ensures req.Valid() && Buffered(old(req.Abs())) && t.Extents() == old(t.Extents()) && Sorted(t.Extents())
    ensures local <==> AllCovered(t.Extents(), req.offset, req.offset + req.length)
    ensures req.Abs() ==
      if local then FromLogs(old(req.Abs()), t.Extents(), |t.Extents()|, log, access) else old(req.Abs())
  {
    var first; ghost var k;
    SegsAt(t.head.Content());
    OrderedSegs(t.head.Content());
    local, first, k := HaveLocal(t, req.offset, req.length);
    if local { FillLocal(t, req, log, access, first, k); }
  }

  // ---------- what a request served here has ----------

  /** The request has its first p bytes from the logs. */
  ghost predicate Reached(s: seq<Seg>, r: Req, log: Log, p: nat)
    requires p <= |r.buf|
  {
    && (if p == 0 then r.begin == -1 && r.end == -1 && r.nread == 0
        else r.begin == 0 && r.end == p - 1 && r.nread == p)
    && r.code == InProgress && Copied(s, log, r.offset, r.buf, p)
  }

  /** Each log gives all that is asked of it. */
  ghost predicate AllWhole(s: seq<Seg>, off: nat, len: nat, access: Access)
    requires len > 0 && Sorted(s)
  {
    forall j :: 0 <= j < |s| && Coverage(off, len, s[j]).Some? ==> Whole(s[j], off, len, access)
  }

  predicate Whole(g: Seg, off: nat, len: nat, access: Access)
    requires len > 0 && g.start <= g.end && Coverage(off, len, g).Some?
  {
    OutcomeOf(g, off, len, access) == Got(Coverage(off, len, g).value.length)
  }

  lemma WholeGives(g: Seg, off: nat, len: nat, access: Access, o: nat)
    requires len > 0 && g.start <= g.end && Has(g, o) && Asked(off, len, o)
    requires Coverage(off, len, g).Some? ==> Whole(g, off, len, access)
    ensures Gives(g, off, len, access, o)
  {
  }

  /** If every byte has an extent and each log gives all that is asked of it, each byte is given. */
  lemma {:induction false} WholeGiven(s: seq<Seg>, off: nat, len: nat, access: Access, i: nat) returns (k: nat)
    requires len > 0 && Sorted(s) && AllCovered(s, off, off + len) && AllWhole(s, off, len, access) && i < len
    ensures k < |s| && Has(s[k], off + i) && Gives(s[k], off, len, access, off + i)
    ensures i in Given(s, |s|, off, len, access)
  {
    assert Lookup(s, off + i).Some?;
    k := Holder(s, off + i);
    WholeGives(s[k], off, len, access, off + i);
    assert GivesByte(s[k], off, len, access, i);
    InGiven(s, k, |s|, off, len, access, i);
  }

  lemma {:induction false} InGiven(s: seq<Seg>, m: nat, j: nat, off: nat, len: nat, access: Access, i: nat)
    requires len > 0 && Sorted(s) && m < j <= |s| && i < len && GivesByte(s[m], off, len, access, i)
    ensures i in Given(s, j, off, len, access)
    decreases j
  {
    if m < j - 1 { InGiven(s, m, j - 1, off, len, access, i); }
  }

  lemma {:induction false} GivenBound(s: seq<Seg>, j: nat, off: nat, len: nat, access: Access)
    requires len > 0 && Sorted(s) && j <= |s|
    ensures forall i :: i in Given(s, j, off, len, access) ==> i < len
  {
    if j > 0 { GivenBound(s, j - 1, off, len, access); }
  }

  lemma {:induction false} WholeByte(s: seq<Seg>, r: Req, log: Log, access: Access, i: nat)
    requires Sorted(s) && Buffered(r) && AllCovered(s, r.offset, r.offset + r.length) && i < r.length
    requires AllWhole(s, r.offset, r.length, access)
    ensures Some(FromLogs(r, s, |s|, log, access).buf[i]) == LogByte(s, log, r.offset + i)
  {
    var k := WholeGiven(s, r.offset, r.length, access, i);
    GivenByte(s, k, r, log, access, i);
    LookupAt(s, k, r.offset + i);
    Owners.ClientAt(s, k, r.offset + i);
  }

  lemma {:induction false} WholeCount(s: seq<Seg>, r: Req, log: Log, access: Access)
    requires Sorted(s) && Fresh(r) && AllCovered(s, r.offset, r.offset + r.length)
    requires AllWhole(s, r.offset, r.length, access)
    ensures var x := FromLogs(r, s, |s|, log, access); x.begin == 0 && x.end == r.length - 1 && x.nread == r.length
  {
    LogsCounted(s, |s|, r, log, access);
    GivenBound(s, |s|, r.offset, r.length, access);
    var a := WholeGiven(s, r.offset, r.length, access, 0);
    var b := WholeGiven(s, r.offset, r.length, access, r.length - 1);
  }

  /** If every byte has an extent and each log gives all that is asked of it, the request has its bytes. */
  lemma {:induction false} LogsWhole(s: seq<Seg>, r: Req, log: Log, access: Access)
    requires Sorted(s) && Fresh(r) && AllCovered(s, r.offset, r.offset + r.length)
    requires AllWhole(s, r.offset, r.length, access)
    ensures Reached(s, FromLogs(r, s, |s|, log, access), log, r.length)
  {
    var x := FromLogs(r, s, |s|, log, access);
    WholeCount(s, r, log, access);
    LogsClean(s, |s|, r, log, access);
    forall i | 0 <= i < r.length ensures Some(x.buf[i]) == LogByte(s, log, r.offset + i) {
      WholeByte(s, r, log, access, i);
    }
  }

  lemma {:induction false} Holder(s: seq<Seg>, o: nat) returns (k: nat)
    requires Sorted(s) && Lookup(s, o).Some?
    ensures k < |s| && Has(s[k], o)
  {
    if forall i :: 0 <= i < |s| ==> !Has(s[i], o) { LookupNone(s, o); }
    k :| 0 <= k < |s| && Has(s[k], o);
  }

  // ---------- what it has otherwise ----------

  /** No log read fails with an error. */
  ghost predicate NoneFails(s: seq<Seg>, off: nat, len: nat, access: Access)
    requires len > 0 && Sorted(s)
  {
    forall j :: 0 <= j < |s| && Coverage(off, len, s[j]).Some? ==> !OutcomeOf(s[j], off, len, access).Failed?
  }

  /** The bounds that hold of every request, whatever the logs give. */
  ghost predicate InBounds(r: Req) {
    Buffered(r) && -1 <= r.begin < r.length && -1 <= r.end && 0 <= r.nread <= r.length
  }

  lemma {:induction false} LogsBounds(s: seq<Seg>, j: nat, r: Req, log: Log, access: Access)
    requires Sorted(s) && j <= |s| && Fresh(r)
    ensures InBounds(FromLogs(r, s, j, log, access))
  {
    if j > 0 {
      LogsBounds(s, j - 1, r, log, access);
      CoverageFits(r.offset, r.length, s[j - 1]);
    }
  }

  lemma {:induction false} LogsClean(s: seq<Seg>, j: nat, r: Req, log: Log, access: Access)
    requires Sorted(s) && j <= |s| && Fresh(r) && NoneFails(s, r.offset, r.length, access)
    ensures FromLogs(r, s, j, log, access).code == InProgress
  {
    if j > 0 { LogsClean(s, j - 1, r, log, access); }
  }

  /** The log gives the byte at offset o of an extent. */
  predicate Gives(g: Seg, off: nat, len: nat, access: Access, o: nat)
    requires len > 0 && g.start <= g.end
  {
    var c := Coverage(off, len, g);
    && c.Some? && OutcomeOf(g, off, len, access).Got?
    && var n := OutcomeOf(g, off, len, access).n;
    0 < n <= c.value.length && off + c.value.reqByte <= o < off + c.value.reqByte + n
  }

  /** A byte that no log gives any more is what it was. */
  lemma {:induction false} NotGiven(s: seq<Seg>, m: nat, j: nat, r: Req, log: Log, access: Access, i: nat)
    requires Sorted(s) && m <= j <= |s| && Buffered(r) && i < r.length
    requires forall k :: m <= k < j ==> !Gives(s[k], r.offset, r.length, access, r.offset + i)
    ensures FromLogs(r, s, j, log, access).buf[i] == FromLogs(r, s, m, log, access).buf[i]
  {
    if m < j {
      NotGiven(s, m, j - 1, r, log, access, i);
      CoverageFits(r.offset, r.length, s[j - 1]);
      var x := FromLogs(r, s, j - 1, log, access);
      assert !Gives(s[j - 1], r.offset, r.length, access, r.offset + i);
      PartKeeps(x, s[j - 1], log, access, i);
    }
  }

  lemma PartKeeps(r: Req, g: Seg, log: Log, access: Access, i: nat)
    requires Buffered(r) && g.start <= g.end && i < r.length && !Gives(g, r.offset, r.length, access, r.offset + i)
    ensures Part(r, g, log, access).buf[i] == r.buf[i]
  {
    CoverageFits(r.offset, r.length, g);
    var c := Coverage(r.offset, r.length, g);
    if c.Some? && OutcomeOf(g, r.offset, r.length, access).Got? {
      var n := OutcomeOf(g, r.offset, r.length, access).n;
      if 0 < n <= c.value.length {
        PlacedAt(r.buf, Chunk(c.value.reqByte, Bytes(log, g.client, g.ptr + c.value.extByte, n)));
      }
    }
  }

  lemma GivesHas(g: Seg, off: nat, len: nat, access: Access, o: nat)
    requires len > 0 && g.start <= g.end && Gives(g, off, len, access, o)
    ensures Has(g, o)
  {
    assert Asked(off, len, o) && Has(g, o) by { CoverageFits(off, len, g); }
  }

  /** After the final check, the request is complete and has the bytes of the file. */
  ghost predicate Right(s: seq<Seg>, r: Req, log: Log, access: Access, size: nat)
    requires Sorted(s) && Fresh(r)
  {
    var x := FromLogs(r, s, |s|, log, access);
    && Ended(x, Known(size))
    && var got := Finished(x, Known(size));
    got.code == Success && got.nread == r.length == |got.buf| && Copied(s, log, r.offset, got.buf, r.length)
  }

  /** For all contents of the logs, and of the buffer before. */
  ghost predicate AlwaysRight(s: seq<Seg>, off: nat, len: nat, access: Access, size: nat)
    requires Sorted(s)
  {
    forall r: Req, log: Log :: Fresh(r) && r.offset == off && r.length == len ==> Right(s, r, log, access, size)
  }

  lemma WholeRight(s: seq<Seg>, r: Req, log: Log, access: Access, size: nat)
    requires Sorted(s) && Fresh(r) && AllCovered(s, r.offset, r.offset + r.length)
    requires AllWhole(s, r.offset, r.length, access)
    ensures Right(s, r, log, access, size)
  {
    LogsWhole(s, r, log, access);
  }

  /** A byte that its log does not give: the first one missing. */
  lemma MissingByte(s: seq<Seg>, j: nat, off: nat, len: nat, access: Access) returns (i: nat)
    requires len > 0 && Sorted(s) && j < |s| && Coverage(off, len, s[j]).Some? && Sane(access)
    requires !Whole(s[j], off, len, access)
    ensures i < len && Has(s[j], off + i) && forall m :: 0 <= m < |s| ==> !Gives(s[m], off, len, access, off + i)
  {
    var c, got := Coverage(off, len, s[j]).value, OutcomeOf(s[j], off, len, access);
    CoverageFits(off, len, s[j]);
    i := c.reqByte + if got.Got? then got.n else 0;
    forall m | 0 <= m < |s| ensures !Gives(s[m], off, len, access, off + i) {
      if Gives(s[m], off, len, access, off + i) { GivesHas(s[m], off, len, access, off + i); }
    }
  }

  lemma {:induction false} MissingWrong(s: seq<Seg>, j: nat, r: Req, log: Log, access: Access, size: nat, i: nat)
    requires Sorted(s) && j < |s| && Fresh(r) && NoneFails(s, r.offset, r.length, access) && r.offset + r.length <= size
    requires i < r.length && Has(s[j], r.offset + i) && r.buf[i] == 0
    requires forall m :: 0 <= m < |s| ==> !Gives(s[m], r.offset, r.length, access, r.offset + i)
    requires log(s[j].client, PosIn(s[j], r.offset + i)) != 0
    ensures !Right(s, r, log, access, size)
  {
    var x := FromLogs(r, s, |s|, log, access);
    LogsBounds(s, |s|, r, log, access);
    LogsClean(s, |s|, r, log, access);
    NotGiven(s, 0, |s|, r, log, access, i);
    CleanEnd(x, size);
    LookupAt(s, j, r.offset + i);
    Owners.ClientAt(s, j, r.offset + i);
  }

  lemma NotWholeWrong(s: seq<Seg>, j: nat, off: nat, len: nat, access: Access, size: nat)
    requires len > 0 && Sorted(s) && j < |s| && Coverage(off, len, s[j]).Some? && Sane(access)
    requires !Whole(s[j], off, len, access) && NoneFails(s, off, len, access) && off + len <= size
    ensures !AlwaysRight(s, off, len, access, size)
  {
    var i := MissingByte(s, j, off, len, access);
    var r := Req(off, len, seq(len, i => 0), -1, -1, 0, InProgress);
    var log: Log := (c, p) => 1;
    MissingWrong(s, j, r, log, access, size, i);
    assert !Right(s, r, log, access, size);
  }

  /** A request served here whose log reads report no error is right, whatever the logs and the buffer
      have, if and only if each log gives all that is asked of it: a log that cannot be opened, or gives
      less, goes unnoticed. */
  lemma LocalExactly(s: seq<Seg>, off: nat, len: nat, access: Access, size: nat)
    requires len > 0 && Sorted(s) && AllCovered(s, off, off + len) && off + len <= size
    requires Sane(access) && NoneFails(s, off, len, access)
    ensures AlwaysRight(s, off, len, access, size) <==> AllWhole(s, off, len, access)
  {
    if AllWhole(s, off, len, access) {
      forall r: Req, log: Log | Fresh(r) && r.offset == off && r.length == len
        ensures Right(s, r, log, access, size) {
        WholeRight(s, r, log, access, size);
      }
    } else {
      var j :| 0 <= j < |s| && Coverage(off, len, s[j]).Some? && !Whole(s[j], off, len, access);
      NotWholeWrong(s, j, off, len, access, size);
    }
  }

  // ---------- whatever the logs give ----------

  /** The offsets from a up to b, without b, are those that the request and the extent share. */
  ghost predicate Shared(g: Seg, off: nat, len: nat, a: nat, b: nat) {
    a < b && forall o: nat :: a <= o < b <==> off <= o < off + len && Has(g, o)
  }

  /** What is read of an extent for a request: the shared offsets, in the log of the client of the extent. */
  lemma AskedOfLog(g: Seg, off: nat, len: nat, access: Access, a: nat, b: nat)
    requires len > 0 && g.start <= g.end && Shared(g, off, len, a, b)
    ensures Coverage(off, len, g).Some? && OutcomeOf(g, off, len, access) == access(g.client, PosIn(g, a), b - a)
  {
    assert Has(g, a) && Asked(off, len, a);
    var c := Coverage(off, len, g).value;
    var first, end := off + c.reqByte, off + c.reqByte + c.length;
    assert Asked(off, len, first) && Has(g, first) && Asked(off, len, end - 1) && Has(g, end - 1);
    assert a <= first < b && a <= end - 1 < b;
    assert Has(g, b - 1) && Asked(off, len, b - 1);
    assert first <= a && b - 1 < end;
  }

  /** The log read of extent g fails with this error. */
  ghost predicate FailsWith(g: Seg, off: nat, len: nat, access: Access, error: Code) {
    exists a: nat, b: nat :: Shared(g, off, len, a, b) && access(g.client, PosIn(g, a), b - a) == Failed(error)
  }

  lemma PartFails(r: Req, g: Seg, log: Log, access: Access, error: Code)
    requires Buffered(r) && g.start <= g.end && FailsWith(g, r.offset, r.length, access, error)
    ensures Part(r, g, log, access) == r.(code := error)
  {
    var a: nat, b: nat :|
      Shared(g, r.offset, r.length, a, b) && access(g.client, PosIn(g, a), b - a) == Failed(error);
    AskedOfLog(g, r.offset, r.length, access, a, b);
  }

  lemma PartShared(r: Req, g: Seg) returns (a: nat, b: nat)
    requires Buffered(r) && g.start <= g.end && Coverage(r.offset, r.length, g).Some?
    ensures Shared(g, r.offset, r.length, a, b)
  {
    var c := Coverage(r.offset, r.length, g).value;
    a, b := r.offset + c.reqByte, r.offset + c.reqByte + c.length;
    forall o: nat ensures a <= o < b <==> r.offset <= o < r.offset + r.length && Has(g, o) {
      assert Asked(r.offset, r.length, o) && Has(g, o) <==> a <= o < b;
    }
  }

  lemma PartKeepsCode(r: Req, g: Seg, log: Log, access: Access)
    requires Buffered(r) && g.start <= g.end && forall e :: !FailsWith(g, r.offset, r.length, access, e)
    ensures Part(r, g, log, access).code == r.code
  {
    if Coverage(r.offset, r.length, g).Some? {
      var a, b := PartShared(r, g);
      AskedOfLog(g, r.offset, r.length, access, a, b);
      if OutcomeOf(g, r.offset, r.length, access).Failed? {
        assert FailsWith(g, r.offset, r.length, access, OutcomeOf(g, r.offset, r.length, access).error);
      }
    }
  }

  /** The code of a request is the error of the last log read that fails. */
  lemma {:induction false} LastFailure(s: seq<Seg>, j: nat, m: nat, r: Req, log: Log, access: Access, error: Code)
    requires Sorted(s) && j < m <= |s| && Buffered(r) && FailsWith(s[j], r.offset, r.length, access, error)
    requires forall i, e :: j < i < m ==> !FailsWith(s[i], r.offset, r.length, access, e)
    ensures FromLogs(r, s, m, log, access).code == error
    decreases m
  {
    var r1 := FromLogs(r, s, m - 1, log, access);
    if j == m - 1 {
      PartFails(r1, s[j], log, access, error);
    } else {
      LastFailure(s, j, m - 1, r, log, access, error);
      PartKeepsCode(r1, s[m - 1], log, access);
    }
  }

  /** If the log read of an extent fails, the request has the error of the last one that does, and a
      fatal error is what the caller gets, whatever the size of the file. */
  lemma FailedRead(s: seq<Seg>, j: nat, r: Req, log: Log, access: Access, error: Code, size: Size)
    requires Sorted(s) && j < |s| && Fresh(r) && FailsWith(s[j], r.offset, r.length, access, error)
    requires forall i, e :: j < i < |s| ==> !FailsWith(s[i], r.offset, r.length, access, e)
    ensures var x := FromLogs(r, s, |s|, log, access);
      && x.code == error && Ended(x, size)
      && (Fatal(error) ==> Finished(x, size) == x)
  {
    LastFailure(s, j, |s|, r, log, access, error);
    LogsBounds(s, |s|, r, log, access);
  }

  lemma PartPuts(r: Req, g: Seg, log: Log, access: Access, i: nat)
    requires Buffered(r) && g.start <= g.end && i < r.length && Gives(g, r.offset, r.length, access, r.offset + i)
    ensures Has(g, r.offset + i) && Part(r, g, log, access).buf[i] == log(g.client, PosIn(g, r.offset + i))
  {
    CoverageFits(r.offset, r.length, g);
    GivesHas(g, r.offset, r.length, access, r.offset + i);
    var c, n := Coverage(r.offset, r.length, g).value, OutcomeOf(g, r.offset, r.length, access).n;
    PlacedAt(r.buf, Chunk(c.reqByte, Bytes(log, g.client, g.ptr + c.extByte, n)));
  }

  lemma OneGives(s: seq<Seg>, m: nat, off: nat, len: nat, access: Access, o: nat)
    requires len > 0 && Sorted(s) && m < |s| && Gives(s[m], off, len, access, o)
    ensures forall k :: m < k < |s| ==> !Gives(s[k], off, len, access, o)
  {
    GivesHas(s[m], off, len, access, o);
    forall k | m < k < |s| ensures !Gives(s[k], off, len, access, o) {
      if Gives(s[k], off, len, access, o) { GivesHas(s[k], off, len, access, o); }
    }
  }

  /** A byte that its log gives is that of the extent, whatever the other logs do. */
  lemma {:induction false} GivenByte(s: seq<Seg>, m: nat, r: Req, log: Log, access: Access, i: nat)
    requires Sorted(s) && m < |s| && Buffered(r) && i < r.length
    requires Gives(s[m], r.offset, r.length, access, r.offset + i)
    ensures Has(s[m], r.offset + i)
    ensures FromLogs(r, s, |s|, log, access).buf[i] == log(s[m].client, PosIn(s[m], r.offset + i))
  {
    PartPuts(FromLogs(r, s, m, log, access), s[m], log, access, i);
    OneGives(s, m, r.offset, r.length, access, r.offset + i);
    NotGiven(s, m + 1, |s|, r, log, access, i);
  }

  predicate GivesByte(g: Seg, off: nat, len: nat, access: Access, i: nat)
    requires len > 0 && g.start <= g.end
  {
    Gives(g, off, len, access, off + i)
  }

  /** The bytes of the request that the log of an extent gives. */
  ghost function GivenOf(g: Seg, off: nat, len: nat, access: Access): set<nat>
    requires len > 0 && g.start <= g.end
  {
    set i: nat | i < len && GivesByte(g, off, len, access, i)
  }

  /** The bytes of the request that the logs of the first j extents give. */
  ghost function Given(s: seq<Seg>, j: nat, off: nat, len: nat, access: Access): set<nat>
    requires len > 0 && Sorted(s) && j <= |s|
  {
    if j == 0 then {} else Given(s, j - 1, off, len, access) + GivenOf(s[j - 1], off, len, access)
  }

  /** What counts as read: from the first of the bytes up to the last one. */
  ghost predicate Counted(bytes: set<nat>, r: Req) {
    && r.nread == r.end + 1
    && if bytes == {} then r.begin == -1 && r.end == -1
       else
         && 0 <= r.begin <= r.end && r.begin in bytes && r.end in bytes
         && forall i :: i in bytes ==> r.begin <= i <= r.end
  }

  lemma CountedMore(bytes: set<nat>, r: Req, b: nat, n: nat, more: set<nat>)
    requires Counted(bytes, r) && n > 0 && forall i: nat :: i in more <==> b <= i < b + n
    ensures Counted(bytes + more, Covered(r, b, n))
  {
    assert b in more && b + n - 1 in more;
  }

  lemma PartCounts(bytes: set<nat>, r: Req, g: Seg, log: Log, access: Access)
    requires Buffered(r) && g.start <= g.end && Counted(bytes, r)
    ensures Counted(bytes + GivenOf(g, r.offset, r.length, access), Part(r, g, log, access))
  {
    var off, len, more := r.offset, r.length, GivenOf(g, r.offset, r.length, access);
    CoverageFits(off, len, g);
    if GivesSome(g, off, len, access) {
      var b, n := Coverage(off, len, g).value.reqByte, OutcomeOf(g, off, len, access).n;
      forall i: nat ensures i in more <==> b <= i < b + n {
        assert GivesByte(g, off, len, access, i) <==> b <= i < b + n;
      }
      CountedMore(bytes, r, b, n, more);
    } else {
      assert forall i: nat :: !GivesByte(g, off, len, access, i);
      assert bytes + more == bytes;
    }
  }

  predicate GivesSome(g: Seg, off: nat, len: nat, access: Access)
    requires len > 0 && g.start <= g.end
  {
    var c := Coverage(off, len, g);
    && c.Some? && OutcomeOf(g, off, len, access).Got?
    && 0 < OutcomeOf(g, off, len, access).n <= c.value.length
  }

  /** Whatever the logs do, the request counts as read what they give. */
  lemma {:induction false} LogsCounted(s: seq<Seg>, j: nat, r: Req, log: Log, access: Access)
    requires Sorted(s) && j <= |s| && Fresh(r)
    ensures Counted(Given(s, j, r.offset, r.length, access), FromLogs(r, s, j, log, access))
  {
    if j > 0 {
      LogsCounted(s, j - 1, r, log, access);
      var bytes := Given(s, j - 1, r.offset, r.length, access);
      PartCounts(bytes, FromLogs(r, s, j - 1, log, access), s[j - 1], log, access);
    }
  }
}
