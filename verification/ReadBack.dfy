/** Reading back one's own writes: after every run of writes, truncations and syncs, whether rpcs
    succeed or not, the extents a client keeps lead to the last byte written at each offset. */
module ReadBack {
  import opened Common
  import opened Extents
  import opened LocalRead
  import opened ReadRequest
  import opened RedBlack
  import opened SegmentTree
  import opened WriteSync
  import FileSync
  import Owners

  /** An operation, and the bytes it writes if it is a write. */
  datatype DataOp = DataOp(op: Op, data: seq<Byte>)

  function Ops(ws: seq<DataOp>): seq<Op> { seq(|ws|, i requires 0 <= i < |ws| => ws[i].op) }

  ghost predicate Proper(ws: seq<DataOp>) {
    forall i :: 0 <= i < |ws| ==> Possible(ws[i].op) && (ws[i].op.DoWrite? ==> |ws[i].data| == ws[i].op.len)
  }

  /** What the application has put at offset o of the file. */
  function ByteAt(ws: seq<DataOp>, o: nat): Option<Byte>
    requires Proper(ws)
  {
    if ws == [] then None
    else
      var k, w := ws[..|ws| - 1], ws[|ws| - 1];
      match w.op
      case DoWrite(pos, _, len, _, _) => if pos <= o < pos + len then Some(w.data[o - pos]) else ByteAt(k, o)
      case DoSync(_) => ByteAt(k, o)
      case DoTruncate(size, _, _) => if size <= o then None else ByteAt(k, o)
  }

  /** Every write has its own place in the client's log, where its bytes stay. */
  ghost predicate Logged(ws: seq<DataOp>, log: Log, client: int)
    requires Proper(ws)
  {
    forall i, n :: 0 <= i < |ws| && ws[i].op.DoWrite? && 0 <= n < ws[i].op.len ==>
      log(client, ws[i].op.log + n) == ws[i].data[n]
  }

  lemma {:induction false} LastByte(ws: seq<DataOp>, log: Log, client: int, o: nat)
    requires Proper(ws) && Logged(ws, log, client)
    ensures ByteAt(ws, o) == match Last(History(Ops(ws)), o)
      case None => None
      case Some(p) => Some(log(client, p))
  {
    if ws != [] {
      var k, w := ws[..|ws| - 1], ws[|ws| - 1];
      assert Ops(ws)[..|ws| - 1] == Ops(k);
      LastByte(k, log, client, o);
      match w.op
      case DoWrite(pos, at, len, _, _) =>
        LastSnoc(History(Ops(k)), Wrote(pos, at, len), o);
        if pos <= o < pos + len { assert log(client, ws[|ws| - 1].op.log + (o - pos)) == w.data[o - pos]; }
      case DoSync(_) =>
      case DoTruncate(size, _, _) => LastSnoc(History(Ops(k)), Resized(size), o);
    }
  }

  ghost predicate AllBy(s: seq<Seg>, client: int) { forall i :: 0 <= i < |s| ==> s[i].client == client }

  lemma {:induction false} BelowBy(s: seq<Seg>, b: nat, client: int)
    requires AllBy(s, client)
    ensures AllBy(Below(s, b, None), client)
  {
    if s != [] && s[0].end < b { BelowBy(s[1..], b, client); }
  }

  lemma {:induction false} AboveBy(s: seq<Seg>, e: nat, client: int)
    requires AllBy(s, client)
    ensures AllBy(Above(s, e, None), client)
  {
    if s != [] && s[0].end <= e { AboveBy(s[1..], e, client); }
  }

  /** The extents a client keeps of its own writes are all in its own log. */
  lemma {:induction false} OwnExtents(cfg: Config, ops: seq<Op>)
    requires forall i :: 0 <= i < |ops| ==> Possible(ops[i])
    ensures AllBy(Run(cfg, ops).local, cfg.client)
  {
    if ops != [] {
      var k, op := ops[..|ops| - 1], ops[|ops| - 1];
      OwnExtents(cfg, k);
      RunInv(cfg, k);
      var st := Run(cfg, k);
      match op
      case DoWrite(pos, at, len, _, _) =>
        if cfg.useLocal { Owners.SingleClient(st.local, NewSeg(cfg, pos, at, len)); }
      case DoSync(_) =>
      case DoTruncate(size, _, _) =>
        BelowBy(st.local, size, cfg.client);
        AboveBy(st.local, LIMIT - 1, cfg.client);
    }
  }

  /** After every run, the extents lead to the last byte written. */
  lemma ReadsBack(cfg: Config, ws: seq<DataOp>, log: Log, o: nat)
    requires Proper(ws) && Logged(ws, log, cfg.client) && cfg.useLocal
    ensures LogByte(Run(cfg, Ops(ws)).local, log, o) == ByteAt(ws, o)
  {
    var s := Run(cfg, Ops(ws)).local;
    RunTruthful(cfg, Ops(ws), o);
    LastByte(ws, log, cfg.client, o);
    OwnExtents(cfg, Ops(ws));
    OwnClient(s, cfg.client, o);
  }

  lemma {:induction false} OwnClient(s: seq<Seg>, client: int, o: nat)
    requires AllBy(s, client)
    ensures Owners.Client(s, o) == if Lookup(s, o).Some? then Some(client) else None
  {
    if s != [] { OwnClient(s[1..], client, o); }
  }

  // ---------- the same, through the file and the request ----------

  lemma {:induction false} BelowWithin(s: seq<Seg>, b: nat, m: nat)
    requires Sorted(s) && Within(s, m)
    ensures Within(Below(s, b, None), m)
  {
    if s != [] && s[0].end < b { BelowWithin(s[1..], b, m); }
  }

  /** No write reaches the last offset of unsigned long. */
  lemma {:induction false} RunEnds(cfg: Config, ops: seq<Op>)
    requires forall i :: 0 <= i < |ops| ==> Possible(ops[i])
    ensures Within(Run(cfg, ops).local, LIMIT - 2)
  {
    if ops != [] {
      var k, op := ops[..|ops| - 1], ops[|ops| - 1];
      RunEnds(cfg, k);
      RunInv(cfg, k);
      StepEnds(cfg, Run(cfg, k), op);
    }
  }

  lemma StepEnds(cfg: Config, st: State, op: Op)
    requires Inv(cfg, st) && Possible(op) && Within(st.local, LIMIT - 2)
    ensures Within(Step(cfg, st, op).local, LIMIT - 2)
  {
    match op
    case DoWrite(pos, log, len, ok, ok') =>
      WriteLocal(cfg, st, pos, log, len, ok, ok');
      AddedEnds(st.local, NewSeg(cfg, pos, log, len), LIMIT - 2);
    case DoSync(_) =>
    case DoTruncate(size, _, _) => TrimmedEnds(st.local, size);
  }

  lemma WriteLocal(cfg: Config, st: State, pos: nat, log: nat, len: nat, ok: bool, ok': bool)
    requires len > 0
    ensures Write(cfg, st, pos, log, len, ok, ok').local ==
      if cfg.useLocal then Added(st.local, NewSeg(cfg, pos, log, len)) else st.local
  {
  }

  lemma TrimmedEnds(s: seq<Seg>, size: nat)
    requires WriteSync.Tree(s) && Within(s, LIMIT - 2)
    ensures Within(Trimmed(s, size), LIMIT - 2)
  {
    if size > 0 {
      NothingAbove(s);
      BelowWithin(s, size, LIMIT - 2);
    }
  }

  /** An operation on the file of a client. */
  method Apply(f: FileSync.ClientFile, op: Op)
    requires f.Valid() && Possible(op) && !f.laminated && !f.directory && f.logio
    modifies f`needsSync, f.server, f.index, f.index.entries, f.pending, f.pending.head, f.local, f.local.head
    ensures f.Valid() && f.Others() && f.Abs() == Step(f.cfg, old(f.Abs()), op)
  {
    match op
    case DoWrite(pos, log, len, ok, ok') =>
      var rc, n := f.Write(pos, len, Some(log), Some(len), ok, ok');
    case DoSync(ok) =>
      var rc := f.SyncExtents(ok);
    case DoTruncate(size, ok, ok') =>
      var rc := f.TruncateFile(size, ok, ok');
  }

  /** Operations on a new file. */
  method ApplyAll(f: FileSync.ClientFile, ops: seq<Op>)
    requires f.Valid() && f.Abs() == INIT && !f.laminated && !f.directory && f.logio
    requires forall i :: 0 <= i < |ops| ==> Possible(ops[i])
    modifies f`needsSync, f.server, f.index, f.index.entries, f.pending, f.pending.head, f.local, f.local.head
    ensures f.Valid() && f.Abs() == Run(f.cfg, ops)
  {
    for i := 0 to |ops|
      modifies f`needsSync, f.server, f.index, f.index.entries, f.pending, f.pending.head, f.local, f.local.head
      invariant f.Valid() && f.Abs() == Run(f.cfg, ops[..i])
    {
      assert ops[..i + 1][..i] == ops[..i];
      Apply(f, ops[i]);
    }
    assert ops[..|ops|] == ops;
  }

  method NewFile(cfg: Config, gfid: int) returns (f: FileSync.ClientFile)
    requires cfg.maxEntries >= 2
    ensures fresh(f.Repr()) && fresh(f.index.entries) && f.cfg == cfg && f.Valid() && f.Abs() == INIT
    ensures !f.laminated && !f.directory && f.logio
  {
    var index := new FileSync.WriteIndex(cfg.maxEntries);
    var server := new FileSync.Server();
    f := new FileSync.ClientFile(cfg, gfid, index, server);
  }

  method Play(cfg: Config, gfid: int, ops: seq<Op>) returns (f: FileSync.ClientFile)
    requires cfg.maxEntries >= 2 && forall i :: 0 <= i < |ops| ==> Possible(ops[i])
    ensures fresh(f.Repr()) && f.cfg == cfg && f.Valid() && f.Abs() == Run(cfg, ops)
  {
    f := NewFile(cfg, gfid);
    ApplyAll(f, ops);
  }

  /** Every byte from off on was written, and not truncated since. */
  ghost predicate Written(ws: seq<DataOp>, off: nat, len: nat)
    requires Proper(ws)
  {
    forall o: nat :: off <= o < off + len ==> ByteAt(ws, o).Some?
  }

  lemma CoveredWritten(cfg: Config, ws: seq<DataOp>, log: Log, off: nat, len: nat)
    requires Proper(ws) && Logged(ws, log, cfg.client) && cfg.useLocal
    ensures AllCovered(Run(cfg, Ops(ws)).local, off, off + len) <==> Written(ws, off, len)
  {
    var s := Run(cfg, Ops(ws)).local;
    forall o: nat ensures Lookup(s, o).Some? <==> ByteAt(ws, o).Some? {
      RunTruthful(cfg, Ops(ws), o);
      LastByte(ws, log, cfg.client, o);
    }
  }

  /** The logs can be read. */
  ghost predicate Readable(access: Access) { forall c, p, n :: access(c, p, n) == Got(n) }

  /** The request has the last bytes written. */
  ghost predicate HasLast(ws: seq<DataOp>, r: Req)
    requires Proper(ws)
  {
    r.nread == r.length <= |r.buf| && forall i :: 0 <= i < r.length ==> Some(r.buf[i]) == ByteAt(ws, r.offset + i)
  }

  /** The extents lead to the last bytes written. */
  ghost predicate LeadBack(s: seq<Seg>, log: Log, ws: seq<DataOp>)
    requires Proper(ws)
  {
    forall o: nat :: LogByte(s, log, o) == ByteAt(ws, o)
  }

  lemma RunLeadsBack(cfg: Config, ws: seq<DataOp>, log: Log)
    requires Proper(ws) && Logged(ws, log, cfg.client) && cfg.useLocal
    ensures LeadBack(Run(cfg, Ops(ws)).local, log, ws)
  {
    forall o: nat ensures LogByte(Run(cfg, Ops(ws)).local, log, o) == ByteAt(ws, o) {
      ReadsBack(cfg, ws, log, o);
    }
  }

  lemma ServedLast(s: seq<Seg>, ws: seq<DataOp>, log: Log, access: Access, r: Req)
    requires Proper(ws) && LeadBack(s, log, ws) && Readable(access)
    requires Sorted(s) && Fresh(r) && AllCovered(s, r.offset, r.offset + r.length)
    ensures HasLast(ws, FromLogs(r, s, |s|, log, access))
  {
    var x := FromLogs(r, s, |s|, log, access);
    LogsWhole(s, r, log, access);
    forall i | 0 <= i < r.length ensures Some(x.buf[i]) == ByteAt(ws, r.offset + i) {
      assert Some(x.buf[i]) == LogByte(s, log, r.offset + i);
    }
  }

  /** A read of a file after any operations on it, with any rpcs failing: the client serves it if and
      only if every byte asked for was written and not truncated, and then gives the last bytes written. */
  method ReadYourWrites(f: FileSync.ClientFile, ghost ws: seq<DataOp>, req: ReadReq, log: Log, access: Access)
    returns (local: bool)
    requires f.Valid() && f.cfg.useLocal && Proper(ws) && f.Abs() == Run(f.cfg, Ops(ws))
    requires Logged(ws, log, f.cfg.client) && Sane(access) && Unread(req) && req.offset + req.length < LIMIT
    modifies req`begin, req`end, req`nread, req`errcode, req.buf
    ensures local <==> Written(ws, req.offset, req.length)
    ensures local && Readable(access) ==> HasLast(ws, req.Abs())
    ensures !local ==> req.Abs() == old(req.Abs())
  {
    ghost var s, r := f.Abs().local, req.Abs();
    RunEnds(f.cfg, Ops(ws));
    RunLeadsBack(f.cfg, ws, log);
    CoveredWritten(f.cfg, ws, log, req.offset, req.length);
    local := ServeFile(f, req, log, access);
    if local && Readable(access) { ServedLast(s, ws, log, access, r); }
  }

  method ServeFile(f: FileSync.ClientFile, req: ReadReq, log: Log, access: Access) returns (local: bool)
    requires f.Valid() && Within(f.Abs().local, LIMIT - 2)
    requires Sane(access) && Unread(req) && req.offset + req.length < LIMIT
    modifies req`begin, req`end, req`nread, req`errcode, req.buf
    ensures Sorted(old(f.Abs()).local) && Fresh(old(req.Abs()))
    ensures local <==> AllCovered(old(f.Abs()).local, req.offset, req.offset + req.length)
    ensures
      var s, r := old(f.Abs()).local, old(req.Abs());
      req.Abs() == if local then FromLogs(r, s, |s|, log, access) else r
  {
    local := Serve(f.local, req, log, access);
  }

  /** From a new file on. */
  method WriteThenRead(cfg: Config, gfid: int, ws: seq<DataOp>, req: ReadReq, log: Log, access: Access)
    returns (local: bool)
    requires cfg.maxEntries >= 2 && cfg.useLocal && Proper(ws) && Logged(ws, log, cfg.client)
    requires Sane(access) && Unread(req) && req.offset + req.length < LIMIT
    modifies req`begin, req`end, req`nread, req`errcode, req.buf
    ensures local <==> Written(ws, req.offset, req.length)
    ensures local && Readable(access) ==> HasLast(ws, req.Abs())
  {
    var f := Play(cfg, gfid, Ops(ws));
    local := ReadYourWrites(f, ws, req, log, access);
  }
}
