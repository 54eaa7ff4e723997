/** unifyfs_fid.c: how writes, truncations and syncs move extents from a client to the server.

    A file has two segment trees: the extents not yet sent to the server (extents_sync), and a
    local copy of all of the client's extents (extents). The state of both and of the server is a
    value here; the operations on it are functions, which the object of FileSync.dfy refines. */
module WriteSync {
  import opened Common
  import opened Extents
  import opened RedBlack
  import opened SegmentTree

  // ---------- reference: the last writer wins ----------

  /** What happened to a file, in order. */
  datatype Event =
    | Wrote(pos: nat, log: nat, len: nat)  // len bytes at file offset pos are at log position log
    | Resized(size: nat)                   // nothing is left at or after offset size

  /** The log position of file offset o after the events. */
  function Last(evs: seq<Event>, o: nat): Option<nat> {
    if evs == [] then None
    else match evs[|evs| - 1]
      case Wrote(pos, log, len) =>
        if pos <= o < pos + len then Some(log + (o - pos)) else Last(evs[..|evs| - 1], o)
      case Resized(size) =>
        if size <= o then None else Last(evs[..|evs| - 1], o)
  }

  lemma LastSnoc(evs: seq<Event>, e: Event, o: nat)
    ensures Last(evs + [e], o) == match e
      case Wrote(pos, log, len) => if pos <= o < pos + len then Some(log + (o - pos)) else Last(evs, o)
      case Resized(size) => if size <= o then None else Last(evs, o)
  {
    assert (evs + [e])[..|evs|] == evs;
  }

  /** The entry of the write index for an extent. */
  function ToEvent(g: Seg): Event {
    Wrote(g.start, g.ptr, if g.start <= g.end then g.end - g.start + 1 else 0)
  }

  function ToEvents(s: seq<Seg>): seq<Event> { seq(|s|, i requires 0 <= i < |s| => ToEvent(s[i])) }

  lemma EventsSnoc(evs: seq<Event>, s: seq<Seg>, g: Seg)
    ensures evs + ToEvents(s + [g]) == (evs + ToEvents(s)) + [ToEvent(g)]
  {
  }

  lemma LookupSnoc(k: seq<Seg>, g: Seg, o: nat)
    requires Sorted(k + [g])
    ensures Lookup(k + [g], o) == if Has(g, o) then Some(PosIn(g, o)) else Lookup(k, o)
  {
    var s := k + [g];
    assert forall i :: 0 <= i < |k| ==> k[i] == s[i] && s[i].end < s[|k|].start;
    LookupConcat(k, [g], o);
    LookupNone(k, o);
  }

  /** Sending extents overlays them on what was there. */
  lemma {:induction false} LastOverlay(evs: seq<Event>, s: seq<Seg>, o: nat)
    requires Sorted(s)
    ensures Last(evs + ToEvents(s), o) == if Lookup(s, o).Some? then Lookup(s, o) else Last(evs, o)
  {
    if s == [] {
      assert evs + ToEvents(s) == evs;
    } else {
      var k, g := s[..|s| - 1], s[|s| - 1];
      assert s == k + [g];
      LastOverlay(evs, k, o);
      EventsSnoc(evs, k, g);
      LookupSnoc(k, g, o);
      SnocOverlay(evs + ToEvents(k), evs + ToEvents(s), g, o);
    }
  }

  lemma SnocOverlay(evs: seq<Event>, evs': seq<Event>, g: Seg, o: nat)
    requires g.start <= g.end && evs' == evs + [ToEvent(g)]
    ensures Last(evs', o) == if Has(g, o) then Some(PosIn(g, o)) else Last(evs, o)
  {
    LastSnoc(evs, ToEvent(g), o);
  }

  // ---------- the state of a file ----------

  datatype Config = Config(client: int, useLocal: bool, useWriteSync: bool, maxEntries: nat)

  datatype State = State(
    pending: seq<Seg>,       // extents_sync
    local: seq<Seg>,         // extents
    needsSync: bool,         // needs_writes_sync
    server: seq<Event>)      // what the server has recorded

  const INIT := State([], [], false, [])

  /** unifyfs_fid_sync_extents; ok tells whether the sync rpc, if issued, succeeds. Also returns success. */
  function Sync(st: State, ok: bool): (State, bool) {
    if !st.needsSync then (st, true)
    else if st.pending == [] then (st.(needsSync := false), true)
    else (State([], st.local, false, if ok then st.server + ToEvents(st.pending) else st.server), ok)
  }

  /** The difference of two size_t values. */
  function SubSize(a: nat, b: nat): int { if b <= a then a - b else a - b + LIMIT }

  function NewSeg(cfg: Config, pos: nat, log: nat, len: nat): Seg
    requires len > 0
  {
    Seg(pos, pos + len - 1, log, cfg.client)
  }

  /** add_write_meta_to_index: record a write of len bytes, syncing first if the index could fill up. */
  function AddMeta(cfg: Config, st: State, pos: nat, log: nat, len: nat, ok: bool): State
    requires len > 0
  {
    var g := NewSeg(cfg, pos, log, len);
    var st1 := if cfg.useLocal then st.(local := Added(st.local, g)) else st;
    var st2 := if |st1.pending| >= SubSize(cfg.maxEntries, 2) then Sync(st1, ok).0 else st1;
    st2.(pending := Added(st2.pending, g))
  }

  /** unifyfs_fid_write of a file that is not laminated, len bytes having gone to the log at position log. */
  function Write(cfg: Config, st: State, pos: nat, log: nat, len: nat, ok: bool, ok': bool): State
    requires len > 0
  {
    var st1 := AddMeta(cfg, st, pos, log, len, ok).(needsSync := true);
    if cfg.useWriteSync then Sync(st1, ok').0 else st1
  }

  function Trimmed(s: seq<Seg>, size: nat): seq<Seg> {
    if size == 0 then [] else Removed(s, size, LIMIT - 1)
  }

  /** fid_truncate_write_meta */
  function TrimmedState(cfg: Config, st: State, size: nat): State {
    st.(pending := Trimmed(st.pending, size), local := if cfg.useLocal then Trimmed(st.local, size) else st.local)
  }

  /** unifyfs_fid_truncate of a regular file; ok and ok' tell whether the sync and truncate rpcs succeed. */
  function Truncate(cfg: Config, st: State, size: nat, ok: bool, ok': bool): State {
    var st1 := TrimmedState(cfg, st, size);
    var (st2, done) := Sync(st1, ok);
    if done && ok' then st2.(server := st2.server + [Resized(size)]) else st2
  }

  // ---------- runs ----------

  datatype Op =
    | DoWrite(pos: nat, log: nat, len: nat, ok: bool, ok': bool)
    | DoSync(ok: bool)
    | DoTruncate(size: nat, ok: bool, ok': bool)

  /** Offsets fit in unsigned long, and a write that succeeds has written something. */
  predicate Possible(op: Op) {
    match op
    case DoWrite(pos, log, len, _, _) => 0 < len && pos + len < LIMIT
    case DoSync(_) => true
    case DoTruncate(size, _, _) => size < LIMIT
  }

  predicate RpcsSucceed(op: Op) {
    match op
    case DoWrite(_, _, _, ok, ok') => ok && ok'
    case DoSync(ok) => ok
    case DoTruncate(_, ok, ok') => ok && ok'
  }

  function Step(cfg: Config, st: State, op: Op): State
    requires Possible(op)
  {
    match op
    case DoWrite(pos, log, len, ok, ok') => Write(cfg, st, pos, log, len, ok, ok')
    case DoSync(ok) => Sync(st, ok).0
    case DoTruncate(size, ok, ok') => Truncate(cfg, st, size, ok, ok')
  }

  function Run(cfg: Config, ops: seq<Op>): State
    requires forall i :: 0 <= i < |ops| ==> Possible(ops[i])
  {
    if ops == [] then INIT else Step(cfg, Run(cfg, ops[..|ops| - 1]), ops[|ops| - 1])
  }

  /** What the application did to the file. */
  function History(ops: seq<Op>): seq<Event> {
    if ops == [] then []
    else
      var h := History(ops[..|ops| - 1]);
      match ops[|ops| - 1]
      case DoWrite(pos, log, len, _, _) => h + [Wrote(pos, log, len)]
      case DoSync(_) => h
      case DoTruncate(size, _, _) => h + [Resized(size)]
  }

  // ---------- what every step keeps, whether rpcs succeed or not ----------

  ghost predicate Tree(s: seq<Seg>) { Canonical(s) && InRange(s) }

  ghost predicate Inv(cfg: Config, st: State) {
    && Tree(st.pending) && Tree(st.local)
    && (st.pending != [] ==> st.needsSync)
    && (cfg.maxEntries >= 2 ==> |st.pending| < cfg.maxEntries)
  }

  lemma AddedTree(s: seq<Seg>, g: Seg)
    requires Tree(s) && g.start <= g.end < LIMIT
    ensures Tree(Added(s, g)) && |Added(s, g)| <= |s| + 2 && (s == [] ==> |Added(s, g)| == 1)
  {
    AddedCanonical(s, g);
    AddedGrowth(s, g);
    assert Within(s, LIMIT - 1);
    AddedEnds(s, g, LIMIT - 1);
  }

  lemma TrimmedTree(s: seq<Seg>, size: nat)
    requires Tree(s) && size < LIMIT
    ensures Tree(Trimmed(s, size)) && |Trimmed(s, size)| <= |s|
  {
    if size > 0 {
      RemovedCanonical(s, size, LIMIT - 1);
      NothingAbove(s);
      BelowSorted(s, size, None);
      assert Removed(s, size, LIMIT - 1) == Below(s, size, None);
    }
  }

  lemma {:induction false} NothingAbove(s: seq<Seg>)
    requires InRange(s)
    ensures Above(s, LIMIT - 1, None) == []
  {
    if s != [] { NothingAbove(s[1..]); }
  }

  lemma MetaInv(cfg: Config, st: State, pos: nat, log: nat, len: nat, ok: bool)
    requires Inv(cfg, st) && 0 < len && pos + len < LIMIT
    ensures Inv(cfg, AddMeta(cfg, st, pos, log, len, ok).(needsSync := true))
  {
    AddedTree(st.local, NewSeg(cfg, pos, log, len));
    AddedTree(st.pending, NewSeg(cfg, pos, log, len));
    AddedTree([], NewSeg(cfg, pos, log, len));
  }

  lemma StepInv(cfg: Config, st: State, op: Op)
    requires Inv(cfg, st) && Possible(op)
    ensures Inv(cfg, Step(cfg, st, op))
  {
    match op
    case DoWrite(pos, log, len, ok, ok') =>
      MetaInv(cfg, st, pos, log, len, ok);
    case DoSync(ok) =>
    case DoTruncate(size, ok, ok') =>
      TrimmedTree(st.pending, size);
      TrimmedTree(st.local, size);
  }

  /** In every run the pending extents fit in the write index, with any rpc failing. */
  lemma {:induction false} RunInv(cfg: Config, ops: seq<Op>)
    requires forall i :: 0 <= i < |ops| ==> Possible(ops[i])
    ensures Inv(cfg, Run(cfg, ops))
  {
    if ops != [] {
      RunInv(cfg, ops[..|ops| - 1]);
      StepInv(cfg, Run(cfg, ops[..|ops| - 1]), ops[|ops| - 1]);
    }
  }

  // ---------- what the state means ----------

  /** The server's view of the file, with the pending extents laid over it. */
  function Seen(st: State, o: nat): Option<nat> {
    if Lookup(st.pending, o).Some? then Lookup(st.pending, o) else Last(st.server, o)
  }

  /** A pending extent is never stale, and the local extents are exactly the history. */
  ghost predicate Truthful(cfg: Config, st: State, h: seq<Event>, o: nat) {
    && (Lookup(st.pending, o).Some? ==> Lookup(st.pending, o) == Last(h, o))
    && (cfg.useLocal ==> Lookup(st.local, o) == Last(h, o))
  }

  lemma TrimmedLookup(s: seq<Seg>, size: nat, o: nat)
    requires Tree(s) && size < LIMIT
    ensures Lookup(Trimmed(s, size), o) == if size <= o then None else Lookup(s, o)
  {
    if size > 0 {
      RemovedLookup(s, size, LIMIT - 1, o);
      LookupNone(s, o);
    }
  }

  lemma SyncSeen(st: State, o: nat)
    requires Sorted(st.pending)
    ensures Seen(Sync(st, true).0, o) == Seen(st, o)
  {
    LastOverlay(st.server, st.pending, o);
  }

  lemma SyncTruthful(cfg: Config, st: State, h: seq<Event>, ok: bool, o: nat)
    requires Truthful(cfg, st, h, o)
    ensures Truthful(cfg, Sync(st, ok).0, h, o)
  {
  }

  lemma MetaTruthful(cfg: Config, st: State, h: seq<Event>, pos: nat, log: nat, len: nat, ok: bool, o: nat)
    requires Inv(cfg, st) && 0 < len && pos + len < LIMIT && Truthful(cfg, st, h, o)
    ensures Truthful(cfg, AddMeta(cfg, st, pos, log, len, ok), h + [Wrote(pos, log, len)], o)
  {
    var g := NewSeg(cfg, pos, log, len);
    AddedLookup(st.local, g, o);
    LastSnoc(h, Wrote(pos, log, len), o);
    var p := if |st.pending| >= SubSize(cfg.maxEntries, 2) then Sync(st, ok).0.pending else st.pending;
    AddedLookup(p, g, o);
    assert AddMeta(cfg, st, pos, log, len, ok).pending == Added(p, g);
  }

  lemma WriteTruthful(cfg: Config, st: State, h: seq<Event>, pos: nat, log: nat, len: nat, ok: bool, ok': bool, o: nat)
    requires Inv(cfg, st) && 0 < len && pos + len < LIMIT && Truthful(cfg, st, h, o)
    ensures Truthful(cfg, Write(cfg, st, pos, log, len, ok, ok'), h + [Wrote(pos, log, len)], o)
  {
    MetaTruthful(cfg, st, h, pos, log, len, ok, o);
    SyncTruthful(cfg, AddMeta(cfg, st, pos, log, len, ok).(needsSync := true), h + [Wrote(pos, log, len)], ok', o);
  }

  lemma TruncateTruthful(cfg: Config, st: State, h: seq<Event>, size: nat, ok: bool, ok': bool, o: nat)
    requires Inv(cfg, st) && size < LIMIT && Truthful(cfg, st, h, o)
    ensures Truthful(cfg, Truncate(cfg, st, size, ok, ok'), h + [Resized(size)], o)
  {
    TrimmedLookup(st.pending, size, o);
    TrimmedLookup(st.local, size, o);
    LastSnoc(h, Resized(size), o);
  }

  lemma StepTruthful(cfg: Config, st: State, h: seq<Event>, op: Op, o: nat)
    requires Inv(cfg, st) && Possible(op) && Truthful(cfg, st, h, o)
    ensures Truthful(cfg, Step(cfg, st, op), h + Done(op), o)
  {
    match op
    case DoWrite(pos, log, len, ok, ok') => WriteTruthful(cfg, st, h, pos, log, len, ok, ok', o);
    case DoSync(ok) => assert h + [] == h;
    case DoTruncate(size, ok, ok') => TruncateTruthful(cfg, st, h, size, ok, ok', o);
  }

  /** What an operation does to the file. */
  function Done(op: Op): seq<Event> {
    match op
    case DoWrite(pos, log, len, _, _) => [Wrote(pos, log, len)]
    case DoSync(_) => []
    case DoTruncate(size, _, _) => [Resized(size)]
  }

  lemma AddSeen(st: State, g: Seg, o: nat)
    requires Tree(st.pending) && g.start <= g.end
    ensures Seen(st.(pending := Added(st.pending, g)), o) == if Has(g, o) then Some(PosIn(g, o)) else Seen(st, o)
  {
    AddedLookup(st.pending, g, o);
  }

  lemma MetaSeen(cfg: Config, st: State, pos: nat, log: nat, len: nat, o: nat)
    requires Inv(cfg, st) && 0 < len && pos + len < LIMIT
    ensures
      var g, st' := NewSeg(cfg, pos, log, len), AddMeta(cfg, st, pos, log, len, true);
      Tree(st'.pending) && Seen(st', o) == if Has(g, o) then Some(PosIn(g, o)) else Seen(st, o)
  {
    var g := NewSeg(cfg, pos, log, len);
    var st1 := if cfg.useLocal then st.(local := Added(st.local, g)) else st;
    var st2 := if |st1.pending| >= SubSize(cfg.maxEntries, 2) then Sync(st1, true).0 else st1;
    SyncSeen(st1, o);
    AddSeen(st2, g, o);
    AddedTree(st2.pending, g);
  }

  lemma WriteSeen(cfg: Config, st: State, h: seq<Event>, pos: nat, log: nat, len: nat, o: nat)
    requires Inv(cfg, st) && 0 < len && pos + len < LIMIT && Seen(st, o) == Last(h, o)
    ensures Seen(Write(cfg, st, pos, log, len, true, true), o) == Last(h + [Wrote(pos, log, len)], o)
  {
    LastSnoc(h, Wrote(pos, log, len), o);
    MetaSeen(cfg, st, pos, log, len, o);
    SyncSeen(AddMeta(cfg, st, pos, log, len, true).(needsSync := true), o);
  }

  lemma TruncateSeen(cfg: Config, st: State, h: seq<Event>, size: nat, o: nat)
    requires Inv(cfg, st) && size < LIMIT && Seen(st, o) == Last(h, o)
    ensures Seen(Truncate(cfg, st, size, true, true), o) == Last(h + [Resized(size)], o)
  {
    TrimmedLookup(st.pending, size, o);
    TrimmedTree(st.pending, size);
    LastSnoc(h, Resized(size), o);
    var st1 := TrimmedState(cfg, st, size);
    var st2 := Sync(st1, true).0;
    SyncSeen(st1, o);
    LastSnoc(st2.server, Resized(size), o);
  }

  lemma StepSeen(cfg: Config, st: State, h: seq<Event>, op: Op, o: nat)
    requires Inv(cfg, st) && Possible(op) && RpcsSucceed(op) && Seen(st, o) == Last(h, o)
    ensures Seen(Step(cfg, st, op), o) == Last(h + Done(op), o)
  {
    match op
    case DoWrite(pos, log, len, ok, ok') =>
      WriteSeen(cfg, st, h, pos, log, len, o);
    case DoSync(ok) =>
      assert h + [] == h;
      SyncSeen(st, o);
    case DoTruncate(size, ok, ok') =>
      TruncateSeen(cfg, st, h, size, o);
  }

  /** With local extents, every run leaves them equal to the history of the file, and every pending
      extent at the log position the local one has, whichever rpcs fail. */
  lemma {:induction false} RunTruthful(cfg: Config, ops: seq<Op>, o: nat)
    requires forall i :: 0 <= i < |ops| ==> Possible(ops[i])
    ensures Truthful(cfg, Run(cfg, ops), History(ops), o)
  {
    if ops != [] {
      var k, op := ops[..|ops| - 1], ops[|ops| - 1];
      RunTruthful(cfg, k, o);
      RunInv(cfg, k);
      StepTruthful(cfg, Run(cfg, k), History(k), op, o);
      assert History(ops) == History(k) + Done(op);
    }
  }

  /** If the rpcs succeed, every run leaves the server, with the pending extents over it, in the
      state the last-writer-wins reading of the history describes: forced syncs lose nothing. */
  lemma {:induction false} RunSeen(cfg: Config, ops: seq<Op>, o: nat)
    requires forall i :: 0 <= i < |ops| ==> Possible(ops[i]) && RpcsSucceed(ops[i])
    ensures Seen(Run(cfg, ops), o) == Last(History(ops), o)
  {
    if ops != [] {
      var k, op := ops[..|ops| - 1], ops[|ops| - 1];
      RunSeen(cfg, k, o);
      RunInv(cfg, k);
      StepSeen(cfg, Run(cfg, k), History(k), op, o);
      assert History(ops) == History(k) + Done(op);
    }
  }

  /** A final sync brings the server itself to that state. */
  lemma SyncedRun(cfg: Config, ops: seq<Op>, o: nat)
    requires forall i :: 0 <= i < |ops| ==> Possible(ops[i]) && RpcsSucceed(ops[i])
    ensures Sync(Run(cfg, ops), true).0.pending == []
    ensures Last(Sync(Run(cfg, ops), true).0.server, o) == Last(History(ops), o)
  {
    RunSeen(cfg, ops, o);
    RunInv(cfg, ops);
    SyncSeen(Run(cfg, ops), o);
  }

  /** With a sync after every write, the server has the whole history all the time, as long as rpcs succeed. */
  lemma SyncedWrites(cfg: Config, ops: seq<Op>, o: nat)
    requires cfg.useWriteSync && forall i :: 0 <= i < |ops| ==> Possible(ops[i]) && RpcsSucceed(ops[i])
    ensures Run(cfg, ops).pending == [] && Last(Run(cfg, ops).server, o) == Last(History(ops), o)
  {
    SyncedWritesLeaveNothing(cfg, ops);
    RunSeen(cfg, ops, o);
  }

  lemma StepNoLocal(cfg: Config, st: State, op: Op)
    requires !cfg.useLocal && Possible(op)
    ensures Step(cfg, st, op).local == st.local
  {
  }

  /** Without the local extents, none are kept. */
  lemma {:induction false} NoLocal(cfg: Config, ops: seq<Op>)
    requires !cfg.useLocal && forall i :: 0 <= i < |ops| ==> Possible(ops[i])
    ensures Run(cfg, ops).local == []
  {
    if ops != [] {
      NoLocal(cfg, ops[..|ops| - 1]);
      StepNoLocal(cfg, Run(cfg, ops[..|ops| - 1]), ops[|ops| - 1]);
    }
  }

  /** Without a sync after every write, the server hears of writes when the index could fill up, at the earliest. */
  lemma {:induction false} NotYetSent(cfg: Config, ops: seq<Op>)
    requires !cfg.useWriteSync && (forall i :: 0 <= i < |ops| ==> Possible(ops[i]) && ops[i].DoWrite?)
    requires 2 * |ops| < cfg.maxEntries
    ensures Run(cfg, ops).server == [] && |Run(cfg, ops).pending| <= 2 * |ops|
  {
    if ops != [] {
      NotYetSent(cfg, ops[..|ops| - 1]);
      RunInv(cfg, ops[..|ops| - 1]);
      var op := ops[|ops| - 1];
      AddedTree(Run(cfg, ops[..|ops| - 1]).pending, NewSeg(cfg, op.pos, op.log, op.len));
    }
  }

  /** A truncation whose sync fails does not reach the server; one whose sync succeeds reaches it after the writes. */
  lemma TruncateOrder(cfg: Config, st: State, size: nat, ok: bool, ok': bool)
    requires Inv(cfg, st)
    ensures
      var st', sent := Truncate(cfg, st, size, ok, ok'), Trimmed(st.pending, size);
      && (!ok && sent != [] ==> st'.server == st.server)
      && (ok || sent == [] ==> st'.server == st.server + ToEvents(sent) + if ok' then [Resized(size)] else [])
  {
    if st.pending == [] { TrimmedEmpty(size); }
  }

  // ---------- a sync that fails ----------

  ghost predicate SeenAlike(st: State, st': State) { forall o: nat :: Seen(st, o) == Seen(st', o) }

  /** Every write has its own place in the log. */
  ghost predicate OwnPlaces(ops: seq<Op>) {
    forall i, j, p :: 0 <= i < |ops| && 0 <= j < |ops| && Holds(ops[i], p) && Holds(ops[j], p) ==> i == j
  }

  /** Position p of the log is one of this write. */
  predicate Holds(op: Op, p: nat) { op.DoWrite? && op.log <= p < op.log + op.len }

  /** Position p of the log is one of the writes from a up to b, without b. */
  ghost predicate From(ops: seq<Op>, a: nat, b: nat, p: nat) { exists i :: a <= i < b && i < |ops| && Holds(ops[i], p) }

  /** The server has only writes before n, and those pending are from n on, without m. */
  ghost predicate SplitAt(ops: seq<Op>, st: State, n: nat, m: nat) {
    && n <= m
    && (forall o: nat :: Last(st.server, o).Some? ==> From(ops, 0, n, Last(st.server, o).value))
    && (forall o: nat :: Lookup(st.pending, o).Some? ==> From(ops, n, m, Lookup(st.pending, o).value))
  }

  lemma SyncSplit(ops: seq<Op>, st: State, n: nat, m: nat, ok: bool)
    requires SplitAt(ops, st, n, m) && Sorted(st.pending) && (st.pending != [] ==> st.needsSync)
    ensures SplitAt(ops, Sync(st, ok).0, m, m)
  {
    var st' := Sync(st, ok).0;
    forall o: nat | Last(st'.server, o).Some? ensures From(ops, 0, m, Last(st'.server, o).value) {
      LastOverlay(st.server, st.pending, o);
    }
  }

  lemma AddSplit(ops: seq<Op>, st: State, n: nat, m: nat, g: Seg)
    requires SplitAt(ops, st, n, m) && Tree(st.pending) && m < |ops| && ops[m].DoWrite?
    requires g.start <= g.end && g.ptr == ops[m].log && g.end - g.start + 1 == ops[m].len
    ensures SplitAt(ops, st.(pending := Added(st.pending, g)), n, m + 1)
  {
    var st' := st.(pending := Added(st.pending, g));
    forall o: nat | Lookup(st'.pending, o).Some? ensures From(ops, n, m + 1, Lookup(st'.pending, o).value) {
      AddedLookup(st.pending, g, o);
      if Has(g, o) { assert Holds(ops[m], PosIn(g, o)); }
    }
  }

  lemma WriteSplit(cfg: Config, ops: seq<Op>, st: State, n: nat, m: nat) returns (n': nat)
    requires Inv(cfg, st) && SplitAt(ops, st, n, m) && m < |ops| && ops[m].DoWrite? && Possible(ops[m])
    ensures SplitAt(ops, Step(cfg, st, ops[m]), n', m + 1)
  {
    var op := ops[m];
    var g := NewSeg(cfg, op.pos, op.log, op.len);
    var st1 := if cfg.useLocal then st.(local := Added(st.local, g)) else st;
    var forced := |st1.pending| >= SubSize(cfg.maxEntries, 2);
    var st2 := if forced then Sync(st1, op.ok).0 else st1;
    n' := if forced then m else n;
    if forced { SyncSplit(ops, st1, n, m, op.ok); }
    AddSplit(ops, st2, n', m, g);
    var st3 := st2.(pending := Added(st2.pending, g), needsSync := true);
    if cfg.useWriteSync {
      AddedTree(st2.pending, g);
      SyncSplit(ops, st3, n', m + 1, op.ok');
      n' := m + 1;
    }
  }

  lemma TruncateSplit(cfg: Config, ops: seq<Op>, st: State, n: nat, m: nat, size: nat, ok: bool, ok': bool)
    requires Inv(cfg, st) && SplitAt(ops, st, n, m) && size < LIMIT
    ensures SplitAt(ops, Truncate(cfg, st, size, ok, ok'), m, m)
  {
    var st1 := TrimmedState(cfg, st, size);
    forall o: nat | Lookup(st1.pending, o).Some? ensures From(ops, n, m, Lookup(st1.pending, o).value) {
      TrimmedLookup(st.pending, size, o);
    }
    TrimmedTree(st.pending, size);
    TrimmedEmpty(size);
    SyncSplit(ops, st1, n, m, ok);
    var st2 := Sync(st1, ok).0;
    forall o: nat | Last(st2.server + [Resized(size)], o).Some?
      ensures From(ops, 0, m, Last(st2.server + [Resized(size)], o).value) {
      LastSnoc(st2.server, Resized(size), o);
    }
  }

  lemma TrimmedEmpty(size: nat)
    ensures Trimmed([], size) == []
  {
  }

  /** In every run, the server has the writes up to some point and those pending came after it. */
  lemma {:induction false} RunSplit(cfg: Config, ops: seq<Op>, m: nat) returns (n: nat)
    requires m <= |ops| && forall i :: 0 <= i < |ops| ==> Possible(ops[i])
    ensures SplitAt(ops, Run(cfg, ops[..m]), n, m)
  {
    if m == 0 {
      return 0;
    }
    assert ops[..m][..m - 1] == ops[..m - 1];
    n := RunSplit(cfg, ops, m - 1);
    var st, op := Run(cfg, ops[..m - 1]), ops[m - 1];
    RunInv(cfg, ops[..m - 1]);
    match op
    case DoWrite(_, _, _, _, _) => n := WriteSplit(cfg, ops, st, n, m - 1);
    case DoSync(ok) =>
      SyncSplit(ops, st, n, m - 1, ok);
      n := m - 1;
    case DoTruncate(size, ok, ok') =>
      TruncateSplit(cfg, ops, st, n, m - 1, size, ok, ok');
      n := m - 1;
  }

  lemma NotOnServer(ops: seq<Op>, st: State, n: nat, o: nat)
    requires SplitAt(ops, st, n, |ops|) && OwnPlaces(ops) && Lookup(st.pending, o).Some?
    ensures Last(st.server, o) != Lookup(st.pending, o)
  {
    var p := Lookup(st.pending, o).value;
    var i :| n <= i < |ops| && Holds(ops[i], p);
  }

  /** A sync whose rpc fails drops the pending extents for good. After any run, with any rpcs failing
      before, the file is still seen as it was if and only if there was nothing to send. */
  lemma FailedSync(cfg: Config, ops: seq<Op>)
    requires OwnPlaces(ops) && forall i :: 0 <= i < |ops| ==> Possible(ops[i])
    ensures SeenAlike(Run(cfg, ops), Sync(Run(cfg, ops), false).0) <==> Run(cfg, ops).pending == []
  {
    var st := Run(cfg, ops);
    RunInv(cfg, ops);
    if st.pending != [] {
      var o := st.pending[0].start;
      var n := RunSplit(cfg, ops, |ops|);
      assert ops[..|ops|] == ops;
      assert Has(st.pending[0], o);
      NotOnServer(ops, st, n, o);
      assert Seen(st, o) != Seen(Sync(st, false).0, o);
    }
  }

  /** One write and one failed sync: the server never hears of it, whatever is synced later. */
  lemma LostWrite(cfg: Config, w: Op)
    requires w.DoWrite? && Possible(w) && !cfg.useWriteSync
    ensures
      var st := Sync(Run(cfg, [w]), false).0;
      && Seen(Run(cfg, [w]), w.pos) == Some(w.log) && Seen(st, w.pos) == None
      && !Sync(Run(cfg, [w]), false).1 && Sync(st, true) == (st, true)
  {
    var g := NewSeg(cfg, w.pos, w.log, w.len);
    assert [w][..0] == [];
    assert Run(cfg, [w]) == Step(cfg, INIT, w);
    assert Added([], g) == [g];
    assert Has(g, w.pos);
  }

  // ---------- a truncation that fails ----------

  ghost predicate SeenAs(st: State, h: seq<Event>) { forall o: nat :: Seen(st, o) == Last(h, o) }

  /** The server has nothing at or after offset size. */
  ghost predicate NothingFrom(server: seq<Event>, size: nat) { forall o: nat :: size <= o ==> Last(server, o).None? }

  /** What is seen after the sync of a truncation, if that succeeds or has nothing to send. */
  lemma TrimmedSeen(cfg: Config, st: State, size: nat, ok: bool, o: nat)
    requires Inv(cfg, st) && size < LIMIT && (ok || Trimmed(st.pending, size) == [])
    ensures Seen(Sync(TrimmedState(cfg, st, size), ok).0, o) == if o < size then Seen(st, o) else Last(st.server, o)
  {
    TrimmedLookup(st.pending, size, o);
    TrimmedTree(st.pending, size);
    if ok { SyncSeen(TrimmedState(cfg, st, size), o); }
  }

  /** The extents of the client are trimmed before the rpcs. If the truncate rpc fails then, the file is
      seen as truncated if and only if the server has nothing to truncate. */
  lemma TruncateSeenAs(cfg: Config, st: State, h: seq<Event>, size: nat, ok: bool, ok': bool)
    requires Inv(cfg, st) && size < LIMIT && SeenAs(st, h) && (ok || Trimmed(st.pending, size) == [])
    ensures SeenAs(Truncate(cfg, st, size, ok, ok'), h + [Resized(size)]) <==> ok' || NothingFrom(st.server, size)
  {
    var st2, st3, h' := Sync(TrimmedState(cfg, st, size), ok).0, Truncate(cfg, st, size, ok, ok'), h + [Resized(size)];
    TrimmedEmpty(size);
    assert Sync(TrimmedState(cfg, st, size), ok).1;
    forall o: nat ensures Seen(st2, o) == (if o < size then Last(h, o) else Last(st.server, o))
      && Last(h', o) == if o < size then Last(h, o) else None
    {
      assert Seen(st, o) == Last(h, o);
      TrimmedSeen(cfg, st, size, ok, o);
      LastSnoc(h, Resized(size), o);
    }
    if ok' {
      forall o: nat ensures Seen(st3, o) == Last(h', o) {
        LastSnoc(st2.server, Resized(size), o);
      }
    } else if SeenAs(st3, h') {
      forall o: nat | size <= o ensures Last(st.server, o).None? {
        assert Seen(st3, o) == Last(h', o);
      }
    }
  }

  /** The same after every run whose rpcs succeeded. */
  lemma TruncateExactly(cfg: Config, ops: seq<Op>, size: nat, ok: bool, ok': bool)
    requires forall i :: 0 <= i < |ops| ==> Possible(ops[i]) && RpcsSucceed(ops[i])
    requires size < LIMIT && (ok || Trimmed(Run(cfg, ops).pending, size) == [])
    ensures SeenAs(Truncate(cfg, Run(cfg, ops), size, ok, ok'), History(ops) + [Resized(size)]) <==>
      ok' || NothingFrom(Run(cfg, ops).server, size)
  {
    RunInv(cfg, ops);
    forall o: nat ensures Seen(Run(cfg, ops), o) == Last(History(ops), o) {
      RunSeen(cfg, ops, o);
    }
    TruncateSeenAs(cfg, Run(cfg, ops), History(ops), size, ok, ok');
  }

  /** A write that is synced, and a truncation to nothing whose rpc fails: the server still has the write,
      and the client has nothing left of it to send. */
  lemma LostTruncation(cfg: Config, w: Op)
    requires w.DoWrite? && Possible(w) && w.ok && w.ok'
    ensures
      var st := Truncate(cfg, Sync(Run(cfg, [w]), true).0, 0, true, false);
      Seen(st, w.pos) == Some(w.log) && st.pending == [] && !st.needsSync
  {
    SyncedRun(cfg, [w], w.pos);
    assert [w][..0] == [];
    assert History([w]) == [Wrote(w.pos, w.log, w.len)];
    LastSnoc([], Wrote(w.pos, w.log, w.len), w.pos);
    assert [] + [Wrote(w.pos, w.log, w.len)] == [Wrote(w.pos, w.log, w.len)];
  }

  /** Two runs that leave the file with the same content map leave the same local extents, however
      the writes were ordered, overlapped or split. */
  lemma SameHistorySameExtents(cfg: Config, ops: seq<Op>, cfg': Config, ops': seq<Op>)
    requires cfg.useLocal && cfg'.useLocal
    requires forall i :: 0 <= i < |ops| ==> Possible(ops[i])
    requires forall i :: 0 <= i < |ops'| ==> Possible(ops'[i])
    requires forall o: nat :: Last(History(ops), o) == Last(History(ops'), o)
    ensures SamePlaces(Run(cfg, ops).local, Run(cfg', ops').local)
  {
    RunInv(cfg, ops);
    RunInv(cfg', ops');
    forall o: nat ensures Lookup(Run(cfg, ops).local, o) == Lookup(Run(cfg', ops').local, o) {
      RunTruthful(cfg, ops, o);
      RunTruthful(cfg', ops', o);
      assert Last(History(ops), o) == Last(History(ops'), o);
    }
    CanonicalUnique(Run(cfg, ops).local, Run(cfg', ops').local);
  }

  // ---------- the write index ----------

  /** At no time in any run are more extents pending than the write index has entries: neither
      between operations nor in the middle of a write. */
  ghost predicate IndexAlwaysFits(cfg: Config) {
    forall ops: seq<Op>, w: Op :: (forall i :: 0 <= i < |ops| ==> Possible(ops[i])) && w.DoWrite? && Possible(w) ==>
      && |Run(cfg, ops).pending| <= cfg.maxEntries
      && |AddMeta(cfg, Run(cfg, ops), w.pos, w.log, w.len, w.ok).pending| <= cfg.maxEntries
  }

  lemma {:induction false} SyncedWritesLeaveNothing(cfg: Config, ops: seq<Op>)
    requires cfg.useWriteSync && forall i :: 0 <= i < |ops| ==> Possible(ops[i])
    ensures Run(cfg, ops).pending == []
  {
    if ops != [] { SyncedWritesLeaveNothing(cfg, ops[..|ops| - 1]); }
  }

  lemma IndexFits(cfg: Config, ops: seq<Op>, w: Op)
    requires cfg.maxEntries >= 2 || (cfg.useWriteSync && cfg.maxEntries == 1)
    requires (forall i :: 0 <= i < |ops| ==> Possible(ops[i])) && w.DoWrite? && Possible(w)
    ensures |Run(cfg, ops).pending| <= cfg.maxEntries
    ensures |AddMeta(cfg, Run(cfg, ops), w.pos, w.log, w.len, w.ok).pending| <= cfg.maxEntries
  {
    RunInv(cfg, ops);
    AddedTree(Run(cfg, ops).pending, NewSeg(cfg, w.pos, w.log, w.len));
    AddedTree([], NewSeg(cfg, w.pos, w.log, w.len));
    if cfg.useWriteSync { SyncedWritesLeaveNothing(cfg, ops); }
  }

  /** With a smaller index, two separate one-byte writes overflow it. */
  lemma SmallIndexOverflows(cfg: Config)
    requires cfg.maxEntries < 2 && !(cfg.useWriteSync && cfg.maxEntries == 1)
    ensures
      var w, w' := DoWrite(0, 0, 1, true, true), DoWrite(2, 5, 1, true, true);
      || |AddMeta(cfg, Run(cfg, []), w.pos, w.log, w.len, w.ok).pending| > cfg.maxEntries
      || |AddMeta(cfg, Run(cfg, [w]), w'.pos, w'.log, w'.len, w'.ok).pending| > cfg.maxEntries
  {
    var w, a, b := DoWrite(0, 0, 1, true, true), Seg(0, 0, 0, cfg.client), Seg(2, 2, 5, cfg.client);
    assert Added([], a) == [a];
    if cfg.maxEntries == 1 {
      assert Run(cfg, [w][..0]) == INIT;
      assert Run(cfg, [w]).pending == [a];
      FitsCuts([a], 1, b, Some(cfg.client));
      assert Added([a], b) == [a, b];
    }
  }

  /** The margin of two entries is safe exactly when maxEntries - 2 does not wrap around, or every
      write is synced at once and there is room for it. */
  lemma IndexFitsExactly(cfg: Config)
    ensures IndexAlwaysFits(cfg) <==> cfg.maxEntries >= 2 || (cfg.useWriteSync && cfg.maxEntries == 1)
  {
    if cfg.maxEntries >= 2 || (cfg.useWriteSync && cfg.maxEntries == 1) {
      forall ops: seq<Op>, w: Op | (forall i :: 0 <= i < |ops| ==> Possible(ops[i])) && w.DoWrite? && Possible(w)
        ensures |Run(cfg, ops).pending| <= cfg.maxEntries
        ensures |AddMeta(cfg, Run(cfg, ops), w.pos, w.log, w.len, w.ok).pending| <= cfg.maxEntries
      {
        IndexFits(cfg, ops, w);
      }
    } else {
      SmallIndexOverflows(cfg);
    }
  }
}
