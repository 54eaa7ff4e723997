/** unifyfs_fid.c: the write metadata of one open file, as the client updates it in place. */
module FileSync {
  import opened Common
  import opened Extents
  import opened RedBlack
  import opened SegmentTree
  import opened WriteSync

  /** unifyfs_index_t */
  datatype IndexEntry = IndexEntry(filePos: nat, logPos: nat, length: nat, gfid: int)

  datatype Code = SUCCESS | ENOSPC | EROFS | EISDIR | EINVAL | EIO | RPC_ERROR

  function EntryOf(g: Seg, gfid: int): IndexEntry
    requires g.start <= g.end
  {
    IndexEntry(g.start, g.ptr, g.end - g.start + 1, gfid)
  }

  /** What the server records of entries of the index. */
  function Grabbed(entries: seq<IndexEntry>): seq<Event> {
    seq(|entries|, i requires 0 <= i < |entries| => Wrote(entries[i].filePos, entries[i].logPos, entries[i].length))
  }

  /** The new extent is pending, after a sync if the index could fill up. */
  ghost function Enqueued(cfg: Config, st: State, pos: nat, log: nat, len: nat, ok: bool): State
    requires len > 0
  {
    var st1 := if |st.pending| >= SubSize(cfg.maxEntries, 2) then Sync(st, ok).0 else st;
    st1.(pending := Added(st1.pending, NewSeg(cfg, pos, log, len)), needsSync := true)
  }

  /** The sync of a truncation succeeds if its rpc does, or nothing is left to send. */
  lemma TruncatedCode(cfg: Config, st: State, size: nat, ok: bool)
    requires Inv(cfg, st)
    ensures Sync(TrimmedState(cfg, st, size), ok).1 <==> ok || Trimmed(st.pending, size) == []
  {
    if st.pending == [] { TrimmedEmpty(size); }
  }

  /** fid_truncate_write_meta, for one of the trees. */
  method TrimTree(t: SegTree, size: nat)
    requires t.Valid() && size < LIMIT
    modifies t, t.head
    ensures t.Valid() && t.Extents() == Trimmed(old(t.Extents()), size)
  {
    if size == 0 {
      t.Clear();
    } else {
      t.Remove(size, LIMIT - 1);
    }
  }

  /** What the server has recorded of each file. */
  class Server {
    var records: map<int, seq<Event>>

    constructor ()
      ensures forall g :: Record(g) == []
    {
      records := map[];
    }

    ghost function Record(gfid: int): seq<Event>
      reads this
    {
      if gfid in records then records[gfid] else []
    }

    method Append(gfid: int, evs: seq<Event>)
      modifies this
      ensures Record(gfid) == old(Record(gfid)) + evs
      ensures forall g :: g != gfid ==> Record(g) == old(Record(g))
    {
      records := records[gfid := (if gfid in records then records[gfid] else []) + evs];
    }

    /** rpc_fsync: the extents of the index are those of one file, which the server asserts of the first. */
    method Fsync(gfid: int, index: WriteIndex)
      requires index.Valid() && (index.num > 0 ==> index.entries[0].gfid == gfid)
      modifies this
      ensures Record(gfid) == old(Record(gfid)) + Grabbed(index.entries[..index.num])
      ensures forall g :: g != gfid ==> Record(g) == old(Record(g))
    {
      if index.num == 0 {
        assert Grabbed(index.entries[..index.num]) == [];
        return;
      }
      Append(gfid, Grabbed(index.entries[..index.num]));
    }
  }

  /** The write index, which all files of a client share with the server. */
  class WriteIndex {
    const entries: array<IndexEntry>
    var num: nat

    constructor (size: nat)
      ensures Valid() && entries.Length == size && fresh(entries)
    {
      entries := new IndexEntry[size](_ => IndexEntry(0, 0, 0, 0));
      num := 0;
    }

    ghost predicate Valid()
      reads this
    {
      num <= entries.Length
    }
  }

  class ClientFile {
    const cfg: Config
    const gfid: int
    const pending: SegTree                // extents_sync
    const local: SegTree                  // extents
    const index: WriteIndex
    const server: Server
    var needsSync: bool
    var laminated: bool
    var directory: bool
    var logio: bool                       // storage is FILE_STORAGE_LOGIO

    constructor (cfg: Config, gfid: int, index: WriteIndex, server: Server)
      requires cfg.maxEntries >= 2 && index.Valid() && index.entries.Length == cfg.maxEntries
      requires server.Record(gfid) == []
      ensures Valid() && Abs() == INIT && fresh(Trees() + {this})
      ensures this.cfg == cfg && this.gfid == gfid && this.index == index && this.server == server
      ensures !laminated && !directory && logio
    {
      this.cfg, this.gfid, this.index, this.server := cfg, gfid, index, server;
      pending := new SegTree();
      local := new SegTree();
      needsSync := false;
      laminated, directory, logio := false, false, true;
    }

    ghost function Trees(): set<object> { {pending, pending.head, local, local.head} }

    ghost function Repr(): set<object> { {this, index, server} + Trees() }

    ghost function Abs(): State
      reads Repr()
    {
      State(pending.Extents(), local.Extents(), needsSync, server.Record(gfid))
    }

    ghost predicate Valid()
      reads Repr()
    {
      && pending.Valid() && local.Valid()
      && pending != local && pending.head != local.head
      && index.Valid() && index.entries.Length == cfg.maxEntries >= 2 && Inv(cfg, Abs())
    }

    /** The server has of all other files what it had before. */
    twostate predicate Others()
      reads server
    {
      forall g :: g != gfid ==> server.Record(g) == old(server.Record(g))
    }

    /** The loop of rewrite_index_from_seg_tree. */
    method FillIndex() returns (idx: nat)
      requires Valid()
      modifies index.entries
      ensures idx == |pending.Extents()| <= index.entries.Length
      ensures forall i :: 0 <= i < idx ==> pending.Extents()[i].start <= pending.Extents()[i].end
      ensures forall i :: 0 <= i < idx ==> index.entries[i] == EntryOf(pending.Extents()[i], gfid)
    {
      ghost var s := pending.Extents();
      idx := 0;
      SegsAt(pending.head.Content());
      var node := pending.Iter(NULL, 0);
      while node != NULL
        modifies index.entries
        invariant idx <= |s| <= index.entries.Length && |s| == |pending.head.Content()|
        invariant if idx < |s| then node == pending.head.Content()[idx].at && node != NULL else node == NULL
        invariant forall i :: 0 <= i < idx ==> index.entries[i] == EntryOf(s[i], gfid)
        decreases |s| - idx
      {
        pending.NodeAt(idx);
        var g := pending.head.mem[node].seg;
        index.entries[idx] := IndexEntry(g.start, g.ptr, g.end - g.start + 1, gfid);
        node := pending.Iter(node, idx);
        idx := idx + 1;
      }
    }

    /** rewrite_index_from_seg_tree: flatten the pending extents into the index and forget them. */
    method RewriteIndex()
      requires Valid()
      modifies index, index.entries, pending, pending.head
      ensures pending.Valid() && pending.Extents() == [] && index.num == |old(pending.Extents())| && index.Valid()
      ensures Grabbed(index.entries[..index.num]) == ToEvents(old(pending.Extents()))
      ensures forall i :: 0 <= i < index.num ==> index.entries[i].gfid == gfid
    {
      index.num := 0;
      var idx := FillIndex();
      pending.Clear();
      index.num := idx;
    }

    /** unifyfs_fid_sync_extents */
    method SyncExtents(ok: bool) returns (rc: Code)
      requires Valid()
      modifies this`needsSync, server, index, index.entries, pending, pending.head
      ensures Valid() && Abs() == Sync(old(Abs()), ok).0 && Others()
      ensures rc == if Sync(old(Abs()), ok).1 then SUCCESS else RPC_ERROR
    {
      rc := SUCCESS;
      if needsSync {
        RewriteIndex();
        if index.num == 0 {
          needsSync := false;
          return;
        }
        if ok {
          server.Fsync(gfid, index);
        } else {
          rc := RPC_ERROR;
        }
        needsSync := false;
        index.num := 0;
      }
    }

    /** add_write_meta_to_index: sync first if the write could fill the index. */
    method MakeRoom(ok: bool)
      requires Valid()
      modifies this`needsSync, server, index, index.entries, pending, pending.head
      ensures Valid() && Others()
      ensures Abs() == if |old(Abs()).pending| >= SubSize(cfg.maxEntries, 2) then Sync(old(Abs()), ok).0 else old(Abs())
    {
      SegsAt(pending.head.Content());
      if pending.count >= SubSize(cfg.maxEntries, 2) {
        var _ := SyncExtents(ok);
      }
    }

    /** add_write_meta_to_index: the extent goes to the local cache. */
    method AddLocal(pos: nat, log: nat, len: nat)
      requires Valid() && 0 < len && pos + len < LIMIT
      modifies local, local.head
      ensures Valid()
      ensures
        var st := old(Abs());
        Abs() == if cfg.useLocal then st.(local := Added(st.local, NewSeg(cfg, pos, log, len))) else st
    {
      AddedTree(local.Extents(), NewSeg(cfg, pos, log, len));
      if cfg.useLocal {
        local.Add(pos, pos + len - 1, log, cfg.client);
      }
    }

    /** add_write_meta_to_index, and the flag that unifyfs_fid_write sets after it. */
    method AddWriteMeta(pos: nat, log: nat, len: nat, ok: bool)
      requires Valid() && 0 < len && pos + len < LIMIT
      modifies this`needsSync, server, index, index.entries, pending, pending.head, local, local.head
      ensures Valid() && Others() && Abs() == AddMeta(cfg, old(Abs()), pos, log, len, ok).(needsSync := true)
    {
      MetaInv(cfg, Abs(), pos, log, len, ok);
      AddLocal(pos, log, len);
      Enqueue(pos, log, len, ok);
    }

    /** add_write_meta_to_index, after the local cache. */
    method Enqueue(pos: nat, log: nat, len: nat, ok: bool)
      requires Valid() && 0 < len && pos + len < LIMIT && Inv(cfg, Enqueued(cfg, Abs(), pos, log, len, ok))
      modifies this`needsSync, server, index, index.entries, pending, pending.head
      ensures Valid() && Others() && Abs() == Enqueued(cfg, old(Abs()), pos, log, len, ok)
    {
      MakeRoom(ok);
      AddPending(pos, log, len);
    }

    /** add_write_meta_to_index: the extent goes to those to be sent. */
    method AddPending(pos: nat, log: nat, len: nat)
      requires Valid() && 0 < len && pos + len < LIMIT
      requires Inv(cfg, Abs().(pending := Added(Abs().pending, NewSeg(cfg, pos, log, len)), needsSync := true))
      modifies this`needsSync, pending, pending.head
      ensures Valid()
      ensures Abs() == old(Abs()).(pending := Added(old(Abs()).pending, NewSeg(cfg, pos, log, len)), needsSync := true)
    {
      pending.Add(pos, pos + len - 1, log, cfg.client);
      needsSync := true;
    }

    /** unifyfs_fid_write; alloc is the result of the log allocation, written that of the log write. */
    method Write(pos: nat, count: nat, alloc: Option<nat>, written: Option<nat>, ok: bool, ok': bool)
      returns (rc: Code, nwritten: nat)
      requires Valid() && pos + count < LIMIT
      requires count > 0 && written.Some? ==> 0 < written.value <= count
      modifies this`needsSync, server, index, index.entries, pending, pending.head, local, local.head
      ensures Valid() && Others()
      ensures
        var accepted := count > 0 && !laminated && logio && alloc.Some? && written.Some?;
        && (accepted ==> nwritten == written.value)
        && (accepted ==> Abs() == WriteSync.Write(cfg, old(Abs()), pos, alloc.value, nwritten, ok, ok'))
        && (!accepted ==> nwritten == 0 && Abs() == old(Abs()))
        && (!accepted ==>
              rc == if count == 0 then SUCCESS else if laminated then EROFS else if !logio then EIO
                    else if alloc.None? then ENOSPC else EIO)
        && (accepted && !cfg.useWriteSync ==> rc == SUCCESS)
        && (accepted && cfg.useWriteSync ==>
              rc == if Sync(AddMeta(cfg, old(Abs()), pos, alloc.value, nwritten, ok).(needsSync := true), ok').1
                    then SUCCESS else RPC_ERROR)
    {
      rc, nwritten := SUCCESS, 0;
      if count == 0 {
        return;
      }
      if laminated {
        rc := EROFS;
        return;
      }
      if !logio {
        rc := EIO;
        return;
      }
      if alloc.None? {
        rc := ENOSPC;
        return;
      }
      if written.None? {
        rc := EIO;
        return;
      }
      nwritten := written.value;
      AddWriteMeta(pos, alloc.value, nwritten, ok);
      if cfg.useWriteSync {
        rc := SyncExtents(ok');
      }
    }

    /** fid_truncate_write_meta */
    method TruncateMeta(size: nat)
      requires Valid() && size < LIMIT
      modifies pending, pending.head, local, local.head
      ensures Valid()
      ensures Abs() == TrimmedState(cfg, old(Abs()), size)
    {
      TrimmedTree(pending.Extents(), size);
      TrimmedTree(local.Extents(), size);
      TrimTree(pending, size);
      if cfg.useLocal {
        TrimTree(local, size);
      }
    }

    /** unifyfs_fid_truncate */
    method TruncateFile(size: nat, ok: bool, ok': bool) returns (rc: Code)
      requires Valid() && size < LIMIT
      modifies this`needsSync, server, index, index.entries, pending, pending.head, local, local.head
      ensures Valid() && Others()
      ensures directory || laminated || !logio ==>
        rc == (if directory then EISDIR else if laminated then EINVAL else EIO) && Abs() == old(Abs())
      ensures !directory && !laminated && logio ==>
        && Abs() == Truncate(cfg, old(Abs()), size, ok, ok')
        && rc == if ok' && (ok || Trimmed(old(Abs()).pending, size) == []) then SUCCESS else RPC_ERROR
    {
      if directory {
        return EISDIR;
      }
      if laminated {
        return EINVAL;
      }
      if !logio {
        return EIO;
      }
      ghost var st := Abs();
      TruncateMeta(size);
      rc := SyncTruncated(size, ok, ok');
      TruncatedCode(cfg, st, size, ok);
    }

    /** The rpcs of a truncation. */
    method SyncTruncated(size: nat, ok: bool, ok': bool) returns (rc: Code)
      requires Valid()
      modifies this`needsSync, server, index, index.entries, pending, pending.head
      ensures Valid() && Others() && rc == (if Sync(old(Abs()), ok).1 && ok' then SUCCESS else RPC_ERROR)
      ensures
        var (st, done) := Sync(old(Abs()), ok);
        Abs() == if done && ok' then st.(server := st.server + [Resized(size)]) else st
    {
      rc := SyncExtents(ok);
      if rc == SUCCESS {
        rc := TruncateRpc(size, ok');
      }
    }

    /** invoke_client_truncate_rpc */
    method TruncateRpc(size: nat, ok: bool) returns (rc: Code)
      requires Valid()
      modifies server
      ensures Valid() && Others() && rc == (if ok then SUCCESS else RPC_ERROR)
      ensures Abs() == if ok then old(Abs()).(server := old(Abs()).server + [Resized(size)]) else old(Abs())
    {
      rc := if ok then SUCCESS else RPC_ERROR;
      if ok {
        server.Append(gfid, [Resized(size)]);
      }
    }
  }
}
