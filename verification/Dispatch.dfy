/** process_gfid_reads: a list of read requests is split between the client and the server, those of
    the server are sorted, sent and waited for, and all are checked against the file size. */
module Dispatch {
  import opened Common
  import opened Extents
  import opened LocalRead
  import opened ReadRequest
  import opened RedBlack
  import opened SegmentTree
  import Interleave
  import Mread

  const MAX_READ_COUNT := 1000

  /** compare_read_req: by file, then by offset. */
  predicate Before(a: ReadReq, b: ReadReq) { a.gfid < b.gfid || (a.gfid == b.gfid && a.offset <= b.offset) }

  ghost predicate Ordered(s: seq<ReadReq>) {
    forall i, j :: 0 <= i < j < |s| ==>
      s[i].gfid <= s[j].gfid && (s[i].gfid == s[j].gfid ==> s[i].offset <= s[j].offset)
  }

  /** Sorts the requests for the server. */
  method Sort(s: seq<ReadReq>) returns (r: seq<ReadReq>)
    ensures Ordered(r) && multiset(r) == multiset(s)
  {
    r := [];
    for i := 0 to |s|
      invariant Ordered(r) && multiset(r) == multiset(s[..i])
    {
      var k := |r|;
      while k > 0 && !Before(r[k - 1], s[i])
        invariant 0 <= k <= |r| && forall j :: k <= j < |r| ==> !Before(r[j], s[i])
      {
        k := k - 1;
      }
      InsertAt(r, k, s[i]);
      r := r[..k] + [s[i]] + r[k..];
      assert s[..i + 1] == s[..i] + [s[i]];
    }
    assert s[..|s|] == s;
  }

  lemma InsertAt(r: seq<ReadReq>, k: nat, x: ReadReq)
    requires Ordered(r) && k <= |r| && (k > 0 ==> Before(r[k - 1], x)) && forall j :: k <= j < |r| ==> !Before(r[j], x)
    ensures var t := r[..k] + [x] + r[k..]; Ordered(t) && multiset(t) == multiset(r) + multiset{x}
  {
    var t := r[..k] + [x] + r[k..];
    InsertSame(r, k, x);
    InsertOrdered(r, k, x, t);
  }

  lemma InsertSame(r: seq<ReadReq>, k: nat, x: ReadReq)
    requires k <= |r|
    ensures multiset(r[..k] + [x] + r[k..]) == multiset(r) + multiset{x}
  {
    assert r == r[..k] + r[k..];
  }

  lemma InsertOrdered(r: seq<ReadReq>, k: nat, x: ReadReq, t: seq<ReadReq>)
    requires Ordered(r) && k <= |r| && (k > 0 ==> Before(r[k - 1], x)) && forall j :: k <= j < |r| ==> !Before(r[j], x)
    requires t == r[..k] + [x] + r[k..]
    ensures Ordered(t)
  {
    forall i, j | 0 <= i < j < |t| ensures Before(t[i], t[j]) {
      var a, b := t[i], t[j];
      if j == k {
        assert a == r[i] && b == x;
        if i < k - 1 { assert Before(r[i], r[k - 1]); }
      } else if i == k {
        assert a == x && b == r[j - 1] && !Before(r[j - 1], x);
      } else {
        assert a == (if i < k then r[i] else r[i - 1]) && b == (if j < k then r[j] else r[j - 1]);
      }
    }
  }

  lemma SameElements(a: seq<ReadReq>, b: seq<ReadReq>)
    requires multiset(a) == multiset(b)
    ensures forall i :: 0 <= i < |a| ==> a[i] in b
  {
    forall i | 0 <= i < |a| ensures a[i] in b {
      assert a[i] in multiset(a);
    }
  }

  // ---------- requests and their values ----------

  /** No two requests are the same or have the same buffer. */
  ghost predicate Apart(reqs: seq<ReadReq>) {
    forall i, j :: 0 <= i < j < |reqs| ==> reqs[i] != reqs[j] && reqs[i].buf != reqs[j].buf
  }

  type Values = map<ReadReq, Req>

  /** The requests have these values. */
  ghost predicate Are(reqs: seq<ReadReq>, vs: Values)
    reads reqs, Bufs(reqs)
  {
    forall i :: 0 <= i < |reqs| ==> reqs[i] in vs && reqs[i].Abs() == vs[reqs[i]]
  }

  /** A request that is new, and ends before the last offset. */
  ghost predicate New(r: ReadReq, v: Req) {
    Fresh(v) && v.offset == r.offset && v.length == r.length && r.offset + r.length < LIMIT
  }

  ghost predicate AllNew(reqs: seq<ReadReq>, vs: Values) {
    forall i :: 0 <= i < |reqs| ==> reqs[i] in vs && New(reqs[i], vs[reqs[i]])
  }

  // ---------- the requests the client can serve ----------

  /** The extents a client has, by file. There are none where it does not use local extents. */
  type Files = map<int, SegTree>

  /** known are the extents of the files. */
  ghost predicate Knows(files: Files, known: map<int, seq<Seg>>)
    reads files.Values, set f | f in files :: files[f].head
  {
    && known.Keys == files.Keys
    && forall f :: f in files ==>
         && files[f].Sound() && files[f].Extents() == known[f] && Sorted(known[f])
         && forall i :: 0 <= i < |known[f]| ==> known[f][i].end + 1 < LIMIT
  }

  /** The client can serve this request: it knows the file, and every byte has an extent. */
  ghost predicate Local(known: map<int, seq<Seg>>, r: ReadReq) {
    r.gfid in known && AllCovered(known[r.gfid], r.offset, r.offset + r.length)
  }

  ghost function Kept(s: seq<ReadReq>, known: map<int, seq<Seg>>): seq<ReadReq> {
    if s == [] then []
    else if Local(known, s[|s| - 1]) then Kept(s[..|s| - 1], known) + [s[|s| - 1]]
    else Kept(s[..|s| - 1], known)
  }

  ghost function Passed(s: seq<ReadReq>, known: map<int, seq<Seg>>): seq<ReadReq> {
    if s == [] then []
    else if Local(known, s[|s| - 1]) then Passed(s[..|s| - 1], known)
    else Passed(s[..|s| - 1], known) + [s[|s| - 1]]
  }

  lemma {:induction false} KeptPassed(s: seq<ReadReq>, known: map<int, seq<Seg>>)
    ensures multiset(Kept(s, known)) + multiset(Passed(s, known)) == multiset(s)
    ensures forall r :: r in Kept(s, known) ==> Local(known, r)
    ensures forall r :: r in Passed(s, known) ==> !Local(known, r)
  {
    if s != [] {
      var k, r := s[..|s| - 1], s[|s| - 1];
      KeptPassed(k, known);
      assert multiset(s) == multiset(k) + multiset{r} by { assert s == k + [r]; }
    }
  }

  lemma SplitNext(s: seq<ReadReq>, i: nat, known: map<int, seq<Seg>>)
    requires i < |s|
    ensures Kept(s[..i + 1], known) == if Local(known, s[i]) then Kept(s[..i], known) + [s[i]] else Kept(s[..i], known)
    ensures Passed(s[..i + 1], known) ==
      if Local(known, s[i]) then Passed(s[..i], known) else Passed(s[..i], known) + [s[i]]
  {
    assert s[..i + 1][..i] == s[..i];
  }

  lemma {:induction false} PrefixStays(s: seq<ReadReq>, known: map<int, seq<Seg>>, i: nat, j: nat)
    requires i <= j <= |s|
    ensures Kept(s[..i], known) <= Kept(s[..j], known) && Passed(s[..i], known) <= Passed(s[..j], known)
    decreases j
  {
    if i < j {
      PrefixStays(s, known, i, j - 1);
      SplitNext(s, j - 1, known);
    }
  }

  /** Requests of a kind are in their old order: before the i-th one come those that came before it. */
  lemma InOrder(s: seq<ReadReq>, known: map<int, seq<Seg>>, i: nat)
    requires i < |s|
    ensures Local(known, s[i]) ==> Kept(s[..i], known) + [s[i]] <= Kept(s, known)
    ensures !Local(known, s[i]) ==> Passed(s[..i], known) + [s[i]] <= Passed(s, known)
  {
    SplitNext(s, i, known);
    PrefixStays(s, known, i + 1, |s|);
    assert s[..|s|] == s;
  }

  /** No extent has the byte of a request at offset o. */
  ghost predicate Lacks(s: seq<Seg>, r: ReadReq, o: nat) {
    r.offset <= o < r.offset + r.length && forall i :: 0 <= i < |s| ==> !Has(s[i], o)
  }

  lemma HasAll(known: map<int, seq<Seg>>, r: ReadReq)
    ensures Local(known, r) <==> r.gfid in known && forall o: nat :: !Lacks(known[r.gfid], r, o)
  {
    if r.gfid in known {
      var s := known[r.gfid];
      if Local(known, r) {
        forall o: nat ensures !Lacks(s, r, o) {
          LookupNone(s, o);
          assert r.offset <= o < r.offset + r.length ==> Lookup(s, o).Some?;
        }
      } else {
        var o: nat :| r.offset <= o < r.offset + r.length && Lookup(s, o).None?;
        LookupNone(s, o);
        assert Lacks(s, r, o);
      }
    }
  }

  /** A request is passed on to the server if and only if the client does not know its file, or has no extent for
      some byte of it. */
  lemma PassedExactly(s: seq<ReadReq>, known: map<int, seq<Seg>>, r: ReadReq)
    requires r in s
    ensures r in Passed(s, known) <==> r.gfid !in known || exists o: nat :: Lacks(known[r.gfid], r, o)
    ensures r in Passed(s, known) <==> r !in Kept(s, known)
  {
    KeptPassed(s, known);
    HasAll(known, r);
    assert r in multiset(s);
    assert r in Kept(s, known) || r in Passed(s, known);
  }

  /** What service_local_reqs makes of request r, which was v. */
  ghost function Tried(known: map<int, seq<Seg>>, r: ReadReq, v: Req, log: Log, access: Access): Req
    requires Buffered(v) && (r.gfid in known ==> Sorted(known[r.gfid]))
  {
    if Local(known, r) then FromLogs(v, known[r.gfid], |known[r.gfid]|, log, access) else v
  }

  /** service_local_reqs, for one request. */
  method TryLocal(files: Files, ghost known: map<int, seq<Seg>>, r: ReadReq, log: Log, access: Access)
    returns (local: bool)
    requires Knows(files, known) && Sane(access) && Unread(r) && r.offset + r.length < LIMIT
    modifies r`begin, r`end, r`nread, r`errcode, r.buf
    ensures Knows(files, known) && (local <==> Local(known, r)) && Buffered(old(r.Abs()))
    ensures r.Abs() == Tried(known, r, old(r.Abs()), log, access)
  {
    if r.gfid !in files {
      return false;
    }
    local := Serve(files[r.gfid], r, log, access);
  }

  /** service_local_reqs, for the i-th request; the others stay as they are. */
  method TryAt(files: Files, ghost known: map<int, seq<Seg>>, reqs: seq<ReadReq>, i: nat, ghost now: Values,
               log: Log, access: Access)
    returns (local: bool, ghost next: Values)
    requires Knows(files, known) && Sane(access) && Apart(reqs) && i < |reqs| && Are(reqs, now)
    requires New(reqs[i], now[reqs[i]])
    modifies reqs`begin, reqs`end, reqs`nread, reqs`errcode, Bufs(reqs)
    ensures Knows(files, known) && (local <==> Local(known, reqs[i]))
    ensures Are(reqs, next) && next == now[reqs[i] := Tried(known, reqs[i], now[reqs[i]], log, access)]
  {
    local := TryLocal(files, known, reqs[i], log, access);
    next := now[reqs[i] := Tried(known, reqs[i], now[reqs[i]], log, access)];
  }

  /** What becomes of the first n requests; the others are as they were. */
  ghost predicate AllTried(known: map<int, seq<Seg>>, reqs: seq<ReadReq>, n: nat, now: Values, was: Values,
                           log: Log, access: Access)
    requires AllNew(reqs, was) && forall f :: f in known ==> Sorted(known[f])
  {
    forall i :: 0 <= i < |reqs| ==>
      reqs[i] in now && now[reqs[i]] == TriedIf(i < n, known, reqs[i], was[reqs[i]], log, access)
  }

  ghost function TriedIf(b: bool, known: map<int, seq<Seg>>, r: ReadReq, v: Req, log: Log, access: Access): Req
    requires Buffered(v) && (r.gfid in known ==> Sorted(known[r.gfid]))
  {
    if b then Tried(known, r, v, log, access) else v
  }

  lemma TriedMore(known: map<int, seq<Seg>>, reqs: seq<ReadReq>, n: nat, now: Values, was: Values,
                  log: Log, access: Access, next: Values)
    requires AllNew(reqs, was) && (forall f :: f in known ==> Sorted(known[f])) && Apart(reqs) && n < |reqs|
    requires AllTried(known, reqs, n, now, was, log, access)
    requires next == now[reqs[n] := TriedIf(true, known, reqs[n], was[reqs[n]], log, access)]
    ensures AllTried(known, reqs, n + 1, next, was, log, access)
  {
  }

  /** The loop of service_local_reqs over the requests. */
  method Split(files: Files, ghost known: map<int, seq<Seg>>, reqs: seq<ReadReq>, ghost was: Values,
               log: Log, access: Access)
    returns (mine: seq<ReadReq>, rest: seq<ReadReq>, ghost now: Values)
    requires Knows(files, known) && Sane(access) && Apart(reqs) && Are(reqs, was) && AllNew(reqs, was)
    modifies reqs`begin, reqs`end, reqs`nread, reqs`errcode, Bufs(reqs)
    ensures mine == Kept(reqs, known) && rest == Passed(reqs, known)
    ensures Are(reqs, now) && AllTried(known, reqs, |reqs|, now, was, log, access)
  {
    mine, rest, now := [], [], was;
    for i := 0 to |reqs|
      modifies reqs`begin, reqs`end, reqs`nread, reqs`errcode, Bufs(reqs)
      invariant Knows(files, known) && mine == Kept(reqs[..i], known) && rest == Passed(reqs[..i], known)
      invariant Are(reqs, now) && AllTried(known, reqs, i, now, was, log, access)
    {
      SplitNext(reqs, i, known);
      var local;
      ghost var next;
      local, next := TryAt(files, known, reqs, i, now, log, access);
      TriedMore(known, reqs, i, now, was, log, access, next);
      now := next;
      if local { mine := mine + [reqs[i]]; } else { rest := rest + [reqs[i]]; }
    }
    assert reqs[..|reqs|] == reqs;
  }

  lemma Joined(reqs: seq<ReadReq>, known: map<int, seq<Seg>>, mine: seq<ReadReq>, rest: seq<ReadReq>,
               sorted: seq<ReadReq>, out: seq<ReadReq>)
    requires mine == Kept(reqs, known) && rest == Passed(reqs, known)
    requires Ordered(sorted) && multiset(sorted) == multiset(rest) && out == mine + sorted
    ensures multiset(out) == multiset(reqs) && out[..|mine|] == mine && out[|mine|..] == sorted
    ensures forall i :: 0 <= i < |out| ==> (i < |mine| <==> Local(known, out[i]))
  {
    KeptPassed(reqs, known);
    SameElements(sorted, rest);
    assert out[..|mine|] == mine && out[|mine|..] == sorted;
    forall i | 0 <= i < |out| ensures i < |mine| <==> Local(known, out[i]) {
      if i < |mine| { assert out[i] in mine; } else { assert out[i] == sorted[i - |mine|]; }
    }
  }

  lemma {:induction false} CountOnce(s: seq<ReadReq>, x: ReadReq)
    requires Apart(s)
    ensures multiset(s)[x] <= 1
  {
    if s != [] {
      var k, y := s[..|s| - 1], s[|s| - 1];
      CountOnce(k, x);
      assert multiset(s) == multiset(k) + multiset{y} by { assert s == k + [y]; }
    }
  }

  lemma CountTwice(s: seq<ReadReq>, i: nat, j: nat)
    requires i < j < |s| && s[i] == s[j]
    ensures multiset(s)[s[i]] >= 2
  {
    assert s == s[..j] + s[j..] && s[..j][i] == s[i] && s[j..][0] == s[i];
    assert s[i] in multiset(s[..j]) && s[i] in multiset(s[j..]);
    assert multiset(s) == multiset(s[..j]) + multiset(s[j..]);
  }

  /** A permutation of requests that are apart. */
  lemma ApartStill(reqs: seq<ReadReq>, out: seq<ReadReq>)
    requires Apart(reqs) && multiset(out) == multiset(reqs)
    ensures Apart(out)
  {
    SameElements(out, reqs);
    forall i, j | 0 <= i < j < |out| ensures out[i] != out[j] && out[i].buf != out[j].buf {
      if out[i] == out[j] {
        CountTwice(out, i, j);
        CountOnce(reqs, out[i]);
      }
      var a :| 0 <= a < |reqs| && reqs[a] == out[i];
      var b :| 0 <= b < |reqs| && reqs[b] == out[j];
    }
  }

  lemma AreStill(reqs: seq<ReadReq>, vs: Values, out: seq<ReadReq>)
    requires Are(reqs, vs) && multiset(out) == multiset(reqs)
    ensures Are(out, vs)
  {
    SameElements(out, reqs);
    forall i | 0 <= i < |out| ensures out[i] in vs && out[i].Abs() == vs[out[i]] {
      var k :| 0 <= k < |reqs| && reqs[k] == out[i];
    }
  }

  // ---------- the final check of the requests served here ----------

  /** A value of a request that the final check can be made of, for every file size. */
  ghost predicate Checked(all: seq<ReadReq>, n: nat, vs: Values) {
    n <= |all| && forall i :: 0 <= i < n ==> all[i] in vs && Interleave.Checkable(vs[all[i]])
  }

  method FinishAt(all: seq<ReadReq>, k: nat, ghost now: Values, size: Size) returns (ghost next: Values)
    requires Apart(all) && Are(all, now) && k < |all| && Interleave.Checkable(now[all[k]])
    modifies all`nread, all`errcode, Bufs(all)
    ensures Are(all, next) && next == now[all[k] := Finished(now[all[k]], size)]
  {
    all[k].Finish(size);
    next := now[all[k] := Finished(now[all[k]], size)];
  }

  /** The first k requests have been checked. */
  ghost predicate CheckedTo(all: seq<ReadReq>, k: nat, now: Values, next: Values, sizeOf: int -> Size)
    requires Checked(all, k, now)
  {
    && (forall i :: 0 <= i < |all| ==> all[i] in now && all[i] in next)
    && (forall i :: 0 <= i < k ==> next[all[i]] == Finished(now[all[i]], sizeOf(all[i].gfid)))
    && forall i :: k <= i < |all| ==> next[all[i]] == now[all[i]]
  }

  lemma CheckedMore(all: seq<ReadReq>, k: nat, now: Values, next: Values, sizeOf: int -> Size, more: Values)
    requires Apart(all) && k < |all| && Checked(all, k + 1, now) && CheckedTo(all, k, now, next, sizeOf)
    requires more == next[all[k] := Finished(now[all[k]], sizeOf(all[k].gfid))]
    ensures CheckedTo(all, k + 1, now, more, sizeOf)
  {
  }

  /** update_read_req_result for the first n requests. */
  method FinishFirst(all: seq<ReadReq>, n: nat, ghost now: Values, sizeOf: int -> Size) returns (ghost next: Values)
    requires Apart(all) && Are(all, now) && Checked(all, n, now)
    modifies all`nread, all`errcode, Bufs(all)
    ensures Are(all, next) && CheckedTo(all, n, now, next, sizeOf)
  {
    next := now;
    for k := 0 to n
      modifies all`nread, all`errcode, Bufs(all)
      invariant Are(all, next) && CheckedTo(all, k, now, next, sizeOf)
    {
      ghost var more := FinishAt(all, k, next, sizeOf(all[k].gfid));
      CheckedMore(all, k, now, next, sizeOf, more);
      next := more;
    }
  }

  // ---------- the requests of the server ----------

  /** unifyfs_extent_t: what is asked for. */
  datatype Ask = Ask(gfid: int, offset: nat, length: nat)

  /** The rpc to the server fails, or these messages come before the wait ends. */
  datatype Reply = NotSent(error: Code) | Messages(evs: seq<Interleave.Event>)

  /** Data of the server fits what is asked for. */
  ghost predicate Fitting(asks: seq<Ask>, evs: seq<Interleave.Event>) {
    forall k :: 0 <= k < |evs| && evs[k].Data? ==>
      evs[k].index < |asks| && ReadRequest.InRange(asks[evs[k].index].length, evs[k].chunk)
  }

  /** What the server does fits what it is asked. */
  ghost predicate Serving(server: seq<Ask> -> Reply) { forall asks :: Suits(asks, server(asks)) }

  ghost predicate Suits(asks: seq<Ask>, reply: Reply) {
    match reply
    case NotSent(error) => error != Success
    case Messages(evs) => Fitting(asks, evs)
  }

  function Asks(reqs: seq<ReadReq>): seq<Ask> {
    seq(|reqs|, i requires 0 <= i < |reqs| => Ask(reqs[i].gfid, reqs[i].offset, reqs[i].length))
  }

  /** What the caller gets of request j, the requests being vs when they are sent. */
  ghost function Answer(vs: seq<Req>, j: nat, reply: Reply, size: Size): Req
    requires j < |vs| && Fresh(vs[j]) && Fit(vs, reply)
  {
    match reply
    case NotSent(error) => Finished(vs[j].(code := error), size)
    case Messages(evs) =>
      Interleave.AlwaysCheckable(vs, evs, j);
      Interleave.Reported(Interleave.After(vs, evs), j, size)
  }

  ghost predicate Fit(vs: seq<Req>, reply: Reply) { reply.Messages? ==> Interleave.Fitting(vs, reply.evs) }

  ghost function Vals(reqs: seq<ReadReq>, vs: Values): seq<Req>
    requires forall i :: 0 <= i < |reqs| ==> reqs[i] in vs
  {
    seq(|reqs|, i requires 0 <= i < |reqs| => vs[reqs[i]])
  }

  function Sizes(reqs: seq<ReadReq>, sizeOf: int -> Size): seq<Size> {
    seq(|reqs|, i requires 0 <= i < |reqs| => sizeOf(reqs[i].gfid))
  }

  lemma FitAsks(reqs: seq<ReadReq>, vs: Values, reply: Reply)
    requires AllNew(reqs, vs) && Suits(Asks(reqs), reply)
    ensures Fit(Vals(reqs, vs), reply)
  {
  }

  /** From the multi-read rpc to the final check. */
  method Exchanged(m: Interleave.MultiRead, ghost vs: seq<Req>, reply: Reply, sizes: seq<Size>)
    requires m.Valid() && m.Abs() == Interleave.Status(vs, 0, 0) && Fit(vs, reply) && |sizes| == |m.reqs|
    requires forall i :: 0 <= i < |vs| ==> Fresh(vs[i])
    modifies m, m.reqs, Bufs(m.reqs)
    ensures |m.Abs().reqs| == |vs| == |m.reqs|
    ensures forall j :: 0 <= j < |vs| ==> m.reqs[j].Abs() == Answer(vs, j, reply, sizes[j])
  {
    match reply
    case NotSent(error) =>
      m.Fail(error);
      m.CheckAll(sizes);
    case Messages(evs) =>
      m.Exchange(evs);
      m.Conclude(sizes);
  }

  /** Sends the requests of the server and waits for them; those served here stay as they are. */
  method AskServer(mine: seq<ReadReq>, sorted: seq<ReadReq>, ghost now: Values, server: seq<Ask> -> Reply,
                   sizeOf: int -> Size)
    returns (reply: Reply, ghost next: Values)
    requires Apart(mine + sorted) && Are(mine, now) && Are(sorted, now) && AllNew(sorted, now) && Serving(server)
    modifies sorted, Bufs(sorted)
    ensures Are(mine, next) && Are(sorted, next) && forall i :: 0 <= i < |mine| ==> next[mine[i]] == now[mine[i]]
    ensures reply == server(Asks(sorted)) && Fit(Vals(sorted, now), reply)
    ensures forall j :: 0 <= j < |sorted| ==>
      next[sorted[j]] == Answer(Vals(sorted, now), j, reply, sizeOf(sorted[j].gfid))
  {
    ApartParts(mine, sorted);
    reply := server(Asks(sorted));
    FitAsks(sorted, now, reply);
    var m := new Interleave.MultiRead(sorted);
    ghost var vs := Vals(sorted, now);
    assert m.Abs() == Interleave.Status(vs, 0, 0);
    Exchanged(m, vs, reply, Sizes(sorted, sizeOf));
    next := map r | r in now :: if r in sorted then r.Abs() else now[r];
  }

  lemma ApartParts(mine: seq<ReadReq>, sorted: seq<ReadReq>)
    requires Apart(mine + sorted)
    ensures Apart(sorted) && forall i, j :: 0 <= i < |mine| && 0 <= j < |sorted| ==>
      mine[i] != sorted[j] && mine[i].buf != sorted[j].buf
  {
    var all := mine + sorted;
    assert forall i :: 0 <= i < |mine| ==> all[i] == mine[i];
    assert forall j :: 0 <= j < |sorted| ==> all[|mine| + j] == sorted[j];
  }

  // ---------- the whole ----------

  /** What process_gfid_reads returns. */
  datatype Ret = Done | TooMany | NoMread | Failure(error: Code)

  /** What the caller gets of a request served here, which was v. */
  ghost function LocalResult(known: map<int, seq<Seg>>, r: ReadReq, v: Req, log: Log, access: Access, size: Size): Req
    requires New(r, v) && Local(known, r) && Sorted(known[r.gfid])
  {
    LogsBounds(known[r.gfid], |known[r.gfid]|, v, log, access);
    Finished(FromLogs(v, known[r.gfid], |known[r.gfid]|, log, access), size)
  }

  /** The client's requests are the first n, and have their results. */
  ghost predicate LocalDone(known: map<int, seq<Seg>>, out: seq<ReadReq>, n: nat, start: Values, vs: Values,
                            log: Log, access: Access, sizeOf: int -> Size)
    requires AllNew(out, start) && forall f :: f in known ==> Sorted(known[f])
  {
    n <= |out| && forall i :: 0 <= i < n ==>
      && Local(known, out[i]) && out[i] in vs
      && vs[out[i]] == LocalResult(known, out[i], start[out[i]], log, access, sizeOf(out[i].gfid))
  }

  /** The others are those of the server, and have theirs. */
  ghost predicate ServerDone(sent: seq<ReadReq>, start: Values, vs: Values, reply: Reply, sizeOf: int -> Size)
    requires AllNew(sent, start)
  {
    Fit(Vals(sent, start), reply) && forall j :: 0 <= j < |sent| ==>
      && sent[j] in vs && vs[sent[j]] == Answer(Vals(sent, start), j, reply, sizeOf(sent[j].gfid))
  }

  lemma TriedOf(known: map<int, seq<Seg>>, reqs: seq<ReadReq>, now: Values, start: Values, log: Log, access: Access,
                out: seq<ReadReq>, n: nat)
    requires AllNew(reqs, start) && forall f :: f in known ==> Sorted(known[f])
    requires AllTried(known, reqs, |reqs|, now, start, log, access) && multiset(out) == multiset(reqs)
    requires n <= |out| && forall i :: 0 <= i < |out| ==> (i < n <==> Local(known, out[i]))
    ensures AllNew(out, start) && Checked(out, n, now)
    ensures forall i :: 0 <= i < |out| ==>
      out[i] in now && now[out[i]] == Tried(known, out[i], start[out[i]], log, access)
  {
    SameElements(out, reqs);
    forall i | 0 <= i < |out|
      ensures out[i] in start && out[i] in now && New(out[i], start[out[i]])
      ensures now[out[i]] == Tried(known, out[i], start[out[i]], log, access)
      ensures i < n ==> Interleave.Checkable(now[out[i]])
    {
      var k :| 0 <= k < |reqs| && reqs[k] == out[i];
      if i < n { LogsBounds(known[out[i].gfid], |known[out[i].gfid]|, start[out[i]], log, access); }
    }
  }

  method MarkAt(reqs: seq<ReadReq>, k: nat, ghost now: Values) returns (ghost next: Values)
    requires Apart(reqs) && Are(reqs, now) && k < |reqs|
    modifies reqs`errcode
    ensures Are(reqs, next) && next == now[reqs[k] := now[reqs[k]].(code := InProgress)]
  {
    reqs[k].errcode := InProgress;
    next := now[reqs[k] := now[reqs[k]].(code := InProgress)];
  }

  /** The first n requests are marked. */
  ghost predicate Marked(reqs: seq<ReadReq>, n: nat, vs: Values, was: Values) {
    forall i :: 0 <= i < |reqs| ==>
      && reqs[i] in vs && reqs[i] in was
      && vs[reqs[i]] == if i < n then was[reqs[i]].(code := InProgress) else was[reqs[i]]
  }

  lemma MarkedMore(reqs: seq<ReadReq>, n: nat, vs: Values, was: Values, next: Values)
    requires Apart(reqs) && n < |reqs| && Marked(reqs, n, vs, was)
    requires next == vs[reqs[n] := vs[reqs[n]].(code := InProgress)]
    ensures Marked(reqs, n + 1, next, was)
  {
  }

  /** Marks all requests as in progress. */
  method Mark(reqs: seq<ReadReq>, ghost was: Values) returns (ghost start: Values)
    requires Apart(reqs) && Are(reqs, was)
    modifies reqs`errcode
    ensures Are(reqs, start) && Marked(reqs, |reqs|, start, was)
  {
    start := was;
    for k := 0 to |reqs|
      modifies reqs`errcode
      invariant Are(reqs, start) && Marked(reqs, k, start, was)
    {
      ghost var next := MarkAt(reqs, k, start);
      MarkedMore(reqs, k, start, was, next);
      start := next;
    }
  }

  ghost predicate AllSorted(known: map<int, seq<Seg>>) { forall f :: f in known ==> Sorted(known[f]) }

  /** The requests served here, with what the logs gave, and the others, as they were. */
  ghost predicate Arranged(known: map<int, seq<Seg>>, mine: seq<ReadReq>, sorted: seq<ReadReq>, start: Values,
                           now: Values, log: Log, access: Access)
    requires AllSorted(known)
  {
    && AllNew(mine, start) && AllNew(sorted, start) && Checked(mine, |mine|, now)
    && (forall i :: 0 <= i < |mine| ==>
          Local(known, mine[i]) && now[mine[i]] == Tried(known, mine[i], start[mine[i]], log, access))
    && forall j :: 0 <= j < |sorted| ==>
         !Local(known, sorted[j]) && sorted[j] in now && now[sorted[j]] == start[sorted[j]]
  }

  /** The requests in the order of their results, each either tried here or not. */
  method Arrange(files: Files, ghost known: map<int, seq<Seg>>, reqs: seq<ReadReq>, ghost start: Values,
                 log: Log, access: Access)
    returns (mine: seq<ReadReq>, sorted: seq<ReadReq>, ghost now: Values)
    requires Knows(files, known) && Sane(access) && Apart(reqs) && Are(reqs, start) && AllNew(reqs, start)
    modifies reqs`begin, reqs`end, reqs`nread, reqs`errcode, Bufs(reqs)
    ensures multiset(mine + sorted) == multiset(reqs) && mine == Kept(reqs, known) && Ordered(sorted)
    ensures |sorted| == |Passed(reqs, known)|
    ensures Apart(mine + sorted) && Are(mine + sorted, now) && AllSorted(known)
    ensures Arranged(known, mine, sorted, start, now, log, access)
    ensures Are(reqs, now) && AllTried(known, reqs, |reqs|, now, start, log, access)
  {
    var rest;
    mine, rest, now := Split(files, known, reqs, start, log, access);
    sorted := Sort(rest);
    ghost var out := mine + sorted;
    Joined(reqs, known, mine, rest, sorted, out);
    ApartStill(reqs, out);
    AreStill(reqs, now, out);
    TriedOf(known, reqs, now, start, log, access, out, |mine|);
    assert |multiset(sorted)| == |sorted| && |multiset(rest)| == |rest|;
    assert forall i :: 0 <= i < |mine| ==> out[i] == mine[i];
    assert forall j :: 0 <= j < |sorted| ==> out[|mine| + j] == sorted[j];
  }

  /** The final check of the requests served here; those of the server stay as they are. */
  method FinishMine(ghost known: map<int, seq<Seg>>, mine: seq<ReadReq>, sorted: seq<ReadReq>, ghost start: Values,
                    ghost now: Values, log: Log, access: Access, sizeOf: int -> Size)
    returns (ghost next: Values)
    requires Apart(mine + sorted) && Are(mine + sorted, now) && AllSorted(known)
    requires Arranged(known, mine, sorted, start, now, log, access)
    modifies mine, sorted, Bufs(mine + sorted)
    ensures Are(mine, next) && Are(sorted, next)
    ensures LocalDone(known, mine, |mine|, start, next, log, access, sizeOf)
    ensures forall j :: 0 <= j < |sorted| ==> next[sorted[j]] == start[sorted[j]]
  {
    var all := mine + sorted;
    assert forall i :: 0 <= i < |mine| ==> all[i] == mine[i];
    assert forall j :: 0 <= j < |sorted| ==> all[|mine| + j] == sorted[j];
    next := FinishFirst(all, |mine|, now, sizeOf);
  }

  lemma SameVals(reqs: seq<ReadReq>, a: Values, b: Values)
    requires forall i :: 0 <= i < |reqs| ==> reqs[i] in a && reqs[i] in b && a[reqs[i]] == b[reqs[i]]
    ensures Vals(reqs, a) == Vals(reqs, b)
  {
  }

  /** Both kinds of requests get their results. */
  method Deal(ghost known: map<int, seq<Seg>>, mine: seq<ReadReq>, sorted: seq<ReadReq>, ghost start: Values,
              ghost now: Values, log: Log, access: Access, sizeOf: int -> Size, server: seq<Ask> -> Reply)
    returns (reply: Reply, ghost vs: Values)
    requires Apart(mine + sorted) && Are(mine + sorted, now) && AllSorted(known) && Serving(server)
    requires Arranged(known, mine, sorted, start, now, log, access)
    modifies mine, sorted, Bufs(mine + sorted)
    ensures reply == server(Asks(sorted)) && Are(mine, vs) && Are(sorted, vs)
    ensures LocalDone(known, mine, |mine|, start, vs, log, access, sizeOf)
    ensures ServerDone(sorted, start, vs, reply, sizeOf)
  {
    ghost var next := FinishMine(known, mine, sorted, start, now, log, access, sizeOf);
    SameVals(sorted, start, next);
    BufsPart(mine, sorted);
    reply, vs := AskServer(mine, sorted, next, server, sizeOf);
  }

  lemma BufsPart(mine: seq<ReadReq>, sorted: seq<ReadReq>)
    ensures Bufs(sorted) <= Bufs(mine + sorted)
  {
    forall b | b in Bufs(sorted) ensures b in Bufs(mine + sorted) {
      var j :| 0 <= j < |sorted| && sorted[j].buf == b;
      assert (mine + sorted)[|mine| + j] == sorted[j];
    }
  }

  /** The return code, by what came of the rpc. */
  function RetOf(reply: Reply): Ret {
    if reply.NotSent? && reply.error != NoData then Failure(reply.error) else Done
  }

  /** All requests have their results: those served here come first, in their old order, and those of
      the server after them, sorted. */
  ghost predicate AllDone(known: map<int, seq<Seg>>, reqs: seq<ReadReq>, out: seq<ReadReq>, n: nat, start: Values,
                          vs: Values, log: Log, access: Access, sizeOf: int -> Size, server: seq<Ask> -> Reply)
    requires AllSorted(known)
  {
    && multiset(out) == multiset(reqs) && n <= |out| && out[..n] == Kept(reqs, known) && Ordered(out[n..])
    && AllNew(out[..n], start) && AllNew(out[n..], start)
    && LocalDone(known, out[..n], n, start, vs, log, access, sizeOf)
    && (n < |out| ==> ServerDone(out[n..], start, vs, server(Asks(out[n..])), sizeOf))
  }

  /** The requests are as service_local_reqs left them, and in their old order. */
  ghost predicate GivenUp(known: map<int, seq<Seg>>, reqs: seq<ReadReq>, out: seq<ReadReq>, start: Values,
                          vs: Values, log: Log, access: Access)
    requires AllSorted(known)
  {
    out == reqs && AllNew(reqs, start) && AllTried(known, reqs, |reqs|, vs, start, log, access)
  }

  lemma PutTogether(known: map<int, seq<Seg>>, reqs: seq<ReadReq>, mine: seq<ReadReq>, sorted: seq<ReadReq>,
                    start: Values, vs: Values, log: Log, access: Access, sizeOf: int -> Size, server: seq<Ask> -> Reply)
    requires multiset(mine + sorted) == multiset(reqs) && mine == Kept(reqs, known) && Ordered(sorted)
    requires AllSorted(known) && Settled(known, mine, sorted, start, vs, log, access, sizeOf, server)
    requires Are(mine, vs) && Are(sorted, vs)
    ensures AllDone(known, reqs, mine + sorted, |mine|, start, vs, log, access, sizeOf, server)
    ensures Are(mine + sorted, vs)
  {
    var out := mine + sorted;
    assert out[..|mine|] == mine && out[|mine|..] == sorted;
  }

  /** process_gfid_reads. Too many requests for the server, or a full table of multi-reads, and all is
      given up; otherwise every request gets its result. The table is left as it was. */
  method Process(files: Files, ghost known: map<int, seq<Seg>>, reqs: seq<ReadReq>, ghost was: Values,
                 log: Log, access: Access, sizeOf: int -> Size, table: Mread.Table, server: seq<Ask> -> Reply)
    returns (rc: Ret, out: seq<ReadReq>, n: nat, ghost start: Values, ghost vs: Values)
    requires Knows(files, known) && Sane(access) && Serving(server) && table.Valid() && Apart(reqs) && Are(reqs, was)
    requires forall i :: 0 <= i < |reqs| ==> New(reqs[i], was[reqs[i]].(code := InProgress))
    modifies reqs, Bufs(reqs), table`size, table`generator, table.elems
    ensures table.Valid() && table.elems[..] == old(table.elems[..]) && AllSorted(known) && Are(out, vs)
    ensures forall i :: 0 <= i < |reqs| ==> reqs[i] in start && start[reqs[i]] == was[reqs[i]].(code := InProgress)
    ensures rc == TooMany <==> |Passed(reqs, known)| > MAX_READ_COUNT
    ensures rc == NoMread <==>
      0 < |Passed(reqs, known)| <= MAX_READ_COUNT && old(table.elems[..])[Mread.CAPACITY - 1].Some?
    ensures
      if rc == TooMany || rc == NoMread then GivenUp(known, reqs, out, start, vs, log, access)
      else
        && AllDone(known, reqs, out, n, start, vs, log, access, sizeOf, server)
        && rc == if n < |out| then RetOf(server(Asks(out[n..]))) else Done
  {
    var mine, sorted; ghost var now;
    mine, sorted, start, now := Prepare(files, known, reqs, was, log, access);
    var id;
    rc, id := Enter(table, |sorted|, mine + sorted, reqs, now);
    if rc != Done {
      out, n, vs := reqs, 0, now;
    } else {
      rc, out, vs := Finish(known, reqs, mine, sorted, start, now, log, access, sizeOf, table, id,
        old(table.elems[..]), server);
      n := |mine|;
    }
  }

  /** The part of process_gfid_reads from the multi-read on. */
  method Finish(ghost known: map<int, seq<Seg>>, ghost reqs: seq<ReadReq>, mine: seq<ReadReq>, sorted: seq<ReadReq>,
                ghost start: Values, ghost now: Values, log: Log, access: Access, sizeOf: int -> Size,
                table: Mread.Table, id: Option<nat>, ghost elems: seq<Option<nat>>, server: seq<Ask> -> Reply)
    returns (rc: Ret, out: seq<ReadReq>, ghost vs: Values)
    requires Are(mine + sorted, now) && Serving(server) && Entered(table, id, elems)
    requires AllSorted(known) && Prepared(known, reqs, mine, sorted, start, now, log, access)
    modifies reqs, Bufs(reqs), table`size, table.elems
    ensures table.Valid() && table.elems[..] == elems
    ensures |mine| <= |out| && Are(out, vs) && (rc == Done || rc.Failure?)
    ensures AllDone(known, reqs, out, |mine|, start, vs, log, access, sizeOf, server)
    ensures rc == if |mine| < |out| then RetOf(server(Asks(out[|mine|..]))) else Done
  {
    rc, out, vs := Settle(known, reqs, mine, sorted, start, now, log, access, sizeOf, server);
    Leave(table, id, elems, out, vs);
  }

  /** The table has the multi-read, and what it had before. */
  ghost predicate Entered(table: Mread.Table, id: Option<nat>, elems: seq<Option<nat>>)
    reads table, table.elems
  {
    && table.Valid() && |elems| == Mread.CAPACITY
    && match id
       case None => table.elems[..] == elems
       case Some(x) =>
         && x < Mread.IDS && elems[x % Mread.CAPACITY].None?
         && table.elems[..] == elems[x % Mread.CAPACITY := id]
  }

  /** The requests in the order of their results, with what the logs gave of those served here. */
  ghost predicate Prepared(known: map<int, seq<Seg>>, reqs: seq<ReadReq>, mine: seq<ReadReq>, sorted: seq<ReadReq>,
                           start: Values, now: Values, log: Log, access: Access)
    requires AllSorted(known)
  {
    && multiset(mine + sorted) == multiset(reqs) && mine == Kept(reqs, known) && Ordered(sorted)
    && |sorted| == |Passed(reqs, known)| && Apart(mine + sorted)
    && Inside(mine, Objects(reqs), Bufs(reqs)) && Inside(sorted, Objects(reqs), Bufs(reqs))
    && Arranged(known, mine, sorted, start, now, log, access) && GivenUp(known, reqs, reqs, start, now, log, access)
  }

  /** The part of process_gfid_reads up to the requests for the server. */
  method Prepare(files: Files, ghost known: map<int, seq<Seg>>, reqs: seq<ReadReq>, ghost was: Values,
                 log: Log, access: Access)
    returns (mine: seq<ReadReq>, sorted: seq<ReadReq>, ghost start: Values, ghost now: Values)
    requires Knows(files, known) && Sane(access) && Apart(reqs) && Are(reqs, was)
    requires forall i :: 0 <= i < |reqs| ==> New(reqs[i], was[reqs[i]].(code := InProgress))
    modifies reqs, Bufs(reqs)
    ensures AllSorted(known) && Prepared(known, reqs, mine, sorted, start, now, log, access)
    ensures forall i :: 0 <= i < |reqs| ==> reqs[i] in start && start[reqs[i]] == was[reqs[i]].(code := InProgress)
    ensures Are(mine + sorted, now) && Are(reqs, now)
  {
    start := Mark(reqs, was);
    mine, sorted, now := Arrange(files, known, reqs, start, log, access);
    SameFrame(reqs, mine, sorted);
  }

  ghost function Objects(reqs: seq<ReadReq>): set<ReadReq> { set i | 0 <= i < |reqs| :: reqs[i] }

  lemma SameFrame(reqs: seq<ReadReq>, mine: seq<ReadReq>, sorted: seq<ReadReq>)
    requires multiset(mine + sorted) == multiset(reqs)
    ensures Inside(mine, Objects(reqs), Bufs(reqs)) && Inside(sorted, Objects(reqs), Bufs(reqs))
  {
    var all := mine + sorted;
    SameElements(all, reqs);
    assert forall i :: 0 <= i < |mine| ==> all[i] == mine[i];
    assert forall j :: 0 <= j < |sorted| ==> all[|mine| + j] == sorted[j];
  }

  ghost predicate Inside(reqs: seq<ReadReq>, objects: set<ReadReq>, bufs: set<array<Byte>>) {
    forall i :: 0 <= i < |reqs| ==> reqs[i] in objects && reqs[i].buf in bufs
  }

  /** A multi-read for the requests of the server, if there are any and not too many. */
  method Enter(table: Mread.Table, count: nat, ghost all: seq<ReadReq>, ghost reqs: seq<ReadReq>, ghost now: Values)
    returns (rc: Ret, id: Option<nat>)
    requires table.Valid() && Are(all, now) && Are(reqs, now)
    modifies table`size, table`generator, table.elems
    ensures Are(all, now) && Are(reqs, now)
    ensures table.Valid() && (rc == TooMany || rc == NoMread || rc == Done)
    ensures rc == TooMany <==> count > MAX_READ_COUNT
    ensures rc == NoMread <==> 0 < count <= MAX_READ_COUNT && old(table.elems[..])[Mread.CAPACITY - 1].Some?
    ensures Entered(table, id, old(table.elems[..])) && (rc != Done ==> id.None?)
  {
    if count > MAX_READ_COUNT { return TooMany, None; }
    if count == 0 { return Done, None; }
    ghost var steps;
    id, steps := table.Create();
    rc := if id.None? then NoMread else Done;
  }

  method Leave(table: Mread.Table, id: Option<nat>, ghost elems: seq<Option<nat>>, ghost out: seq<ReadReq>,
               ghost vs: Values)
    requires Entered(table, id, elems) && Are(out, vs)
    modifies table`size, table.elems
    ensures table.Valid() && table.elems[..] == elems && Are(out, vs)
  {
    if id.Some? { var ok := table.Remove(id.value); }
  }

  /** Both kinds of requests have their results. */
  ghost predicate Settled(known: map<int, seq<Seg>>, mine: seq<ReadReq>, sorted: seq<ReadReq>, start: Values,
                          vs: Values, log: Log, access: Access, sizeOf: int -> Size, server: seq<Ask> -> Reply)
    requires AllSorted(known)
  {
    && AllNew(mine, start) && AllNew(sorted, start) && LocalDone(known, mine, |mine|, start, vs, log, access, sizeOf)
    && (sorted != [] ==> ServerDone(sorted, start, vs, server(Asks(sorted)), sizeOf))
  }

  /** The part of process_gfid_reads with the results of the requests. */
  method Settle(ghost known: map<int, seq<Seg>>, ghost reqs: seq<ReadReq>, mine: seq<ReadReq>, sorted: seq<ReadReq>,
                ghost start: Values, ghost now: Values, log: Log, access: Access, sizeOf: int -> Size,
                server: seq<Ask> -> Reply)
    returns (rc: Ret, out: seq<ReadReq>, ghost vs: Values)
    requires Are(mine + sorted, now) && Serving(server)
    requires AllSorted(known) && Prepared(known, reqs, mine, sorted, start, now, log, access)
    modifies reqs, Bufs(reqs)
    ensures |mine| <= |out| && out == mine + sorted && Are(out, vs)
    ensures AllDone(known, reqs, out, |mine|, start, vs, log, access, sizeOf, server)
    ensures rc == if |mine| < |out| then RetOf(server(Asks(out[|mine|..]))) else Done
  {
    BufsInside(mine, sorted, Objects(reqs), Bufs(reqs));
    if sorted == [] {
      vs := FinishMine(known, mine, sorted, start, now, log, access, sizeOf);
      rc := Done;
    } else {
      var reply;
      reply, vs := Deal(known, mine, sorted, start, now, log, access, sizeOf, server);
      rc := RetOf(reply);
    }
    PutTogether(known, reqs, mine, sorted, start, vs, log, access, sizeOf, server);
    out := mine + sorted;
    assert out[|mine|..] == sorted;
  }

  lemma BufsInside(mine: seq<ReadReq>, sorted: seq<ReadReq>, objects: set<ReadReq>, bufs: set<array<Byte>>)
    requires Inside(mine, objects, bufs) && Inside(sorted, objects, bufs)
    ensures Bufs(mine + sorted) <= bufs
  {
  }

  /** If the rpc to the server fails, each of its requests is reported with the error and nothing read, and so
      is the whole; but ENODATA ends as a read of zeros, and as a success of the whole. */
  lemma NotSentAll(sent: seq<ReadReq>, start: Values, vs: Values, error: Code, sizeOf: int -> Size, j: nat)
    requires AllNew(sent, start) && j < |sent| && error != Success && error != InProgress
    requires ServerDone(sent, start, vs, NotSent(error), sizeOf)
    ensures
      var got, size := vs[sent[j]], sizeOf(sent[j].gfid);
      && (error != NoData ==> got == start[sent[j]].(code := error) && got.nread == 0)
      && (error == NoData && size.Known? ==>
            && got.code == Success && got.nread == Available(start[sent[j]], size.bytes) <= |got.buf|
            && forall i :: 0 <= i < got.nread ==> got.buf[i] == 0)
    ensures RetOf(NotSent(error)) == if error == NoData then Done else Failure(error)
  {
    var v, size := start[sent[j]], sizeOf(sent[j].gfid);
    if error == NoData && size.Known? { EmptyEnd(v, error, size.bytes); }
  }

  // ---------- reading files ----------

  /** The byte of a file at an offset. */
  type Content = (int, nat) -> Byte

  /** The caller gets what POSIX read() gives of the file of the request, at its offset. */
  ghost predicate ReadsFile(r: ReadReq, got: Req, content: Content, size: Size) {
    && size.Known? && got.code == Success && 0 <= got.nread <= |got.buf|
    && got.nread == (if size.bytes <= r.offset then 0
                     else if size.bytes < r.offset + r.length then size.bytes - r.offset else r.length)
    && forall i :: 0 <= i < got.nread ==> got.buf[i] == content(r.gfid, r.offset + i)
  }

  /** Messages with bytes of the file from the offset asked for on; what they leave out is zero there, and
      the client sets it to zero. */
  ghost predicate TrueData(a: Ask, cs: seq<Chunk>, error: Code, content: Content, size: nat) {
    && Disjoint(cs) && ZerosRight(a.length, cs, error)
    && (forall k, i :: 0 <= k < |cs| && Fills(cs[k], i) ==>
          a.offset + i < size && cs[k].data[i - cs[k].at] == content(a.gfid, a.offset + i))
    && forall i :: 0 <= i < a.length && !Filled(cs, i) && a.offset + i < size ==> content(a.gfid, a.offset + i) == 0
  }

  /** The j-th request is answered with bytes of its file, and completes. */
  ghost predicate TrueAnswer(a: Ask, evs: seq<Interleave.Event>, j: nat, content: Content, size: Size) {
    && size.Known? && Interleave.Final(evs, j) && Interleave.HasDone(evs, j)
    && TrueData(a, Interleave.DataFor(evs, j), Interleave.ErrorOf(evs, j), content, size.bytes)
  }

  /** The server answers whatever it is asked for with bytes of the file asked for. */
  ghost predicate Honest(server: seq<Ask> -> Reply, content: Content, sizeOf: int -> Size) {
    forall asks :: HonestTo(asks, server(asks), content, sizeOf)
  }

  ghost predicate HonestTo(asks: seq<Ask>, reply: Reply, content: Content, sizeOf: int -> Size) {
    reply.Messages? && forall j: nat :: j < |asks| ==> TrueAnswer(asks[j], reply.evs, j, content, sizeOf(asks[j].gfid))
  }

  lemma ConsistentData(a: Ask, cs: seq<Chunk>, error: Code, content: Content, size: nat, r: Req)
    requires TrueData(a, cs, error, content, size) && r.offset == a.offset && AllInRange(a.length, cs)
    ensures Consistent(r, cs, size)
  {
    forall k | 0 <= k < |cs| ensures r.offset + cs[k].at + |cs[k].data| <= size {
      assert ReadRequest.InRange(a.length, cs[k]) && Fills(cs[k], cs[k].at + |cs[k].data| - 1);
    }
  }

  /** The result of POSIX of such messages is that of the file. */
  lemma PosixReads(r: ReadReq, v: Req, cs: seq<Chunk>, error: Code, content: Content, size: nat, got: Req)
    requires New(r, v) && AllInRange(v.length, cs)
    requires TrueData(Ask(r.gfid, r.offset, r.length), cs, error, content, size) && Posix(v, cs, size, got)
    ensures ReadsFile(r, got, content, Known(size))
  {
    forall i | 0 <= i < got.nread ensures got.buf[i] == content(r.gfid, r.offset + i) {
      if Filled(cs, i) { var k :| 0 <= k < |cs| && Fills(cs[k], i); }
    }
  }

  /** A request that an honest server answers reads its own file. */
  lemma ServerReads(sent: seq<ReadReq>, start: Values, vs: Values, server: seq<Ask> -> Reply, content: Content,
                    sizeOf: int -> Size, j: nat)
    requires AllNew(sent, start) && Honest(server, content, sizeOf) && j < |sent|
    requires ServerDone(sent, start, vs, server(Asks(sent)), sizeOf)
    ensures ReadsFile(sent[j], vs[sent[j]], content, sizeOf(sent[j].gfid))
  {
    var asks, reqs, evs := Asks(sent), Vals(sent, start), server(Asks(sent)).evs;
    assert HonestTo(asks, server(asks), content, sizeOf);
    assert TrueAnswer(asks[j], evs, j, content, sizeOf(asks[j].gfid));
    AllAnswered(sent, start, evs, content, sizeOf);
    var cs, error, size := Interleave.DataFor(evs, j), Interleave.ErrorOf(evs, j), sizeOf(sent[j].gfid).bytes;
    Interleave.AllReported(reqs, evs, j, size);
    ConsistentData(asks[j], cs, error, content, size, reqs[j]);
    PosixReads(sent[j], reqs[j], cs, error, content, size, vs[sent[j]]);
  }

  lemma AllAnswered(sent: seq<ReadReq>, start: Values, evs: seq<Interleave.Event>, content: Content,
                    sizeOf: int -> Size)
    requires AllNew(sent, start) && HonestTo(Asks(sent), Messages(evs), content, sizeOf)
    requires Interleave.Fitting(Vals(sent, start), evs)
    ensures Interleave.Proper(Vals(sent, start), evs) && Interleave.AllDone(evs, |sent|)
  {
    forall i: nat | i < |sent| ensures Interleave.Final(evs, i) && Interleave.HasDone(evs, i) {
      assert TrueAnswer(Asks(sent)[i], evs, i, content, sizeOf(Asks(sent)[i].gfid));
    }
  }

  /** The extents lead to bytes of the files, through logs that can be read. */
  ghost predicate TrueLogs(known: map<int, seq<Seg>>, log: Log, access: Access, content: Content, sizeOf: int -> Size) {
    && (forall c, p, n :: access(c, p, n) == Got(n))
    && forall f, o: nat :: f in known && Lookup(known[f], o).Some? ==>
         LogByte(known[f], log, o) == Some(content(f, o)) && sizeOf(f).Known? && o < sizeOf(f).bytes
  }

  /** So does one that is served here, if the extents lead to the bytes of the file. */
  lemma LocalReads(known: map<int, seq<Seg>>, r: ReadReq, v: Req, log: Log, access: Access, content: Content,
                   sizeOf: int -> Size)
    requires New(r, v) && Local(known, r) && Sorted(known[r.gfid])
    requires TrueLogs(known, log, access, content, sizeOf)
    ensures ReadsFile(r, LocalResult(known, r, v, log, access, sizeOf(r.gfid)), content, sizeOf(r.gfid))
  {
    var s := known[r.gfid];
    LogsWhole(s, v, log, access);
    var x := FromLogs(v, s, |s|, log, access);
    forall i | 0 <= i < r.length ensures x.buf[i] == content(r.gfid, r.offset + i) {
      assert Some(x.buf[i]) == LogByte(s, log, r.offset + i);
      assert Lookup(s, r.offset + i).Some?;
    }
    assert Lookup(s, r.offset + r.length - 1).Some?;
  }

  /** All requests that are done read their own files. */
  lemma AllRead(known: map<int, seq<Seg>>, reqs: seq<ReadReq>, out: seq<ReadReq>, n: nat, start: Values, vs: Values,
                log: Log, access: Access, sizeOf: int -> Size, server: seq<Ask> -> Reply, content: Content, i: nat)
    requires AllSorted(known) && AllDone(known, reqs, out, n, start, vs, log, access, sizeOf, server) && i < |out|
    requires TrueLogs(known, log, access, content, sizeOf) && Honest(server, content, sizeOf)
    ensures ReadsFile(out[i], vs[out[i]], content, sizeOf(out[i].gfid))
  {
    if i < n {
      assert out[..n][i] == out[i];
      LocalReads(known, out[i], start[out[i]], log, access, content, sizeOf);
    } else {
      assert out[n..][i - n] == out[i];
      ServerReads(out[n..], start, vs, server, content, sizeOf, i - n);
    }
  }

  /** process_gfid_reads, with a server and logs that have the bytes of the files: if it is not given up, the
      caller gets of every request what POSIX read() gives of its file at its offset. */
  method ReadFiles(files: Files, ghost known: map<int, seq<Seg>>, reqs: seq<ReadReq>, ghost was: Values, log: Log,
                   access: Access, sizeOf: int -> Size, table: Mread.Table, server: seq<Ask> -> Reply,
                   ghost content: Content)
    returns (rc: Ret)
    requires Knows(files, known) && Sane(access) && Serving(server) && table.Valid() && Apart(reqs) && Are(reqs, was)
    requires forall i :: 0 <= i < |reqs| ==> New(reqs[i], was[reqs[i]].(code := InProgress))
    requires TrueLogs(known, log, access, content, sizeOf) && Honest(server, content, sizeOf)
    modifies reqs, Bufs(reqs), table`size, table`generator, table.elems
    ensures rc == TooMany <==> |Passed(reqs, known)| > MAX_READ_COUNT
    ensures rc == NoMread <==>
      0 < |Passed(reqs, known)| <= MAX_READ_COUNT && old(table.elems[..])[Mread.CAPACITY - 1].Some?
    ensures rc != TooMany && rc != NoMread ==> rc == Done && forall i :: 0 <= i < |reqs| ==>
      ReadsFile(reqs[i], reqs[i].Abs(), content, sizeOf(reqs[i].gfid))
  {
    var out, n; ghost var start, vs;
    rc, out, n, start, vs := Process(files, known, reqs, was, log, access, sizeOf, table, server);
    if rc != TooMany && rc != NoMread {
      assert n < |out| ==> HonestTo(Asks(out[n..]), server(Asks(out[n..])), content, sizeOf);
      SameElements(reqs, out);
      forall i | 0 <= i < |reqs| ensures ReadsFile(reqs[i], reqs[i].Abs(), content, sizeOf(reqs[i].gfid)) {
        var k :| 0 <= k < |out| && out[k] == reqs[i];
        AllRead(known, reqs, out, n, start, vs, log, access, sizeOf, server, content, k);
      }
    }
  }

  /** A request served here whose last failing log read fails with a fatal error is reported with it. */
  lemma LocalFails(known: map<int, seq<Seg>>, r: ReadReq, v: Req, log: Log, access: Access, size: Size, j: nat,
                   error: Code)
    requires New(r, v) && Local(known, r) && Sorted(known[r.gfid]) && Fatal(error) && j < |known[r.gfid]|
    requires FailsWith(known[r.gfid][j], r.offset, r.length, access, error)
    requires forall i, e :: j < i < |known[r.gfid]| ==> !FailsWith(known[r.gfid][i], r.offset, r.length, access, e)
    ensures LocalResult(known, r, v, log, access, size).code == error
  {
    FailedRead(known[r.gfid], j, v, log, access, error, size);
  }
}
