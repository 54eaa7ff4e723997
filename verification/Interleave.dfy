/** The messages of all requests of a multi-read, in any interleaving, up to its end. */
module Interleave {
  import opened Common
  import opened ReadRequest

  /** What the server sends: data for a request, or its completion. */
  datatype Event = Data(index: nat, chunk: Chunk) | Done(index: nat, error: Code)

  /** client_mread_status */
  datatype Status = Status(reqs: seq<Req>, complete: nat, errors: nat)

  /** Data goes to requests there are, and to bytes they have. */
  ghost predicate Fitting(reqs: seq<Req>, evs: seq<Event>) {
    forall k :: 0 <= k < |evs| && evs[k].Data? ==>
      evs[k].index < |reqs| && InRange(|reqs[evs[k].index].buf|, evs[k].chunk)
  }

  /** One message; a completion for a request there is not is refused. */
  function Updated(st: Status, ev: Event): Status
    requires ev.Data? ==> ev.index < |st.reqs| && InRange(|st.reqs[ev.index].buf|, ev.chunk)
  {
    if ev.index >= |st.reqs| then st
    else
      var r := st.reqs[ev.index];
      match ev
      case Data(i, c) => st.(reqs := st.reqs[i := Delivered(r, c)])
      case Done(i, error) =>
        var errors := if error != Success then st.errors + 1 else st.errors;
        Status(st.reqs[i := Completed(r, error)], st.complete + 1, errors)
  }

  /** The multi-read after the messages, one after the other. */
  function After(reqs: seq<Req>, evs: seq<Event>): (st: Status)
    requires Fitting(reqs, evs)
    ensures |st.reqs| == |reqs| && forall i :: 0 <= i < |reqs| ==> |st.reqs[i].buf| == |reqs[i].buf|
  {
    if evs == [] then Status(reqs, 0, 0)
    else
      var st, ev := After(reqs, evs[..|evs| - 1]), evs[|evs| - 1];
      KeepsLength(st, ev);
      Updated(st, ev)
  }

  lemma KeepsLength(st: Status, ev: Event)
    requires ev.Data? ==> ev.index < |st.reqs| && InRange(|st.reqs[ev.index].buf|, ev.chunk)
    ensures
      var t := Updated(st, ev).reqs;
      |t| == |st.reqs| && forall i :: 0 <= i < |t| ==> |t[i].buf| == |st.reqs[i].buf|
  {
    if ev.Data? { PlacedAt(st.reqs[ev.index].buf, ev.chunk); }
  }

  // ---------- what happens to one request ----------

  /** The data for request i, in the order in which it comes. */
  function DataFor(evs: seq<Event>, i: nat): seq<Chunk> {
    if evs == [] then []
    else
      var rest, ev := DataFor(evs[..|evs| - 1], i), evs[|evs| - 1];
      if ev.Data? && ev.index == i then rest + [ev.chunk] else rest
  }

  predicate Fails(ev: Event, i: nat) { ev.Done? && ev.index == i && ev.error != Success }

  /** The last error of request i, if it has one. */
  function ErrorOf(evs: seq<Event>, i: nat): Code {
    if evs == [] then Success
    else if Fails(evs[|evs| - 1], i) then evs[|evs| - 1].error
    else ErrorOf(evs[..|evs| - 1], i)
  }

  /** Message k has data for request i, further on than all before it. */
  ghost predicate Extends(evs: seq<Event>, i: nat, k: nat) {
    && k < |evs| && evs[k].Data? && evs[k].index == i
    && forall j :: 0 <= j < k && evs[j].Data? && evs[j].index == i ==> LastOf(evs[j].chunk) < LastOf(evs[k].chunk)
  }

  function LastOf(c: Chunk): int { c.at + |c.data| - 1 }

  /** Message k extends the data of request i after an error of it, and no error comes later. */
  ghost predicate Late(evs: seq<Event>, i: nat, k: nat) {
    && Extends(evs, i, k) && (exists j :: 0 <= j < k && Fails(evs[j], i))
    && forall j :: k < j < |evs| ==> !Fails(evs[j], i)
  }

  ghost predicate Overtaken(evs: seq<Event>, i: nat) { exists k: nat :: Late(evs, i, k) }

  lemma {:induction false} DataFits(reqs: seq<Req>, evs: seq<Event>, i: nat)
    requires Fitting(reqs, evs) && i < |reqs|
    ensures AllInRange(|reqs[i].buf|, DataFor(evs, i))
  {
    if evs != [] { DataFits(reqs, evs[..|evs| - 1], i); }
  }

  lemma {:induction false} ErrorComes(evs: seq<Event>, i: nat)
    ensures ErrorOf(evs, i) != Success <==> exists j :: 0 <= j < |evs| && Fails(evs[j], i)
  {
    if evs != [] {
      var n := |evs| - 1;
      ErrorComes(evs[..n], i);
      if j :| 0 <= j < n && Fails(evs[j], i) { assert Fails(evs[..n][j], i); }
    }
  }

  lemma {:induction false} DataAmong(evs: seq<Event>, i: nat, c: Chunk)
    ensures c in DataFor(evs, i) <==> exists j :: 0 <= j < |evs| && evs[j] == Data(i, c)
  {
    if evs != [] {
      var n := |evs| - 1;
      DataAmong(evs[..n], i, c);
      if j :| 0 <= j < n && evs[j] == Data(i, c) { assert evs[..n][j] == Data(i, c); }
    }
  }

  /** A message that is not for request i, or has nothing new, changes nothing. */
  lemma LateBefore(evs: seq<Event>, i: nat)
    requires evs != [] && !Fails(evs[|evs| - 1], i) && !Extends(evs, i, |evs| - 1)
    ensures Overtaken(evs, i) <==> Overtaken(evs[..|evs| - 1], i)
  {
    var n := |evs| - 1;
    var rest := evs[..n];
    if k: nat :| Late(evs, i, k) {
      var j :| 0 <= j < k && Fails(evs[j], i);
      assert Fails(rest[j], i);
      assert Late(rest, i, k);
    }
    if k: nat :| Late(rest, i, k) {
      var j :| 0 <= j < k && Fails(rest[j], i);
      assert Fails(evs[j], i);
      assert Late(evs, i, k);
    }
  }

  lemma LateNow(evs: seq<Event>, i: nat)
    requires evs != [] && Extends(evs, i, |evs| - 1)
    ensures Overtaken(evs, i) <==> ErrorOf(evs, i) != Success
  {
    var n := |evs| - 1;
    ErrorComes(evs, i);
    if ErrorOf(evs, i) != Success { assert Late(evs, i, n); }
  }

  /** A message reaches further than those before it if and only if it moves the end of the coverage. */
  lemma ExtendsEnd(reqs: seq<Req>, evs: seq<Event>, i: nat)
    requires Fitting(reqs, evs) && i < |reqs| && Fresh(reqs[i]) && evs != [] && evs[|evs| - 1].Data? &&
      evs[|evs| - 1].index == i
    ensures AllInRange(|reqs[i].buf|, DataFor(evs[..|evs| - 1], i))
    ensures Extends(evs, i, |evs| - 1) <==>
      LastOf(evs[|evs| - 1].chunk) > DeliveredAll(reqs[i], DataFor(evs[..|evs| - 1], i)).end
  {
    var n := |evs| - 1;
    var cs, last := DataFor(evs[..n], i), LastOf(evs[n].chunk);
    DataFits(reqs, evs[..n], i);
    CoverageOf(reqs[i], cs);
    var end := DeliveredAll(reqs[i], cs).end;
    if Extends(evs, i, n) && cs != [] {
      var k :| 0 <= k < |cs| && LastOf(cs[k]) == end;
      DataAmong(evs[..n], i, cs[k]);
    }
    if last > end {
      forall j | 0 <= j < n && evs[j].Data? && evs[j].index == i ensures LastOf(evs[j].chunk) < last {
        assert evs[..n][j] == Data(i, evs[j].chunk);
        DataAmong(evs[..n], i, evs[j].chunk);
      }
    }
  }

  /** A request with an error on top of its data, or below late data. */
  function Marked(r1: Req, error: Code, overtaken: bool): Req {
    if overtaken then r1.(code := error) else Completed(r1, error)
  }

  /** What the messages leave of request i: its own data, its last error, and nothing read if it has
      one, unless late data has overtaken it. */
  ghost function Left(r: Req, evs: seq<Event>, i: nat): Req
    requires AllInRange(|r.buf|, DataFor(evs, i))
  {
    Marked(DeliveredAll(r, DataFor(evs, i)), ErrorOf(evs, i), Overtaken(evs, i))
  }

  lemma MarkedThenData(r1: Req, error: Code, overtaken: bool, c: Chunk)
    requires InRange(|r1.buf|, c) && -1 <= r1.end && (overtaken ==> error != Success)
    ensures Delivered(Marked(r1, error, overtaken), c) ==
      Marked(Delivered(r1, c), error, if LastOf(c) > r1.end then error != Success else overtaken)
  {
  }

  lemma DataStep(reqs: seq<Req>, evs: seq<Event>, i: nat)
    requires Fitting(reqs, evs) && i < |reqs| && Fresh(reqs[i]) && evs != [] && evs[|evs| - 1].Data? &&
      evs[|evs| - 1].index == i
    requires AllInRange(|reqs[i].buf|, DataFor(evs, i)) && AllInRange(|reqs[i].buf|, DataFor(evs[..|evs| - 1], i))
    ensures Left(reqs[i], evs, i) == Delivered(Left(reqs[i], evs[..|evs| - 1], i), evs[|evs| - 1].chunk)
  {
    var rest, c := evs[..|evs| - 1], evs[|evs| - 1].chunk;
    var cs := DataFor(rest, i);
    var r1 := DeliveredAll(reqs[i], cs);
    assert DeliveredAll(reqs[i], cs + [c]) == Delivered(r1, c) by { assert (cs + [c])[..|cs|] == cs; }
    assert -1 <= r1.end by { Received(reqs[i], cs); }
    ExtendsEnd(reqs, evs, i);
    if Extends(evs, i, |evs| - 1) { LateNow(evs, i); } else { LateBefore(evs, i); }
    assert Overtaken(rest, i) ==> ErrorOf(rest, i) != Success by { OvertakenFails(rest, i); }
    MarkedThenData(r1, ErrorOf(rest, i), Overtaken(rest, i), c);
  }

  lemma OvertakenFails(evs: seq<Event>, i: nat)
    ensures Overtaken(evs, i) ==> ErrorOf(evs, i) != Success
  {
    if k: nat :| Late(evs, i, k) { ErrorComes(evs, i); }
  }

  lemma DoneStep(r: Req, evs: seq<Event>, i: nat)
    requires evs != [] && !(evs[|evs| - 1].Data? && evs[|evs| - 1].index == i)
    requires AllInRange(|r.buf|, DataFor(evs, i)) && AllInRange(|r.buf|, DataFor(evs[..|evs| - 1], i))
    ensures
      var left, ev := Left(r, evs[..|evs| - 1], i), evs[|evs| - 1];
      Left(r, evs, i) == if ev.index == i then Completed(left, ev.error) else left
  {
    if !Fails(evs[|evs| - 1], i) { LateBefore(evs, i); }
  }

  /** What the messages leave of a request depends on its own ones alone, however those of all
      requests are interleaved and whatever errors there are. */
  lemma {:induction false} OwnMessages(reqs: seq<Req>, evs: seq<Event>, i: nat)
    requires Fitting(reqs, evs) && i < |reqs| && Fresh(reqs[i])
    ensures AllInRange(|reqs[i].buf|, DataFor(evs, i)) && After(reqs, evs).reqs[i] == Left(reqs[i], evs, i)
  {
    DataFits(reqs, evs, i);
    if evs != [] {
      var k, ev := evs[..|evs| - 1], evs[|evs| - 1];
      OwnMessages(reqs, k, i);
      if ev.Data? && ev.index == i { DataStep(reqs, evs, i); } else { DoneStep(reqs[i], evs, i); }
    }
  }

  lemma OvertakenReads(r: Req, evs: seq<Event>, i: nat)
    requires Fresh(r) && AllInRange(|r.buf|, DataFor(evs, i)) && Overtaken(evs, i)
    ensures ErrorOf(evs, i) != Success && Left(r, evs, i).nread > 0
  {
    var k: nat :| Late(evs, i, k);
    ErrorComes(evs, i);
    DataAmong(evs, i, evs[k].chunk);
    CoverageOf(r, DataFor(evs, i));
    SpansFilled(|r.buf|, DataFor(evs, i), DeliveredAll(r, DataFor(evs, i)).begin, DeliveredAll(r, DataFor(evs, i)).end);
  }

  /** The data first and the error on top of it is what is left, if and only if no data overtakes
      the error: otherwise the request reports bytes read together with the error. */
  lemma InTimeExactly(reqs: seq<Req>, evs: seq<Event>, i: nat)
    requires Fitting(reqs, evs) && i < |reqs| && Fresh(reqs[i])
    ensures AllInRange(|reqs[i].buf|, DataFor(evs, i))
    ensures After(reqs, evs).reqs[i] == Completed(DeliveredAll(reqs[i], DataFor(evs, i)), ErrorOf(evs, i)) <==>
      !Overtaken(evs, i)
  {
    OwnMessages(reqs, evs, i);
    if Overtaken(evs, i) { OvertakenReads(reqs[i], evs, i); }
  }

  /** The completion of request i is the last message for it. */
  ghost predicate Final(evs: seq<Event>, i: nat) {
    forall j, k :: 0 <= j < k < |evs| && evs[j].Done? && evs[j].index == i ==> evs[k].index != i
  }

  lemma FinalInTime(evs: seq<Event>, i: nat)
    requires Final(evs, i)
    ensures !Overtaken(evs, i)
  {
  }

  /** Two interleavings of the same messages leave the same requests, whichever order the data of a
      request comes in and whichever error it completes with, if no data overtakes an error. */
  lemma AnyInterleaving(reqs: seq<Req>, evs: seq<Event>, evs': seq<Event>)
    requires Fitting(reqs, evs) && Fitting(reqs, evs')
    requires forall i :: 0 <= i < |reqs| ==> Fresh(reqs[i]) && Disjoint(DataFor(evs, i)) && Disjoint(DataFor(evs', i))
    requires forall i, c :: 0 <= i < |reqs| ==> (c in DataFor(evs, i) <==> c in DataFor(evs', i))
    requires forall i :: 0 <= i < |reqs| ==> ErrorOf(evs, i) == ErrorOf(evs', i)
    requires forall i :: 0 <= i < |reqs| ==> !Overtaken(evs, i) && !Overtaken(evs', i)
    ensures After(reqs, evs).reqs == After(reqs, evs').reqs
  {
    var x, y := After(reqs, evs).reqs, After(reqs, evs').reqs;
    forall i | 0 <= i < |reqs| ensures x[i] == y[i] {
      OwnMessages(reqs, evs, i);
      OwnMessages(reqs, evs', i);
      AnyOrder(reqs[i], DataFor(evs, i), DataFor(evs', i));
    }
  }

  /** What a message for it makes of a request. */
  function Handled(r: Req, ev: Event): Req
    requires ev.Data? ==> InRange(|r.buf|, ev.chunk)
  {
    match ev
    case Data(_, c) => Delivered(r, c)
    case Done(_, error) => Completed(r, error)
  }

  lemma TwoMessages(r: Req, ev: Event, next: Event)
    requires ev.index == 0 && next.index == 0 && (ev.Data? ==> InRange(|r.buf|, ev.chunk))
    requires next.Data? ==> InRange(|r.buf|, next.chunk)
    ensures Fitting([r], [ev, next]) && |Handled(r, ev).buf| == |r.buf|
    ensures After([r], [ev, next]).reqs == [Handled(Handled(r, ev), next)]
  {
    var one, two := [ev], [ev, next];
    assert one[..0] == [] && two[..1] == one;
    assert After([r], one).reqs == [Handled(r, ev)];
  }

  /** The order matters otherwise: one byte and an error, in either order. */
  lemma OrderMatters(r: Req, b: Byte, error: Code)
    requires Fresh(r) && error != Success
    ensures
      var data, done := Data(0, Chunk(0, [b])), Done(0, error);
      && Fitting([r], [data, done]) && Fitting([r], [done, data])
      && After([r], [data, done]).reqs[0].nread == 0 && After([r], [done, data]).reqs[0].nread == 1
  {
    TwoMessages(r, Data(0, Chunk(0, [b])), Done(0, error));
    TwoMessages(r, Done(0, error), Data(0, Chunk(0, [b])));
  }

  // ---------- the end of the multi-read ----------

  ghost predicate HasDone(evs: seq<Event>, i: nat) { exists k :: 0 <= k < |evs| && evs[k].Done? && evs[k].index == i }

  ghost function Ready(evs: seq<Event>, n: nat): set<nat> { set i: nat | i < n && HasDone(evs, i) }

  ghost predicate AllDone(evs: seq<Event>, n: nat) { forall i: nat :: i < n ==> HasDone(evs, i) }

  lemma DoneGrows(evs: seq<Event>, i: nat)
    requires evs != []
    ensures var ev := evs[|evs| - 1];
      HasDone(evs, i) <==> HasDone(evs[..|evs| - 1], i) || (ev.Done? && ev.index == i)
  {
    var n := |evs| - 1;
    if k :| 0 <= k < n && evs[k].Done? && evs[k].index == i { assert evs[..n][k].index == i; }
    if k :| 0 <= k < n && evs[..n][k].Done? && evs[..n][k].index == i { assert evs[k].index == i; }
  }

  lemma ReadyGrows(evs: seq<Event>, n: nat)
    requires evs != [] && forall i: nat :: i < n ==> Final(evs, i)
    ensures
      var rest, ev := evs[..|evs| - 1], evs[|evs| - 1];
      && Ready(evs, n) == (if ev.Done? && ev.index < n then Ready(rest, n) + {ev.index} else Ready(rest, n))
      && (ev.Done? && ev.index < n ==> ev.index !in Ready(rest, n))
  {
    forall i: nat ensures HasDone(evs, i) <==>
      HasDone(evs[..|evs| - 1], i) || (evs[|evs| - 1].Done? && evs[|evs| - 1].index == i) {
      DoneGrows(evs, i);
    }
    var ev := evs[|evs| - 1];
    if ev.Done? && ev.index < n { FinalOnce(evs, ev.index); }
  }

  lemma FinalOnce(evs: seq<Event>, i: nat)
    requires evs != [] && evs[|evs| - 1].index == i && Final(evs, i)
    ensures !HasDone(evs[..|evs| - 1], i)
  {
    var rest := evs[..|evs| - 1];
    forall k | 0 <= k < |rest| && rest[k].Done? ensures rest[k].index != i {
      assert rest[k] == evs[k];
    }
  }

  lemma {:induction false} CountOf(reqs: seq<Req>, evs: seq<Event>)
    requires Fitting(reqs, evs) && forall i: nat :: i < |reqs| ==> Final(evs, i)
    ensures After(reqs, evs).complete == |Ready(evs, |reqs|)|
  {
    if evs == [] {
      assert Ready(evs, |reqs|) == {};
    } else {
      var rest := evs[..|evs| - 1];
      forall i: nat | i < |reqs| ensures Final(rest, i) {
        assert forall j :: 0 <= j < |rest| ==> rest[j] == evs[j];
        assert Final(evs, i);
      }
      CountOf(reqs, rest);
      ReadyGrows(evs, |reqs|);
    }
  }

  lemma SubsetSize(a: set<nat>, b: set<nat>)
    requires a <= b
    ensures |a| <= |b| && (|a| == |b| ==> a == b)
  {
    assert b == a + (b - a);
  }

  /** The wait loop sees the end exactly when every request has completed, in any order. */
  lemma CompleteExactly(reqs: seq<Req>, evs: seq<Event>)
    requires Fitting(reqs, evs) && forall i: nat :: i < |reqs| ==> Final(evs, i)
    ensures After(reqs, evs).complete == |reqs| <==> AllDone(evs, |reqs|)
  {
    var n := |reqs|;
    CountOf(reqs, evs);
    SubsetSize(Ready(evs, n), UpTo(n));
    if AllDone(evs, n) { assert Ready(evs, n) == UpTo(n); }
    if Ready(evs, n) == UpTo(n) {
      forall i: nat | i < n ensures HasDone(evs, i) {
        assert i in Ready(evs, n);
      }
    }
  }

  /** The end of process_gfid_reads: if the wait was in vain, requests without a code have timed out;
      then all are checked against the file size. */
  function Reported(st: Status, i: nat, size: Size): Req
    requires i < |st.reqs| && Checkable(st.reqs[i])
  {
    Finished(TimedOutIf(st.complete != |st.reqs|, st.reqs[i]), size)
  }

  function TimedOutIf(late: bool, r: Req): Req { if late && r.code == InProgress then r.(code := TimedOut) else r }

  /** The requests that have no code yet. */
  function StillWaiting(rs: seq<Req>): nat {
    if rs == [] then 0
    else StillWaiting(rs[..|rs| - 1]) + if rs[|rs| - 1].code == InProgress then 1 else 0
  }

  /** They are counted one by one. */
  lemma {:induction false} WaitingCount(rs: seq<Req>)
    ensures StillWaiting(rs) == |set i: nat | i < |rs| && rs[i].code == InProgress|
  {
    var waiting := set i: nat | i < |rs| && rs[i].code == InProgress;
    if rs == [] {
      assert waiting == {};
    } else {
      var n, k := |rs| - 1, rs[..|rs| - 1];
      var before := set i: nat | i < |k| && k[i].code == InProgress;
      WaitingCount(k);
      assert waiting == if rs[n].code == InProgress then before + {n} else before;
    }
  }

  ghost predicate HasFailed(evs: seq<Event>, i: nat) { exists k :: 0 <= k < |evs| && Fails(evs[k], i) }

  ghost function Failing(evs: seq<Event>, n: nat): set<nat> { set i: nat | i < n && HasFailed(evs, i) }

  lemma FailedGrows(evs: seq<Event>, i: nat)
    requires evs != []
    ensures HasFailed(evs, i) <==> HasFailed(evs[..|evs| - 1], i) || Fails(evs[|evs| - 1], i)
  {
    var n := |evs| - 1;
    if k :| 0 <= k < n && Fails(evs[k], i) { assert Fails(evs[..n][k], i); }
    if k :| 0 <= k < n && Fails(evs[..n][k], i) { assert Fails(evs[k], i); }
  }

  /** The errors of a multi-read are the requests that completed with one. */
  lemma {:induction false} ErrorCount(reqs: seq<Req>, evs: seq<Event>)
    requires Fitting(reqs, evs) && forall i: nat :: i < |reqs| ==> Final(evs, i)
    ensures After(reqs, evs).errors == |Failing(evs, |reqs|)|
  {
    if evs == [] {
      assert Failing(evs, |reqs|) == {};
    } else {
      var rest, ev := evs[..|evs| - 1], evs[|evs| - 1];
      forall i: nat | i < |reqs| ensures Final(rest, i) {
        assert forall j :: 0 <= j < |rest| ==> rest[j] == evs[j];
        assert Final(evs, i);
      }
      ErrorCount(reqs, rest);
      forall i: nat ensures HasFailed(evs, i) <==> HasFailed(rest, i) || Fails(ev, i) {
        FailedGrows(evs, i);
      }
      if ev.index < |reqs| && Fails(ev, ev.index) {
        FinalOnce(evs, ev.index);
        assert !HasFailed(rest, ev.index) && Failing(evs, |reqs|) == Failing(rest, |reqs|) + {ev.index};
      } else {
        assert Failing(evs, |reqs|) == Failing(rest, |reqs|);
      }
    }
  }

  predicate Checkable(r: Req) { 0 <= r.nread <= r.length == |r.buf| && -1 <= r.begin <= r.length }

  /** All requests are new, and the completion of each is the last message for it. */
  ghost predicate Proper(reqs: seq<Req>, evs: seq<Event>) {
    Fitting(reqs, evs) && forall i: nat :: i < |reqs| ==> Fresh(reqs[i]) && Final(evs, i)
  }

  lemma LeftInTime(reqs: seq<Req>, evs: seq<Event>, i: nat)
    requires Proper(reqs, evs) && i < |reqs|
    ensures Fresh(reqs[i]) && AllInRange(|reqs[i].buf|, DataFor(evs, i)) && Checkable(After(reqs, evs).reqs[i])
    ensures After(reqs, evs).reqs[i] == Completed(DeliveredAll(reqs[i], DataFor(evs, i)), ErrorOf(evs, i))
  {
    OwnMessages(reqs, evs, i);
    FinalInTime(evs, i);
    Received(reqs[i], DataFor(evs, i));
  }

  /** Messages leave every request as the final check wants it. */
  lemma AlwaysCheckable(reqs: seq<Req>, evs: seq<Event>, i: nat)
    requires Fitting(reqs, evs) && i < |reqs| && Fresh(reqs[i])
    ensures Checkable(After(reqs, evs).reqs[i])
  {
    OwnMessages(reqs, evs, i);
    Received(reqs[i], DataFor(evs, i));
  }

  /** When all requests have completed, the caller gets of each what its own messages and the file
      size give: the result of the POSIX read if the zeros of the client are right. */
  lemma AllReported(reqs: seq<Req>, evs: seq<Event>, i: nat, size: nat)
    requires Proper(reqs, evs) && i < |reqs| && AllDone(evs, |reqs|)
    ensures Fresh(reqs[i]) && AllInRange(|reqs[i].buf|, DataFor(evs, i)) && Checkable(After(reqs, evs).reqs[i])
    ensures
      var cs, error, got := DataFor(evs, i), ErrorOf(evs, i), Reported(After(reqs, evs), i, Known(size));
      && got == Finish(reqs[i], cs, error, size)
      && (Disjoint(cs) && Consistent(reqs[i], cs, size) && ZerosRight(reqs[i].length, cs, error) ==>
            Posix(reqs[i], cs, size, got))
  {
    var cs, error := DataFor(evs, i), ErrorOf(evs, i);
    LeftInTime(reqs, evs, i);
    CompleteExactly(reqs, evs);
    if Disjoint(cs) && Consistent(reqs[i], cs, size) && ZerosRight(reqs[i].length, cs, error) {
      PosixIfFilled(reqs[i], cs, error, size);
    }
  }

  predicate Waiting(error: Code) { error == Success || error == InProgress }

  /** A request is reported as timed out if and only if some request has not completed and it has no
      error itself: that includes every one that has completed without an error. */
  lemma TimedOutExactly(reqs: seq<Req>, evs: seq<Event>, i: nat, size: Size)
    requires Proper(reqs, evs) && i < |reqs|
    ensures Checkable(After(reqs, evs).reqs[i])
    ensures Reported(After(reqs, evs), i, size).code == TimedOut <==>
      ErrorOf(evs, i) == TimedOut || (Waiting(ErrorOf(evs, i)) && !AllDone(evs, |reqs|))
  {
    LeftInTime(reqs, evs, i);
    CompleteExactly(reqs, evs);
  }

  /** Two requests, of which the first has completed and the second has not: the first one is
      reported as timed out as well. */
  lemma LostCompletion(reqs: seq<Req>, evs: seq<Event>, size: Size)
    requires |reqs| == 2 && Fresh(reqs[0]) && Fresh(reqs[1]) && evs == [Done(0, Success)]
    ensures Fitting(reqs, evs) && HasDone(evs, 0) && Checkable(After(reqs, evs).reqs[0])
    ensures Reported(After(reqs, evs), 0, size).code == TimedOut
  {
    assert evs[0].Done? && !HasDone(evs, 1);
    assert !AllDone(evs, 2);
    ErrorComes(evs, 0);
    TimedOutExactly(reqs, evs, 0, size);
  }

  /** client_mread_status, with its requests. */
  class MultiRead {
    const reqs: seq<ReadReq>
    var complete: nat
    var errors: nat

    ghost predicate Valid()
      reads this, reqs
    {
      && (forall i :: 0 <= i < |reqs| ==> reqs[i].Valid() && reqs[i].length < SIZES)
      && (forall i, j :: 0 <= i < j < |reqs| ==> reqs[i] != reqs[j] && reqs[i].buf != reqs[j].buf)
    }

    ghost function Abs(): Status
      reads this, reqs, Bufs(reqs)
    {
      Status(seq(|reqs|, i requires 0 <= i < |reqs| reads reqs, Bufs(reqs) => reqs[i].Abs()), complete, errors)
    }

    constructor (rs: seq<ReadReq>)
      requires forall i :: 0 <= i < |rs| ==> rs[i].Valid() && rs[i].length < SIZES && Fresh(rs[i].Abs())
      requires forall i, j :: 0 <= i < j < |rs| ==> rs[i] != rs[j] && rs[i].buf != rs[j].buf
      ensures Valid() && reqs == rs && Abs() == After(Abs().reqs, [])
    {
      reqs, complete, errors := rs, 0, 0;
    }

    /** client_update_mread_request for a completion. */
    method Update(index: nat, error: Code) returns (ok: bool)
      requires Valid()
      modifies this`complete, this`errors, reqs`nread, reqs`errcode
      ensures Valid() && (ok <==> index < |reqs|) && Abs() == Updated(old(Abs()), Done(index, error))
    {
      if index >= |reqs| { return false; }
      complete := complete + 1;
      if error != Success { errors := errors + 1; }
      reqs[index].Complete(error);
      return true;
    }

    /** A data message, for a request there is. One from behind the end of the buffer leaves a request
        that says it has read more than it asks for. */
    method Deliver(index: nat, at: nat, data: seq<Byte>, pulls: nat) returns (receipt: Receipt)
      requires Valid() && index < |reqs| && at < SIZES
      modifies reqs`begin, reqs`end, reqs`nread, Bufs(reqs)
      ensures Valid() <==> receipt != Behind
      ensures complete == old(complete) && errors == old(errors)
      ensures receipt == Refused || (receipt == Unpulled && at > reqs[index].length) || data == [] ==>
        Abs() == old(Abs())
      ensures receipt == Stored && data != [] ==>
        InRange(reqs[index].length, Chunk(at, data)) && |old(Abs()).reqs[index].buf| == reqs[index].length
      ensures receipt == Stored && data != [] ==> Abs() == Updated(old(Abs()), Data(index, Chunk(at, data)))
      ensures InRange(reqs[index].length, Chunk(at, data)) && |data| <= pulls * MAX_BULK ==> receipt == Stored
      ensures receipt == Unpulled && at <= reqs[index].length ==>
        var r := old(Abs()).reqs[index];
        && pulls * MAX_BULK <= |data| && at + pulls * MAX_BULK <= |r.buf|
        && Abs().reqs ==
             old(Abs()).reqs[index := r.(buf := Placed(r.buf, Chunk(at, data[..pulls * MAX_BULK])))]
      ensures receipt == Behind ==>
        && data != [] && reqs[index].nread > reqs[index].length
        && Abs().reqs == old(Abs()).reqs[index := Covered(old(Abs()).reqs[index], at, |data|)]
    {
      SpaceIs(reqs[index].length, at);
      receipt := reqs[index].Receive(at, data, pulls);
    }

    /** Messages of the server, one after the other. */
    method Exchange(evs: seq<Event>)
      requires Valid() && complete == 0 && errors == 0 && Fitting(Abs().reqs, evs)
      modifies this`complete, this`errors, reqs`begin, reqs`end, reqs`nread, reqs`errcode, Bufs(reqs)
      ensures Valid() && Abs() == After(old(Abs()).reqs, evs)
    {
      for k := 0 to |evs|
        modifies this`complete, this`errors, reqs`begin, reqs`end, reqs`nread, reqs`errcode, Bufs(reqs)
        invariant Valid() && Abs() == After(old(Abs()).reqs, evs[..k])
      {
        assert evs[..k + 1][..k] == evs[..k];
        Step(evs[k]);
      }
      assert evs[..|evs|] == evs;
    }

    method Step(ev: Event)
      requires Valid() && (ev.Data? ==> ev.index < |reqs| && InRange(reqs[ev.index].length, ev.chunk))
      modifies this`complete, this`errors, reqs`begin, reqs`end, reqs`nread, reqs`errcode, Bufs(reqs)
      ensures Valid() && (ev.Data? ==> InRange(|old(Abs()).reqs[ev.index].buf|, ev.chunk))
      ensures Abs() == Updated(old(Abs()), ev)
    {
      match ev
      case Data(i, c) => var receipt := Deliver(i, c.at, c.data, |c.data|);
      case Done(i, error) => var ok := Update(i, error);
    }

    /** The end of process_gfid_reads. Requests that time out are errors, too. */
    method Conclude(sizes: seq<Size>)
      requires Valid() && |sizes| == |reqs|
      modifies this`errors, reqs`nread, reqs`errcode, Bufs(reqs)
      ensures Valid() && complete == old(complete)
      ensures errors == old(errors) + if complete != |reqs| then StillWaiting(old(Abs()).reqs) else 0
      ensures forall i :: 0 <= i < |reqs| ==>
        Checkable(old(Abs()).reqs[i]) && Abs().reqs[i] == Reported(old(Abs()), i, sizes[i])
    {
      if complete != |reqs| { TimeOut(); }
      CheckAll(sizes);
    }

    /** The final check of all requests. */
    method CheckAll(sizes: seq<Size>)
      requires Valid() && |sizes| == |reqs|
      modifies reqs`nread, reqs`errcode, Bufs(reqs)
      ensures Valid() && forall i :: 0 <= i < |reqs| ==>
        Checkable(old(Abs()).reqs[i]) && Abs().reqs[i] == Finished(old(Abs()).reqs[i], sizes[i])
    {
      ghost var was := Abs().reqs;
      for k := 0 to |reqs|
        modifies reqs`nread, reqs`errcode, Bufs(reqs)
        invariant Valid()
        invariant forall i :: 0 <= i < k ==> Checkable(was[i]) && Abs().reqs[i] == Finished(was[i], sizes[i])
        invariant forall i :: k <= i < |reqs| ==> Abs().reqs[i] == was[i]
      {
        FinishAt(k, sizes[k]);
      }
    }

    /** The final check of one request; the others stay as they are. */
    method FinishAt(k: nat, size: Size)
      requires Valid() && k < |reqs|
      modifies reqs`nread, reqs`errcode, Bufs(reqs)
      ensures Valid() && Checkable(old(Abs()).reqs[k])
      ensures Abs().reqs == old(Abs()).reqs[k := Finished(old(Abs()).reqs[k], size)]
    {
      reqs[k].Finish(size);
    }

    /** Requests without a code have timed out. */
    method TimeOut()
      requires Valid()
      modifies this`errors, reqs`errcode
      ensures Valid() && errors == old(errors) + StillWaiting(old(Abs()).reqs)
      ensures forall i :: 0 <= i < |reqs| ==> Abs().reqs[i] == TimedOutIf(true, old(Abs()).reqs[i])
    {
      ghost var was := Abs().reqs;
      for k := 0 to |reqs|
        modifies this`errors, reqs`errcode
        invariant Valid() && errors == old(errors) + StillWaiting(was[..k])
        invariant forall i :: 0 <= i < |reqs| ==> Abs().reqs[i] == TimedOutIf(i < k, was[i])
      {
        assert was[..k + 1][..k] == was[..k];
        TimeOutAt(k);
      }
      assert was[..|reqs|] == was;
    }

    method TimeOutAt(k: nat)
      requires Valid() && k < |reqs|
      modifies this`errors, reqs`errcode
      ensures Valid() && Abs().reqs == old(Abs()).reqs[k := TimedOutIf(true, old(Abs()).reqs[k])]
      ensures errors == old(errors) + if old(Abs()).reqs[k].code == InProgress then 1 else 0
    {
      if reqs[k].errcode == InProgress {
        reqs[k].errcode := TimedOut;
        errors := errors + 1;
      }
    }

    /** The rpc that asks the server fails: so do all requests. */
    method Fail(error: Code)
      requires Valid()
      modifies reqs`errcode
      ensures Valid() && forall i :: 0 <= i < |reqs| ==> Abs().reqs[i] == old(Abs()).reqs[i].(code := error)
    {
      ghost var was := Abs().reqs;
      for k := 0 to |reqs|
        modifies reqs`errcode
        invariant Valid()
        invariant forall i :: 0 <= i < |reqs| ==> Abs().reqs[i] == if i < k then was[i].(code := error) else was[i]
      {
        FailAt(k, error);
      }
    }

    method FailAt(k: nat, error: Code)
      requires Valid() && k < |reqs|
      modifies reqs`errcode
      ensures Valid() && Abs().reqs == old(Abs()).reqs[k := old(Abs()).reqs[k].(code := error)]
    {
      reqs[k].errcode := error;
    }
  }
}
