/** One read request: the data messages of the server fill its buffer in any order, and when all is
    in, the result is completed from the file size. */
module ReadRequest {
  import opened Common

  const MAX_BULK := 8388608

  datatype Code = InProgress | Success | NoData | NoEntry | TimedOut | Error(code: int)

  datatype Size = Unknown | Known(bytes: nat)

  /** The numbers of a size_t. */
  const SIZES := 0x1_0000_0000_0000_0000

  /** What becomes of a data message. Behind: it was written behind the end of the buffer. */
  datatype Receipt = Stored | Refused | Unpulled | Behind

  /** begin and end are the first and last byte of the buffer with data, -1 before there are any. */
  datatype Req = Req(offset: nat, length: nat, buf: seq<Byte>, begin: int, end: int, nread: int, code: Code)

  /** Data for the buffer from byte at on. */
  datatype Chunk = Chunk(at: nat, data: seq<Byte>)

  /** The bytes from at on that a buffer of n bytes has, in 64 bits. */
  function Space(n: nat, at: nat): nat { (n - at) % SIZES }

  lemma SpaceIs(n: nat, at: nat)
    requires n < SIZES && at < SIZES
    ensures Space(n, at) == if at <= n then n - at else SIZES + n - at
  {
  }

  ghost predicate Fresh(r: Req) {
    r.length > 0 && |r.buf| == r.length && r.begin == -1 && r.end == -1 && r.nread == 0 && r.code == InProgress
  }

  predicate InRange(n: nat, c: Chunk) { c.data != [] && c.at + |c.data| <= n }

  predicate Fills(c: Chunk, i: int) { c.at <= i < c.at + |c.data| }

  function Placed(buf: seq<Byte>, c: Chunk): seq<Byte>
    requires c.at + |c.data| <= |buf|
  {
    buf[..c.at] + c.data + buf[c.at + |c.data|..]
  }

  lemma PlacedAt(buf: seq<Byte>, c: Chunk)
    requires c.at + |c.data| <= |buf|
    ensures |Placed(buf, c)| == |buf|
    ensures forall i :: 0 <= i < |buf| ==> Placed(buf, c)[i] == if Fills(c, i) then c.data[i - c.at] else buf[i]
  {
  }

  /** update_read_req_coverage */
  function Covered(r: Req, at: nat, len: nat): Req
    requires len > 0
  {
    var e := at + len - 1;
    var r1 := if r.begin == -1 || at < r.begin then r.(begin := at) else r;
    if r1.end == -1 || e > r1.end then r1.(end := e, nread := e + 1) else r1
  }

  function Delivered(r: Req, c: Chunk): Req
    requires InRange(|r.buf|, c)
  {
    Covered(r.(buf := Placed(r.buf, c)), c.at, |c.data|)
  }

  ghost predicate AllInRange(n: nat, cs: seq<Chunk>) { forall k :: 0 <= k < |cs| ==> InRange(n, cs[k]) }

  function DeliveredAll(r: Req, cs: seq<Chunk>): (r1: Req)
    requires AllInRange(|r.buf|, cs)
    ensures |r1.buf| == |r.buf| && r1.offset == r.offset && r1.length == r.length && r1.code == r.code
  {
    if cs == [] then r
    else
      var r1 := DeliveredAll(r, cs[..|cs| - 1]);
      PlacedAt(r1.buf, cs[|cs| - 1]);
      Delivered(r1, cs[|cs| - 1])
  }

  /** Some message has byte i of the buffer. */
  ghost predicate Filled(cs: seq<Chunk>, i: int) { exists k :: 0 <= k < |cs| && Fills(cs[k], i) }

  /** No two messages have the same byte. */
  ghost predicate Disjoint(cs: seq<Chunk>) {
    forall j, k, i :: 0 <= j < |cs| && 0 <= k < |cs| && Fills(cs[j], i) && Fills(cs[k], i) ==> j == k
  }

  /** In every order of disjoint messages, the buffer has their bytes and nothing else has changed. */
  lemma {:induction false} BufferOf(r: Req, cs: seq<Chunk>, i: nat)
    requires AllInRange(|r.buf|, cs) && Disjoint(cs) && i < |r.buf|
    ensures forall k :: 0 <= k < |cs| && Fills(cs[k], i) ==> DeliveredAll(r, cs).buf[i] == cs[k].data[i - cs[k].at]
    ensures !Filled(cs, i) ==> DeliveredAll(r, cs).buf[i] == r.buf[i]
  {
    if cs != [] {
      var n := |cs| - 1;
      var k := cs[..n];
      assert forall j :: 0 <= j < n ==> k[j] == cs[j];
      BufferOf(r, k, i);
      PlacedAt(DeliveredAll(r, k).buf, cs[n]);
      assert Filled(k, i) ==> Filled(cs, i);
    }
  }

  /** The coverage is the least and the greatest byte of all messages. */
  ghost predicate Spans(cs: seq<Chunk>, b: int, e: int) {
    if cs == [] then b == -1 && e == -1
    else
      && (forall k :: 0 <= k < |cs| ==> b <= cs[k].at && cs[k].at + |cs[k].data| - 1 <= e)
      && (exists k :: 0 <= k < |cs| && cs[k].at == b)
      && (exists k :: 0 <= k < |cs| && cs[k].at + |cs[k].data| - 1 == e)
  }

  lemma {:induction false} CoverageOf(r: Req, cs: seq<Chunk>)
    requires Fresh(r) && AllInRange(|r.buf|, cs)
    ensures var r1 := DeliveredAll(r, cs); Spans(cs, r1.begin, r1.end) && r1.nread == r1.end + 1
  {
    if cs != [] {
      var n := |cs| - 1;
      var k, c := cs[..n], cs[n];
      CoverageOf(r, k);
      var r0, r1 := DeliveredAll(r, k), DeliveredAll(r, cs);
      assert forall i :: 0 <= i < n ==> k[i] == cs[i];
      if k != [] {
        var i :| 0 <= i < |k| && k[i].at == r0.begin;
        var j :| 0 <= j < |k| && k[j].at + |k[j].data| - 1 == r0.end;
        assert cs[i].at == r0.begin && cs[j].at + |cs[j].data| - 1 == r0.end;
      }
      assert r1.begin == (if r0.begin == -1 || c.at < r0.begin then c.at else r0.begin);
      assert cs[n].at == c.at;
    }
  }

  lemma SpansFilled(n: nat, cs: seq<Chunk>, b: int, e: int)
    requires AllInRange(n, cs) && Spans(cs, b, e)
    ensures cs != [] ==> 0 <= b <= e < n && Filled(cs, b) && Filled(cs, e)
    ensures forall i :: Filled(cs, i) ==> cs != [] && b <= i <= e
  {
    if cs != [] {
      var j :| 0 <= j < |cs| && cs[j].at == b;
      assert InRange(n, cs[j]) && Fills(cs[j], b);
      var k :| 0 <= k < |cs| && cs[k].at + |cs[k].data| - 1 == e;
      assert InRange(n, cs[k]) && Fills(cs[k], e);
    }
  }

  lemma SpansUnique(n: nat, cs: seq<Chunk>, ds: seq<Chunk>, b: int, e: int, b': int, e': int)
    requires AllInRange(n, cs) && AllInRange(n, ds) && Spans(cs, b, e) && Spans(ds, b', e')
    requires forall c :: c in cs <==> c in ds
    ensures b == b' && e == e'
  {
    if cs == [] {
      if ds != [] { var k := Where(cs, ds[0]); }
    } else {
      assert cs[0] in ds;
      var j :| 0 <= j < |cs| && cs[j].at == b;
      var k :| 0 <= k < |cs| && cs[k].at + |cs[k].data| - 1 == e;
      assert cs[j] in ds && cs[k] in ds;
      var j' :| 0 <= j' < |ds| && ds[j'].at == b';
      var k' :| 0 <= k' < |ds| && ds[k'].at + |ds[k'].data| - 1 == e';
      assert ds[j'] in cs && ds[k'] in cs;
    }
  }

  /** The messages of a request can come in any order. */
  lemma AnyOrder(r: Req, cs: seq<Chunk>, ds: seq<Chunk>)
    requires Fresh(r) && AllInRange(|r.buf|, cs) && AllInRange(|r.buf|, ds) && Disjoint(cs) && Disjoint(ds)
    requires forall c :: c in cs <==> c in ds
    ensures DeliveredAll(r, cs) == DeliveredAll(r, ds)
  {
    var x, y := DeliveredAll(r, cs), DeliveredAll(r, ds);
    CoverageOf(r, cs);
    CoverageOf(r, ds);
    SpansUnique(|r.buf|, cs, ds, x.begin, x.end, y.begin, y.end);
    forall i | 0 <= i < |r.buf| ensures x.buf[i] == y.buf[i] {
      SameByte(r, cs, ds, i);
    }
    assert x.buf == y.buf;
  }

  lemma SameByte(r: Req, cs: seq<Chunk>, ds: seq<Chunk>, i: nat)
    requires AllInRange(|r.buf|, cs) && AllInRange(|r.buf|, ds) && Disjoint(cs) && Disjoint(ds) && i < |r.buf|
    requires forall c :: c in cs <==> c in ds
    ensures DeliveredAll(r, cs).buf[i] == DeliveredAll(r, ds).buf[i]
  {
    BufferOf(r, cs, i);
    BufferOf(r, ds, i);
    if k :| 0 <= k < |cs| && Fills(cs[k], i) {
      var j := Where(ds, cs[k]);
      assert Fills(ds[j], i);
    } else if Filled(ds, i) {
      var k :| 0 <= k < |ds| && Fills(ds[k], i);
      var j := Where(cs, ds[k]);
      assert false;
    }
  }

  lemma Where(cs: seq<Chunk>, c: Chunk) returns (k: nat)
    requires c in cs
    ensures k < |cs| && cs[k] == c
  {
    k :| 0 <= k < |cs| && cs[k] == c;
  }

  // ---------- completion ----------

  function Zeroed(buf: seq<Byte>, from: nat, n: nat): seq<Byte>
    requires from + n <= |buf|
  {
    Placed(buf, Chunk(from, seq(n, i => 0)))
  }

  /** What the completion message leaves: with an error, nothing counts as read. */
  function Completed(r: Req, error: Code): Req { if error == Success then r else r.(nread := 0, code := error) }

  /** Errors that end the read; after the others it goes on as a read that found no data. */
  predicate Fatal(error: Code) { error != Success && error != NoData && error != InProgress }

  /** A request the final check can be made of: it fills nothing behind the end of the buffer. */
  predicate Ended(r: Req, size: Size) {
    && 0 <= r.nread && r.length == |r.buf| && (r.nread == r.length ==> -1 <= r.begin <= r.length)
    && (r.nread <= r.length || size == Unknown || size.bytes <= r.offset + r.nread)
  }

  /** update_read_req_result */
  function Finished(r: Req, size: Size): Req
    requires Ended(r, size)
  {
    var r := if r.code == InProgress then r.(code := Success) else r;
    if r.code != Success && r.code != NoData then r
    else if r.nread == r.length then
      if r.begin > 0 then r.(buf := Zeroed(r.buf, 0, r.begin), code := Success) else r
    else if size == Unknown then r.(code := NoEntry)
    else FilledUp(r, size.bytes)
  }

  /** A short read: zeros up to the end of the request or of the file. */
  function FilledUp(r: Req, size: nat): Req
    requires 0 <= r.nread && r.length == |r.buf| && (r.nread <= r.length || size <= r.offset + r.nread)
  {
    if size <= r.offset then r.(nread := 0, code := Success)
    else if size > r.offset + r.nread then WithZeros(r, Gap(r, size))
    else r
  }

  lemma FilledBounds(r: Req, size: nat)
    requires 0 <= r.nread && r.length == |r.buf| && (r.nread <= r.length || size <= r.offset + r.nread)
    ensures var got := FilledUp(r, size); got.begin == r.begin && got.end == r.end && 0 <= got.nread
    ensures r.nread <= r.length ==> FilledUp(r, size).nread <= r.length
  {
  }

  function Gap(r: Req, size: nat): nat
    requires 0 <= r.nread <= r.length && r.offset + r.nread < size
  {
    if r.offset + r.length > size then size - (r.offset + r.nread) else r.length - r.nread
  }

  /** A request with n more bytes read, all of them zero. */
  function WithZeros(r: Req, n: nat): Req
    requires 0 <= r.nread && r.nread + n <= |r.buf|
  {
    r.(buf := Zeroed(r.buf, r.nread, n), nread := r.nread + n, code := Success)
  }

  /** How many bytes of the request a file of that size has. */
  function Available(r: Req, size: nat): nat {
    if size <= r.offset then 0 else if size - r.offset < r.length then size - r.offset else r.length
  }

  /** What POSIX read() gives of a file of that size whose bytes are the messages, and zeros elsewhere. */
  ghost predicate Posix(r: Req, cs: seq<Chunk>, size: nat, got: Req)
    requires AllInRange(r.length, cs)
  {
    var n := Available(r, size);
    && got.code == Success && got.nread == n && |got.buf| == r.length
    && (forall i :: 0 <= i < n && !Filled(cs, i) ==> got.buf[i] == 0)
    && (forall k, i :: 0 <= k < |cs| && Fills(cs[k], i) ==> got.buf[i] == cs[k].data[i - cs[k].at])
  }

  /** The file is at least as long as the messages say. */
  ghost predicate Consistent(r: Req, cs: seq<Chunk>, size: nat) {
    forall k :: 0 <= k < |cs| ==> r.offset + cs[k].at + |cs[k].data| <= size
  }

  /** A byte without data that the client does not set to zero: it does so after the last message,
      and before the first one if the last one ends the request. */
  ghost predicate InGap(n: nat, cs: seq<Chunk>, i: nat) {
    && i < n && !Filled(cs, i)
    && (exists k :: 0 <= k < |cs| && i < cs[k].at + |cs[k].data|)
    && (Filled(cs, n - 1) ==> exists k :: 0 <= k < |cs| && cs[k].at <= i)
  }

  ghost predicate GapsFilled(n: nat, cs: seq<Chunk>) { forall i: nat :: !InGap(n, cs, i) }

  lemma ZeroedAt(buf: seq<Byte>, from: nat, n: nat)
    requires from + n <= |buf|
    ensures |Zeroed(buf, from, n)| == |buf|
    ensures forall i :: 0 <= i < |buf| ==> Zeroed(buf, from, n)[i] == if from <= i < from + n then 0 else buf[i]
  {
    PlacedAt(buf, Chunk(from, seq(n, i => 0)));
  }

  /** The state after all messages. */
  lemma Received(r: Req, cs: seq<Chunk>)
    requires Fresh(r) && AllInRange(r.length, cs)
    ensures
      var r1 := DeliveredAll(r, cs);
      && 0 <= r1.nread <= r1.length == |r1.buf| && -1 <= r1.begin <= r1.length && r1.nread == r1.end + 1
      && Spans(cs, r1.begin, r1.end)
  {
    CoverageOf(r, cs);
    SpansFilled(r.length, cs, DeliveredAll(r, cs).begin, DeliveredAll(r, cs).end);
  }

  /** The request after its messages, its completion and the final check against the file size. */
  function Finish(r: Req, cs: seq<Chunk>, error: Code, size: nat): Req
    requires Fresh(r) && AllInRange(r.length, cs)
  {
    Received(r, cs);
    Finished(Completed(DeliveredAll(r, cs), error), Known(size))
  }

  /** The bytes of the buffer that the final check sets to zero, n being those of the file. */
  predicate SetToZero(r1: Req, error: Code, n: nat, i: nat) {
    if error == Success then r1.nread <= i < n || (r1.nread == r1.length && i < r1.begin) else i < n
  }

  lemma EndInFile(r: Req, cs: seq<Chunk>, size: nat)
    requires Fresh(r) && AllInRange(r.length, cs) && Consistent(r, cs, size)
    ensures DeliveredAll(r, cs).nread <= Available(r, size)
  {
    Received(r, cs);
    var r1 := DeliveredAll(r, cs);
    if cs != [] {
      var k :| 0 <= k < |cs| && cs[k].at + |cs[k].data| - 1 == r1.end;
      assert r.offset + cs[k].at + |cs[k].data| <= size;
    }
  }

  /** The result has the bytes the file has, and the old buffer but for the zeros. */
  ghost predicate Ends(r1: Req, error: Code, n: nat, got: Req) {
    && got.code == Success && got.nread == n && |got.buf| == |r1.buf|
    && forall i :: 0 <= i < |r1.buf| ==> got.buf[i] == if SetToZero(r1, error, n, i) then 0 else r1.buf[i]
  }

  lemma CleanEnd(r1: Req, size: nat)
    requires 0 <= r1.nread <= Available(r1, size) && r1.length == |r1.buf| && -1 <= r1.begin <= r1.length &&
      r1.code == InProgress
    ensures Ends(r1, Success, Available(r1, size), Finished(r1, Known(size)))
  {
    var n := Available(r1, size);
    if r1.begin > 0 { ZeroedAt(r1.buf, 0, r1.begin); }
    if r1.nread < n { ZeroedAt(r1.buf, r1.nread, n - r1.nread); }
  }

  lemma EmptyEnd(r1: Req, error: Code, size: nat)
    requires 0 < r1.length == |r1.buf| && r1.begin <= r1.length && error != Success && !Fatal(error)
    ensures Ends(r1, error, Available(r1, size), Finished(Completed(r1, error), Known(size)))
  {
    ZeroedAt(r1.buf, 0, Available(r1, size));
  }

  /** What a caller gets, for every error of the completion: a fatal one is reported with nothing
      read; otherwise the read succeeds with the bytes the file has, and the buffer is as the
      messages left it, but for the zeros. After ENODATA these replace all data. */
  lemma FinishedBuffer(r: Req, cs: seq<Chunk>, error: Code, size: nat)
    requires Fresh(r) && AllInRange(r.length, cs) && Consistent(r, cs, size)
    ensures
      var r1, n, got := DeliveredAll(r, cs), Available(r, size), Finish(r, cs, error, size);
      if Fatal(error) then got == r1.(nread := 0, code := error)
      else Ends(r1, error, n, got) && 0 <= r1.nread <= n && |r1.buf| == r.length
  {
    Received(r, cs);
    EndInFile(r, cs, size);
    var r1 := DeliveredAll(r, cs);
    if error == Success { CleanEnd(r1, size); } else if !Fatal(error) { EmptyEnd(r1, error, size); }
  }

  ghost predicate NoBytes(cs: seq<Chunk>) {
    forall k, i :: 0 <= k < |cs| && 0 <= i < |cs[k].data| ==> cs[k].data[i] == 0
  }

  /** When the client's zeros are right: after a completion without error, they fill the gaps there
      are; after ENODATA, no message had a byte other than zero. */
  ghost predicate ZerosRight(n: nat, cs: seq<Chunk>, error: Code) {
    if error == Success then GapsFilled(n, cs) else !Fatal(error) && NoBytes(cs)
  }

  /** A byte that no message has is zero. */
  lemma HoleIsZero(r: Req, cs: seq<Chunk>, error: Code, size: nat, i: nat)
    requires Fresh(r) && AllInRange(r.length, cs) && Consistent(r, cs, size)
    requires ZerosRight(r.length, cs, error) && i < Available(r, size) && !Filled(cs, i)
    ensures var got := Finish(r, cs, error, size); |got.buf| == r.length && got.buf[i] == 0
  {
    var r1 := DeliveredAll(r, cs);
    FinishedBuffer(r, cs, error, size);
    Received(r, cs);
    SpansFilled(r.length, cs, r1.begin, r1.end);
    assert !InGap(r.length, cs, i) || error != Success;
  }

  /** A byte of a message is that byte. */
  lemma DataIsKept(r: Req, cs: seq<Chunk>, error: Code, size: nat, k: nat, i: nat)
    requires Fresh(r) && AllInRange(r.length, cs) && Disjoint(cs) && Consistent(r, cs, size)
    requires ZerosRight(r.length, cs, error) && k < |cs| && Fills(cs[k], i)
    ensures var got := Finish(r, cs, error, size); i < r.length == |got.buf| && got.buf[i] == cs[k].data[i - cs[k].at]
  {
    var r1 := DeliveredAll(r, cs);
    FinishedBuffer(r, cs, error, size);
    Received(r, cs);
    SpansFilled(r.length, cs, r1.begin, r1.end);
    assert InRange(r.length, cs[k]);
    BufferOf(r, cs, i);
    assert Filled(cs, i);
  }

  /** If the zeros are right, the result is that of POSIX. */
  lemma PosixIfFilled(r: Req, cs: seq<Chunk>, error: Code, size: nat)
    requires Fresh(r) && AllInRange(r.length, cs) && Disjoint(cs) && Consistent(r, cs, size)
    requires ZerosRight(r.length, cs, error)
    ensures Posix(r, cs, size, Finish(r, cs, error, size))
  {
    var got := Finish(r, cs, error, size);
    FinishedBuffer(r, cs, error, size);
    forall i | 0 <= i < Available(r, size) && !Filled(cs, i) ensures got.buf[i] == 0 {
      HoleIsZero(r, cs, error, size, i);
    }
    forall k, i | 0 <= k < |cs| && Fills(cs[k], i) ensures got.buf[i] == cs[k].data[i - cs[k].at] {
      DataIsKept(r, cs, error, size, k, i);
    }
  }

  /** The result is that of POSIX whatever was in the buffer before. */
  ghost predicate AlwaysPosix(r: Req, cs: seq<Chunk>, error: Code, size: nat)
    requires Fresh(r) && AllInRange(r.length, cs)
  {
    forall stale: seq<Byte> :: |stale| == r.length ==> Posix(r, cs, size, Finish(r.(buf := stale), cs, error, size))
  }

  /** Messages that leave a gap between them, or one at the beginning of a short read: the old
      content of the buffer stays there. */
  lemma GapKept(r: Req, cs: seq<Chunk>, size: nat, i: nat)
    requires Fresh(r) && AllInRange(r.length, cs) && Disjoint(cs) && Consistent(r, cs, size)
    requires InGap(r.length, cs, i)
    ensures var got := Finish(r, cs, Success, size); i < got.nread && |got.buf| == r.length && got.buf[i] == r.buf[i]
  {
    var r1 := DeliveredAll(r, cs);
    FinishedBuffer(r, cs, Success, size);
    EndInFile(r, cs, size);
    Received(r, cs);
    SpansFilled(r.length, cs, r1.begin, r1.end);
    BufferOf(r, cs, i);
  }

  lemma GapShows(r: Req, cs: seq<Chunk>, size: nat, i: nat)
    requires Fresh(r) && AllInRange(r.length, cs) && Disjoint(cs) && Consistent(r, cs, size)
    requires InGap(r.length, cs, i)
    ensures !AlwaysPosix(r, cs, Success, size)
  {
    var stale := seq(r.length, i => 1 as Byte);
    GapKept(r.(buf := stale), cs, size, i);
    assert !Posix(r, cs, size, Finish(r.(buf := stale), cs, Success, size));
  }

  /** ENODATA after data: the zeros replace it. */
  lemma DataLost(r: Req, cs: seq<Chunk>, error: Code, size: nat, k: nat, i: nat)
    requires Fresh(r) && AllInRange(r.length, cs) && Consistent(r, cs, size) && error != Success && !Fatal(error)
    requires k < |cs| && i < |cs[k].data| && cs[k].data[i] != 0
    ensures !Posix(r, cs, size, Finish(r, cs, error, size))
  {
    var at, got := cs[k].at + i, Finish(r, cs, error, size);
    FinishedBuffer(r, cs, error, size);
    assert InRange(r.length, cs[k]) && r.offset + cs[k].at + |cs[k].data| <= size;
    assert SetToZero(DeliveredAll(r, cs), error, Available(r, size), at);
    assert Fills(cs[k], at) && got.buf[at] != cs[k].data[at - cs[k].at];
  }

  lemma AtOnce(r: Req, cs: seq<Chunk>, error: Code, size: nat)
    requires Fresh(r) && AllInRange(r.length, cs) && AlwaysPosix(r, cs, error, size)
    ensures Posix(r, cs, size, Finish(r, cs, error, size))
  {
    assert r.(buf := r.buf) == r;
  }

  lemma PosixFilled(r: Req, cs: seq<Chunk>, error: Code, size: nat)
    requires Fresh(r) && AllInRange(r.length, cs) && Disjoint(cs) && Consistent(r, cs, size)
    requires ZerosRight(r.length, cs, error)
    ensures AlwaysPosix(r, cs, error, size)
  {
    forall stale: seq<Byte> | |stale| == r.length
      ensures Posix(r, cs, size, Finish(r.(buf := stale), cs, error, size)) {
      PosixIfFilled(r.(buf := stale), cs, error, size);
    }
  }

  lemma NotFilled(r: Req, cs: seq<Chunk>, size: nat)
    requires Fresh(r) && AllInRange(r.length, cs) && Disjoint(cs) && Consistent(r, cs, size) &&
      !GapsFilled(r.length, cs)
    ensures !AlwaysPosix(r, cs, Success, size)
  {
    var i: nat :| InGap(r.length, cs, i);
    GapShows(r, cs, size, i);
  }

  lemma Replaced(r: Req, cs: seq<Chunk>, error: Code, size: nat)
    requires Fresh(r) && AllInRange(r.length, cs) && Consistent(r, cs, size)
    requires error != Success && (Fatal(error) || !NoBytes(cs))
    ensures !Posix(r, cs, size, Finish(r, cs, error, size))
  {
    if Fatal(error) {
      FinishedBuffer(r, cs, error, size);
    } else {
      var k, i :| 0 <= k < |cs| && 0 <= i < |cs[k].data| && cs[k].data[i] != 0;
      DataLost(r, cs, error, size, k, i);
    }
  }

  /** Reads are those of POSIX, for every old content of the buffer, if and only if the zeros of
      the client are right; with a fatal error they never are. */
  lemma PosixExactly(r: Req, cs: seq<Chunk>, error: Code, size: nat)
    requires Fresh(r) && AllInRange(r.length, cs) && Disjoint(cs) && Consistent(r, cs, size)
    ensures AlwaysPosix(r, cs, error, size) <==> ZerosRight(r.length, cs, error)
  {
    if ZerosRight(r.length, cs, error) {
      PosixFilled(r, cs, error, size);
    } else if error == Success {
      NotFilled(r, cs, size);
    } else {
      if AlwaysPosix(r, cs, error, size) { AtOnce(r, cs, error, size); }
      Replaced(r, cs, error, size);
    }
  }

  /** The final check of a request as it is, whatever happened to it: an error other than ENODATA stays; a
      read with its last byte succeeds, but ENODATA stays if there is nothing to fill before its data; a short
      one ends at the end of the file, and one behind it reads nothing. */
  lemma FinishedMeans(r: Req, size: Size)
    requires Ended(r, size)
    ensures
      var got, clean := Finished(r, size), r.code == InProgress || r.code == Success;
      && got.offset == r.offset && got.length == r.length == |got.buf| && got.begin == r.begin && got.end == r.end
      && (!clean && r.code != NoData ==> got == r)
      && (clean || r.code == NoData ==>
            if r.nread == r.length then
              && got.nread == r.nread
              && got.code == (if clean || r.begin > 0 then Success else NoData)
              && forall i :: 0 <= i < |r.buf| ==> got.buf[i] == if i < r.begin then 0 else r.buf[i]
            else if size == Unknown then got == r.(code := NoEntry)
            else if size.bytes <= r.offset then got == r.(nread := 0, code := Success)
            else if size.bytes <= r.offset + r.nread then got == r.(code := if clean then Success else NoData)
            else
              && got.code == Success && r.offset + got.nread == Least(size.bytes, r.offset + r.length)
              && forall i :: 0 <= i < |r.buf| ==> got.buf[i] == if r.nread <= i < got.nread then 0 else r.buf[i])
  {
    if r.nread == r.length && r.begin > 0 { ZeroedAt(r.buf, 0, r.begin); }
    if size.Known? && r.nread < r.length && r.offset + r.nread < size.bytes {
      ZeroedAt(r.buf, r.nread, Least(size.bytes, r.offset + r.length) - (r.offset + r.nread));
    }
  }

  function Least(a: nat, b: nat): nat { if a < b then a else b }

  /** If the size of the file cannot be had, a fatal error is reported as ever and a read that has its
      last byte succeeds; any other one is reported as one of no file, with what was delivered. */
  lemma SizeUnknown(r: Req, cs: seq<Chunk>, error: Code)
    requires Fresh(r) && AllInRange(r.length, cs)
    ensures Ended(Completed(DeliveredAll(r, cs), error), Unknown)
    ensures
      var r1, got := DeliveredAll(r, cs), Finished(Completed(DeliveredAll(r, cs), error), Unknown);
      if Fatal(error) then got == r1.(nread := 0, code := error)
      else if error == Success && Filled(cs, r.length - 1) then Ends(r1, Success, r.length, got)
      else got == r1.(nread := if error == Success then r1.nread else 0, code := NoEntry)
  {
    Received(r, cs);
    var r1 := DeliveredAll(r, cs);
    SpansFilled(r.length, cs, r1.begin, r1.end);
    if r1.begin > 0 { ZeroedAt(r1.buf, 0, r1.begin); }
  }

  /** Messages with the first and the last of three bytes. */
  ghost predicate FirstAndLast(cs: seq<Chunk>) {
    |cs| == 2 && cs[0].at == 0 && |cs[0].data| == 1 && cs[1].at == 2 && |cs[1].data| == 1
  }

  lemma GapBetween(r: Req, cs: seq<Chunk>, size: nat)
    requires FirstAndLast(cs) && r.offset + 3 <= size
    ensures AllInRange(3, cs) && Disjoint(cs) && Consistent(r, cs, size) && InGap(3, cs, 1)
  {
    assert 1 < cs[1].at + |cs[1].data| && cs[0].at <= 1;
  }

  /** A read of three bytes of which the server has the first and the last one: the byte between
      them, a hole of the file, is what the buffer held before. */
  lemma MiddleGap(r: Req, cs: seq<Chunk>, size: nat)
    requires Fresh(r) && r.length == 3 && r.offset + 3 <= size && FirstAndLast(cs)
    ensures AllInRange(3, cs) && Disjoint(cs) && Consistent(r, cs, size)
    ensures var got := Finish(r, cs, Success, size); |got.buf| == 3 && got.nread > 1 && got.buf[1] == r.buf[1]
    ensures !AlwaysPosix(r, cs, Success, size)
  {
    GapBetween(r, cs, size);
    GapShows(r, cs, size, 1);
    GapKept(r, cs, size, 1);
  }

  /** After a message from behind the buffer, a read that ends without an error reports more bytes than
      were asked for, if the file does not go on behind them. */
  lemma TooMuchRead(r: Req, size: nat)
    requires r.nread > r.length == |r.buf| && (r.code == InProgress || r.code == Success)
    requires r.offset < size <= r.offset + r.nread
    ensures var got := Finished(r, Known(size)); got.code == Success && got.nread > got.length == r.length
  {
  }

  class ReadReq {
    const gfid: int
    const offset: nat
    const length: nat
    const buf: array<Byte>
    var begin: int
    var end: int
    var nread: int
    var errcode: Code

    ghost predicate Valid()
      reads this
    {
      0 < length == buf.Length && 0 <= nread <= length && -1 <= begin <= length && end < length
    }

    ghost function Abs(): Req
      reads this, buf
    {
      Req(offset, length, buf[..], begin, end, nread, errcode)
    }

    constructor (file: int, off: nat, b: array<Byte>)
      requires b.Length > 0
      ensures Valid() && gfid == file && buf == b && Fresh(Abs()) &&
        Abs() == Req(off, b.Length, b[..], -1, -1, 0, InProgress)
    {
      gfid := file;
      offset, length, buf, begin, end, nread, errcode := off, b.Length, b, -1, -1, 0, InProgress;
    }

    /** update_read_req_coverage */
    method Cover(at: nat, len: nat)
      requires Valid() && 0 < len
      modifies this`begin, this`end, this`nread
      ensures Abs() == Covered(old(Abs()), at, len)
      ensures at + len <= length ==> Valid()
    {
      var last := at + len - 1;
      if begin == -1 || at < begin { begin := at; }
      if end == -1 || last > end {
        end := last;
        nread := end + 1;
      }
    }

    method Copy(at: nat, data: seq<Byte>)
      requires at + |data| <= buf.Length
      modifies buf
      ensures buf[..] == Placed(old(buf[..]), Chunk(at, data))
    {
      forall i | 0 <= i < |data| { buf[at + i] := data[i]; }
    }

    /** The data message of unifyfs_mread_req_data_rpc, pulled in pieces of MAX_BULK; pulls many of
        them succeed. The space left is computed in 64 bits, so a message from behind the end of
        the buffer passes the check of its size; it counts as read, and the request says that more
        was read than it asks for. After any other message it does not. */
    method Receive(at: nat, data: seq<Byte>, pulls: nat) returns (receipt: Receipt)
      requires Valid() && at < SIZES && length < SIZES
      modifies this`begin, this`end, this`nread, buf
      ensures Valid() <==> receipt != Behind
      ensures errcode == old(errcode)
      ensures receipt == Refused <==> data != [] && |data| > Space(length, at)
      ensures receipt == Unpulled <==> 0 < |data| <= Space(length, at) && |data| > pulls * MAX_BULK
      ensures receipt == Behind <==>
        data != [] && at > length && |data| <= Space(length, at) && |data| <= pulls * MAX_BULK
      ensures receipt == Stored && data != [] ==>
        at + |data| <= length && Abs() == Delivered(old(Abs()), Chunk(at, data))
      ensures receipt == Behind ==> Abs() == Covered(old(Abs()), at, |data|) && nread == at + |data| > length
      ensures receipt == Refused || receipt == Unpulled || data == [] ==>
        begin == old(begin) && end == old(end) && nread == old(nread)
      ensures receipt == Refused || (receipt == Unpulled && at > length) || data == [] ==> buf[..] == old(buf[..])
      ensures receipt == Unpulled && at <= length ==>
        at + |data| <= length && buf[..] == Placed(old(buf[..]), Chunk(at, data[..pulls * MAX_BULK]))
    {
      if |data| == 0 { return Stored; }
      SpaceIs(length, at);
      var space := Space(length, at);
      if |data| > space { return Refused; }
      var ok := Pull(at, data, pulls);
      if !ok { return Unpulled; }
      Cover(at, |data|);
      return if at <= length then Stored else Behind;
    }

    /** The bulk transfers of a message. What they put behind the end of the buffer is not kept. */
    method Pull(at: nat, data: seq<Byte>, pulls: nat) returns (ok: bool)
      requires Valid() && data != [] && (at + |data| <= length || at > length)
      modifies buf
      ensures ok <==> |data| <= pulls * MAX_BULK
      ensures at > length ==> buf[..] == old(buf[..])
      ensures ok && at <= length ==> buf[..] == Placed(old(buf[..]), Chunk(at, data))
      ensures !ok && at <= length ==> buf[..] == Placed(old(buf[..]), Chunk(at, data[..pulls * MAX_BULK]))
    {
      ghost var was := buf[..];
      var i: nat, remain: nat, done: nat := 0, |data|, 0;
      if at <= length { PlacedAt(was, Chunk(at, data[..0])); }
      while remain > 0
        modifies buf
        invariant done + remain == |data| && (remain > 0 ==> done == i * MAX_BULK) && done <= i * MAX_BULK
        invariant buf[..] == (if at > length then was else Placed(was, Chunk(at, data[..done]))) && i <= pulls
      {
        if i == pulls { return false; }
        var len := if remain < MAX_BULK then remain else MAX_BULK;
        if at <= length {
          PlacedNext(was, at, data, done, len);
          Copy(at + done, data[done..done + len]);
        }
        done, remain, i := done + len, remain - len, i + 1;
      }
      assert data[..done] == data;
      return true;
    }

    /** The completion message. A fatal error is the result, whatever the file size is found to be:
        the final check changes nothing any more. */
    method Complete(error: Code)
      requires Valid()
      modifies this`nread, this`errcode
      ensures Valid() && Abs() == Completed(old(Abs()), error)
      ensures Fatal(error) ==> errcode == error && nread == 0 && forall size :: Finished(Abs(), size) == Abs()
    {
      if error != Success {
        nread := 0;
        errcode := error;
      }
    }

    method Zero(from: nat, n: nat)
      requires from + n <= buf.Length
      modifies buf
      ensures buf[..] == Zeroed(old(buf[..]), from, n)
    {
      ZeroedAt(buf[..], from, n);
      forall i | 0 <= i < n { buf[from + i] := 0; }
    }

    /** update_read_req_result */
    method Finish(size: Size)
      requires length == buf.Length && Ended(Abs(), size)
      modifies this`nread, this`errcode, buf
      ensures Abs() == Finished(old(Abs()), size) && (old(Valid()) ==> Valid())
    {
      if errcode == InProgress { errcode := Success; }
      if errcode != Success && errcode != NoData { return; }
      if nread == length {
        if begin != 0 && begin != -1 {
          Zero(0, begin);
          errcode := Success;
        }
        return;
      }
      if size == Unknown {
        errcode := NoEntry;
        return;
      }
      FilledBounds(Abs(), size.bytes);
      FillUp(size.bytes);
    }

    method FillUp(size: nat)
      requires length == buf.Length && 0 <= nread && (nread <= length || size <= offset + nread)
      modifies this`nread, this`errcode, buf
      ensures Abs() == FilledUp(old(Abs()), size)
    {
      if size <= offset {
        nread, errcode := 0, Success;
      } else if size > offset + nread {
        FillTo(size);
      }
    }

    method FillTo(size: nat)
      requires length == buf.Length && 0 <= nread <= length && offset + nread < size
      modifies this`nread, this`errcode, buf
      ensures Abs() == WithZeros(old(Abs()), Gap(old(Abs()), size))
    {
      var gapStart, reqEnd := offset + nread, offset + length;
      var gap := reqEnd - gapStart;
      if reqEnd > size { gap := size - gapStart; }
      FillGap(gap);
    }

    /** Zeros for the next gap bytes, which count as read. */
    method FillGap(gap: nat)
      requires length == buf.Length && 0 <= nread && nread + gap <= length
      modifies this`nread, this`errcode, buf
      ensures Abs() == WithZeros(old(Abs()), gap)
    {
      Zero(nread, gap);
      nread := nread + gap;
      errcode := Success;
    }
  }

  /** The buffers of requests. */
  ghost function Bufs(reqs: seq<ReadReq>): set<array<Byte>> { set i | 0 <= i < |reqs| :: reqs[i].buf }

  lemma PlacedNext(buf: seq<Byte>, at: nat, data: seq<Byte>, done: nat, len: nat)
    requires at + |data| <= |buf| && done + len <= |data|
    ensures |Placed(buf, Chunk(at, data[..done]))| == |buf|
    ensures Placed(Placed(buf, Chunk(at, data[..done])), Chunk(at + done, data[done..done + len])) ==
      Placed(buf, Chunk(at, data[..done + len]))
  {
    var x := Placed(buf, Chunk(at, data[..done]));
    PlacedAt(buf, Chunk(at, data[..done]));
    PlacedAt(x, Chunk(at + done, data[done..done + len]));
    PlacedAt(buf, Chunk(at, data[..done + len]));
  }
}
