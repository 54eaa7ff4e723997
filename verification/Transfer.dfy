/** Copying a file by all ranks of a parallel job at once: each rank takes a block of whole chunks,
    and the first ranks one more chunk each of what is left over. The first rank alone copies a file
    that has no more chunks than there are ranks. */
module Transfer {
  import opened Common
  import Stdio

  const BUF: nat := 8388608

  function Chunks(size: nat): nat { size / BUF + if size % BUF != 0 then 1 else 0 }

  /** Bytes from, up to but without to. */
  datatype Span = Span(from: nat, to: nat)

  predicate Within(s: Span, o: nat) { s.from <= o < s.to }

  predicate Serial(size: nat, ranks: nat) { Chunks(size) <= ranks }

  /** The block of a rank. */
  function Block(size: nat, ranks: nat, r: nat): Span
    requires r < ranks
  {
    if Serial(size, ranks) then Span(0, if r == 0 then size else 0)
    else
      var per := Chunks(size) / ranks;
      Span(per * r * BUF, per * r * BUF + per * BUF)
  }

  /** The chunk a rank takes of the rest. */
  function Extra(size: nat, ranks: nat, r: nat): Span
    requires r < ranks
  {
    var rest := Chunks(size) % ranks;
    if !Serial(size, ranks) && r < rest then
      var at := (Chunks(size) - rest + r) * BUF;
      Span(at, at + if size % BUF != 0 && r == rest - 1 then size % BUF else BUF)
    else Span(0, 0)
  }

  /** Rank r copies the byte at offset o; reading stops at the end of the file. */
  predicate Copies(size: nat, ranks: nat, r: nat, o: nat)
    requires r < ranks
  {
    o < size && (Within(Block(size, ranks, r), o) || Within(Extra(size, ranks, r), o))
  }

  lemma MulLe(a: nat, b: nat, c: nat)
    requires a <= b
    ensures a * c <= b * c
  {
  }

  /** Chunk k of the blocks is in the block of rank k / per. */
  lemma InBlock(per: nat, k: nat, r: nat)
    requires per > 0
    ensures per * r <= k < per * r + per <==> r == k / per
  {
    var q := k / per;
    assert per * q <= k < per * q + per;
    if r < q { MulLe(r + 1, q, per); }
    if q < r { MulLe(q + 1, r, per); }
  }

  /** An offset is in a span of chunks exactly if its chunk is. */
  lemma ChunkOf(a: nat, n: nat, o: nat)
    ensures Within(Span(a * BUF, a * BUF + n * BUF), o) <==> a <= o / BUF < a + n
  {
  }

  lemma BlockHas(size: nat, ranks: nat, r: nat, o: nat)
    requires r < ranks && !Serial(size, ranks)
    ensures Within(Block(size, ranks, r), o) <==> r == o / BUF / (Chunks(size) / ranks)
  {
    var per := Chunks(size) / ranks;
    PerRank(Chunks(size), ranks);
    ChunkOf(per * r, per, o);
    InBlock(per, o / BUF, r);
  }

  lemma PerRank(chunks: nat, ranks: nat)
    requires 0 < ranks <= chunks
    ensures chunks / ranks > 0 && chunks == chunks / ranks * ranks + chunks % ranks
  {
  }

  lemma ExtraHas(size: nat, ranks: nat, r: nat, o: nat)
    requires r < ranks && o < size && !Serial(size, ranks)
    ensures Within(Extra(size, ranks, r), o) <==>
      r < Chunks(size) % ranks && o / BUF == Chunks(size) - Chunks(size) % ranks + r
  {
    var rest := Chunks(size) % ranks;
    if r < rest { ChunkOf(Chunks(size) - rest + r, 1, o); }
  }

  /** The rank that copies chunk k. */
  function RankOfChunk(chunks: nat, ranks: nat, k: nat): nat
    requires 0 < ranks <= chunks
  {
    PerRank(chunks, ranks);
    if k < chunks - chunks % ranks then k / (chunks / ranks) else k - (chunks - chunks % ranks)
  }

  /** The rank that copies offset o. */
  function RankOf(size: nat, ranks: nat, o: nat): nat
    requires 0 < ranks && o < size
  {
    if Serial(size, ranks) then 0 else RankOfChunk(Chunks(size), ranks, o / BUF)
  }

  /** Chunks before the rest are in the blocks, the others are not. */
  lemma BlocksEnd(chunks: nat, ranks: nat, k: nat)
    requires 0 < ranks <= chunks
    ensures var per := chunks / ranks; per > 0 && (k < chunks - chunks % ranks <==> k / per < ranks)
  {
    PerRank(chunks, ranks);
    var per := chunks / ranks;
    InBlock(per, k, k / per);
    if k / per < ranks { MulLe(k / per + 1, ranks, per); } else { MulLe(ranks, k / per, per); }
  }

  /** Every byte of the file is copied by exactly one rank, for every size and number of ranks. */
  lemma Partition(size: nat, ranks: nat, r: nat, o: nat)
    requires r < ranks && o < size
    ensures Copies(size, ranks, r, o) <==> r == RankOf(size, ranks, o)
    ensures RankOf(size, ranks, o) < ranks
  {
    if !Serial(size, ranks) {
      BlockHas(size, ranks, r, o);
      ExtraHas(size, ranks, r, o);
      BlocksEnd(Chunks(size), ranks, o / BUF);
    }
  }

  /** A rank's block and its extra chunk do not overlap. */
  lemma NotTwice(size: nat, ranks: nat, r: nat, o: nat)
    requires r < ranks && o < size
    ensures !(Within(Block(size, ranks, r), o) && Within(Extra(size, ranks, r), o))
  {
    if !Serial(size, ranks) {
      BlockHas(size, ranks, r, o);
      ExtraHas(size, ranks, r, o);
      BlocksEnd(Chunks(size), ranks, o / BUF);
    }
  }

  /** A file that has no more than a chunk for each rank is copied by the first rank alone, and as a whole;
      of a larger one every rank copies something. */
  lemma SerialExactly(size: nat, ranks: nat, r: nat)
    requires r < ranks
    ensures size <= ranks * BUF ==> forall o: nat :: Copies(size, ranks, r, o) <==> r == 0 && o < size
    ensures size > ranks * BUF ==> exists o: nat :: Copies(size, ranks, r, o)
  {
    SerialIf(size, ranks);
    if size > ranks * BUF {
      var per := Chunks(size) / ranks;
      FirstByte(Chunks(size), ranks, r, per);
      var o := per * r * BUF;
      MulLe(per * r, Chunks(size) - 1, BUF);
      assert Within(Block(size, ranks, r), o) by { MulLe(1, per, BUF); }
      assert Copies(size, ranks, r, o);
    }
  }

  lemma SerialIf(size: nat, ranks: nat)
    ensures Serial(size, ranks) <==> size <= ranks * BUF
    ensures size > 0 ==> (Chunks(size) - 1) * BUF < size
  {
  }

  lemma FirstByte(chunks: nat, ranks: nat, r: nat, per: nat)
    requires r < ranks < chunks && per == chunks / ranks
    ensures per > 0 && per * r <= chunks - 1
  {
    PerRank(chunks, ranks);
    MulLe(r, ranks - 1, per);
    assert per * (ranks - 1) + per == per * ranks;
  }

  /** An extra chunk ends with the file at the latest, and a block less than a chunk behind it. */
  lemma SpansEnd(size: nat, ranks: nat, r: nat)
    requires r < ranks
    ensures Extra(size, ranks, r).to <= size && (Block(size, ranks, r).to < size + BUF)
  {
    if !Serial(size, ranks) {
      var chunks := Chunks(size);
      PerRank(chunks, ranks);
      MulLe(r + 1, ranks, chunks / ranks);
      MulLe(chunks / ranks * (r + 1), chunks, BUF);
      BlockEnd(chunks / ranks, r);
    }
  }

  lemma BlockEnd(per: nat, r: nat)
    ensures per * r * BUF + per * BUF == per * (r + 1) * BUF
  {
  }

  // ---------- copying ----------

  /** What do_transfer_data copies of count bytes: whole buffers, so more than count if count is larger
      than a buffer and no multiple of it. */
  function Rounded(count: nat): nat {
    if count <= BUF then count else (count + BUF - 1) / BUF * BUF
  }

  /** The loop of do_transfer_data, with reads and writes that are not cut short. */
  method CopyData(src: seq<Byte>, dst: seq<Byte>, offset: nat, count: nat) returns (r: seq<Byte>)
    ensures r == Stdio.Patch(dst, offset, Stdio.Slice(src, offset, Rounded(count)))
  {
    r := dst;
    var pos: nat, done: nat, eof := offset, 0, false;
    var len := if BUF > count then count else BUF;
    ghost var got: seq<Byte>, i: nat := [], 0;
    while count > done && !eof
      invariant pos == offset + |got| && done == |got| && r == Stdio.Patch(dst, offset, got)
      invariant Stdio.At(src, offset, got) && (eof ==> |src| <= pos)
      invariant Rounds(count, len, i, done) && (done == i * len || |src| <= pos)
      decreases count - done, !eof
    {
      var buf := Stdio.Slice(src, pos, len);
      Stdio.GotIsSlice(src, pos, len, buf);
      if |buf| == 0 {
        eof := true;
      } else {
        NextRound(count, len, i, done, |buf|);
        Stdio.PatchTwice(dst, offset, got, buf);
        Stdio.AtMore(src, offset, got, buf);
        r := Stdio.Patch(r, pos, buf);
        got, i := got + buf, i + 1;
        pos, done := pos + |buf|, done + |buf|;
      }
    }
    LastRound(count, len, i, done);
    Stdio.GotIsSlice(src, offset, Rounded(count), got);
  }

  /** After i rounds of len bytes at most. */
  ghost predicate Rounds(count: nat, len: nat, i: nat, done: nat) {
    && len == (if BUF > count then count else BUF) && done <= i * len <= Rounded(count)
  }

  lemma NextRound(count: nat, len: nat, i: nat, done: nat, n: nat)
    requires Rounds(count, len, i, done) && done < count && done == i * len && 0 < n <= len
    ensures Rounds(count, len, i + 1, done + n)
  {
  }

  lemma LastRound(count: nat, len: nat, i: nat, done: nat)
    requires Rounds(count, len, i, done)
    ensures done == i * len && done >= count ==> done == Rounded(count)
  {
  }

  /** The bytes of a span are all that is copied for it. */
  predicate NothingMore(src: seq<Byte>, s: Span)
    requires s.from <= s.to
  {
    Stdio.Slice(src, s.from, Rounded(s.to - s.from)) == Stdio.Slice(src, s.from, s.to - s.from)
  }

  /** The rounding up of counts copies nothing more: those of a parallel copy are whole buffers, or fit
      into one, and that of a serial copy ends with the file. */
  lemma RoundedSpan(src: seq<Byte>, ranks: nat, r: nat)
    requires r < ranks
    ensures NothingMore(src, Block(|src|, ranks, r)) && NothingMore(src, Extra(|src|, ranks, r))
  {
    if Serial(|src|, ranks) {
      RoundedUp(|src|);
    } else {
      var per := Chunks(|src|) / ranks;
      assert (per * BUF + BUF - 1) / BUF * BUF == per * BUF;
    }
  }

  lemma RoundedUp(count: nat)
    ensures Rounded(count) >= count
  {
  }

  /** The byte at offset o of d is that of the source. */
  ghost predicate Good(src: seq<Byte>, d: seq<Byte>, o: nat)
    requires o < |src|
  {
    o < |d| && d[o] == src[o]
  }

  function CopySpan(src: seq<Byte>, d: seq<Byte>, s: Span): seq<Byte>
    requires s.from <= s.to
  {
    Stdio.Patch(d, s.from, Stdio.Slice(src, s.from, s.to - s.from))
  }

  lemma SpanGood(src: seq<Byte>, d: seq<Byte>, s: Span, o: nat)
    requires s.from <= s.to && o < |src| && (Good(src, d, o) || Within(s, o))
    ensures Good(src, CopySpan(src, d, s), o)
  {
    var w := Stdio.Slice(src, s.from, s.to - s.from);
    Stdio.PatchAt(d, s.from, w);
    if Within(s, o) { assert w[o - s.from] == src[o]; }
    var x := Stdio.Patch(d, s.from, w);
    assert o < |x| && x[o] == Stdio.Patched(d, s.from, w, o);
  }

  /** What one rank does to the destination. */
  function RankCopied(src: seq<Byte>, d: seq<Byte>, ranks: nat, r: nat): seq<Byte>
    requires r < ranks
  {
    CopySpan(src, CopySpan(src, d, Block(|src|, ranks, r)), Extra(|src|, ranks, r))
  }

  /** transfer_file_parallel on one rank. */
  method TransferRank(src: seq<Byte>, d: seq<Byte>, ranks: nat, r: nat) returns (d': seq<Byte>)
    requires r < ranks
    ensures d' == RankCopied(src, d, ranks, r)
  {
    if Chunks(|src|) <= ranks {
      d' := d;
      NoSpan(src, d);
      RoundedSpan(src, ranks, r);
      if r == 0 {
        d' := CopyData(src, d, 0, |src|);
        NoSpan(src, d');
      }
      return;
    }
    d' := CopyBlock(src, d, ranks, r);
    d' := CopyExtra(src, d', ranks, r);
  }

  method CopyBlock(src: seq<Byte>, d: seq<Byte>, ranks: nat, r: nat) returns (d': seq<Byte>)
    requires r < ranks && !Serial(|src|, ranks)
    ensures d' == CopySpan(src, d, Block(|src|, ranks, r))
  {
    RoundedSpan(src, ranks, r);
    var per := Chunks(|src|) / ranks;
    var start := per * r;
    var offset, len := start * BUF, per * BUF;
    assert Block(|src|, ranks, r) == Span(offset, offset + len);
    d' := CopyData(src, d, offset, len);
  }

  method CopyExtra(src: seq<Byte>, d: seq<Byte>, ranks: nat, r: nat) returns (d': seq<Byte>)
    requires r < ranks && !Serial(|src|, ranks)
    ensures d' == CopySpan(src, d, Extra(|src|, ranks, r))
  {
    RoundedSpan(src, ranks, r);
    var chunks := Chunks(|src|);
    var rest := chunks % ranks;
    if rest != 0 && r < rest {
      var len := BUF;
      if |src| % BUF != 0 && r == rest - 1 { len := |src| % BUF; }
      var offset := (chunks - rest + r) * BUF;
      assert Extra(|src|, ranks, r) == Span(offset, offset + len);
      d' := CopyData(src, d, offset, len);
    } else {
      NoSpan(src, d);
      d' := d;
    }
  }

  lemma NoSpan(src: seq<Byte>, d: seq<Byte>)
    ensures CopySpan(src, d, Span(0, 0)) == d
  {
    assert Stdio.Slice(src, 0, 0) == [];
  }

  function AllCopied(src: seq<Byte>, d: seq<Byte>, ranks: nat, order: seq<nat>): seq<Byte>
    requires forall i :: 0 <= i < |order| ==> order[i] < ranks
  {
    if order == [] then d
    else RankCopied(src, AllCopied(src, d, ranks, order[..|order| - 1]), ranks, order[|order| - 1])
  }

  /** A rank makes the bytes it copies those of the source, and leaves no other worse. */
  lemma RankGood(src: seq<Byte>, d: seq<Byte>, ranks: nat, r: nat, o: nat)
    requires r < ranks && o < |src| && (Good(src, d, o) || Copies(|src|, ranks, r, o))
    ensures Good(src, RankCopied(src, d, ranks, r), o)
  {
    var b, x := Block(|src|, ranks, r), Extra(|src|, ranks, r);
    if Good(src, d, o) || Within(b, o) { SpanGood(src, d, b, o); }
    SpanGood(src, CopySpan(src, d, b), x, o);
  }

  lemma {:induction false} ByteReproduced(src: seq<Byte>, d: seq<Byte>, ranks: nat, order: seq<nat>, o: nat)
    requires 0 < ranks && o < |src| && forall i :: 0 <= i < |order| ==> order[i] < ranks
    requires RankOf(|src|, ranks, o) in order
    ensures Good(src, AllCopied(src, d, ranks, order), o)
  {
    var k, r := order[..|order| - 1], order[|order| - 1];
    if RankOf(|src|, ranks, o) in k {
      ByteReproduced(src, d, ranks, k, o);
    } else {
      assert order == k + [r];
      Partition(|src|, ranks, r, o);
    }
    RankGood(src, AllCopied(src, d, ranks, k), ranks, r, o);
  }

  /** x is as long as the longer of d and the source, at most, and has what d has behind the source. */
  ghost predicate Behind(src: seq<Byte>, d: seq<Byte>, x: seq<Byte>) {
    |d| <= |x| <= Stdio.Max(|d|, |src|) && forall o :: |src| <= o < |d| ==> x[o] == d[o]
  }

  lemma SpanBehind(src: seq<Byte>, d: seq<Byte>, s: Span)
    requires s.from <= s.to
    ensures Behind(src, d, CopySpan(src, d, s))
  {
    var w := Stdio.Slice(src, s.from, s.to - s.from);
    var x := CopySpan(src, d, s);
    Stdio.PatchAt(d, s.from, w);
    forall o | |src| <= o < |d| ensures x[o] == d[o] {
      assert x[o] == Stdio.Patched(d, s.from, w, o);
    }
  }

  lemma BehindMore(src: seq<Byte>, d: seq<Byte>, x: seq<Byte>, y: seq<Byte>)
    requires Behind(src, d, x) && Behind(src, x, y)
    ensures Behind(src, d, y)
  {
  }

  lemma RankBehind(src: seq<Byte>, d: seq<Byte>, x: seq<Byte>, ranks: nat, r: nat)
    requires r < ranks && Behind(src, d, x)
    ensures Behind(src, d, RankCopied(src, x, ranks, r))
  {
    var y := CopySpan(src, x, Block(|src|, ranks, r));
    SpanBehind(src, x, Block(|src|, ranks, r));
    BehindMore(src, d, x, y);
    SpanBehind(src, y, Extra(|src|, ranks, r));
    BehindMore(src, d, y, CopySpan(src, y, Extra(|src|, ranks, r)));
  }

  lemma {:induction false} AllBehind(src: seq<Byte>, d: seq<Byte>, ranks: nat, order: seq<nat>)
    requires forall i :: 0 <= i < |order| ==> order[i] < ranks
    ensures Behind(src, d, AllCopied(src, d, ranks, order))
  {
    if order != [] {
      var k, r := order[..|order| - 1], order[|order| - 1];
      AllBehind(src, d, ranks, k);
      RankBehind(src, d, AllCopied(src, d, ranks, k), ranks, r);
    }
  }

  /** Once every rank is done, in whatever order, the destination is the source, and what it had
      behind the end of the source. */
  lemma Reproduced(src: seq<Byte>, d: seq<Byte>, ranks: nat, order: seq<nat>)
    requires 0 < ranks && (forall i :: 0 <= i < |order| ==> order[i] < ranks) && forall r: nat :: r < ranks ==>
      r in order
    ensures AllCopied(src, d, ranks, order) == src + if |src| < |d| then d[|src|..] else []
  {
    var x := AllCopied(src, d, ranks, order);
    AllBehind(src, d, ranks, order);
    forall o: nat | o < |src| ensures Good(src, x, o) {
      Partition(|src|, ranks, 0, o);
      ByteReproduced(src, d, ranks, order, o);
    }
    WholeCopy(src, d, x);
  }

  lemma WholeCopy(src: seq<Byte>, d: seq<Byte>, x: seq<Byte>)
    requires Behind(src, d, x) && forall o: nat :: o < |src| ==> Good(src, x, o)
    ensures x == src + if |src| < |d| then d[|src|..] else []
  {
    if |src| > 0 { assert Good(src, x, |src| - 1); }
    var y := src + if |src| < |d| then d[|src|..] else [];
    forall o | 0 <= o < |y| ensures x[o] == y[o] {
      if o < |src| { assert Good(src, x, o); }
    }
    Stdio.SameBytes(x, y);
  }
}
