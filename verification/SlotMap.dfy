/** The allocator of log chunks: a bitmap with a bit for every slot, searched by bytes and by bits. */
module SlotMap {
  import opened Common

  // ---------- bits of a byte ----------

  /** 1 << bit */
  function Mask(bit: nat): bv8
    requires bit < 8
  {
    if bit == 0 then 1 else if bit == 1 then 2 else if bit == 2 then 4 else if bit == 3 then 8
    else if bit == 4 then 16 else if bit == 5 then 32 else if bit == 6 then 64 else 128
  }

  predicate IsSet(b: bv8, bit: nat)
    requires bit < 8
  {
    b & Mask(bit) != 0
  }

  /** The bits of a byte, the lowest first. */
  function Bits(b: bv8): (x: seq<bool>)
    ensures |x| == 8
  {
    seq(8, j requires 0 <= j < 8 => IsSet(b, j))
  }

  lemma BitAt(b: bv8, bit: nat)
    requires bit < 8
    ensures Bits(b)[bit] == IsSet(b, bit)
  {
  }

  lemma SetBit(b: bv8, bit: nat)
    requires bit < 8
    ensures Bits(b | Mask(bit)) == Bits(b)[bit := true]
  {
    var x, y := Bits(b | Mask(bit)), Bits(b)[bit := true];
    forall j | 0 <= j < 8 ensures x[j] == y[j] {
      SetBitAt(b, bit, j);
    }
  }

  lemma SetBitAt(b: bv8, bit: nat, j: nat)
    requires bit < 8 && j < 8
    ensures IsSet(b | Mask(bit), j) <==> j == bit || IsSet(b, j)
  {
  }

  lemma ClearBit(b: bv8, bit: nat)
    requires bit < 8
    ensures Bits(b & (0xFF - Mask(bit))) == Bits(b)[bit := false]
  {
    var x, y := Bits(b & (0xFF - Mask(bit))), Bits(b)[bit := false];
    forall j | 0 <= j < 8 ensures x[j] == y[j] {
      ClearBitAt(b, bit, j);
    }
  }

  lemma ClearBitAt(b: bv8, bit: nat, j: nat)
    requires bit < 8 && j < 8
    ensures IsSet(b & (0xFF - Mask(bit)), j) <==> j != bit && IsSet(b, j)
  {
  }

  predicate AllClear(x: seq<bool>) { forall j :: 0 <= j < |x| ==> !x[j] }

  predicate AllSet(x: seq<bool>) { forall j :: 0 <= j < |x| ==> x[j] }

  lemma EmptyByte(b: bv8)
    ensures b == 0 <==> AllClear(Bits(b))
    ensures b == 0xFF <==> AllSet(Bits(b))
  {
    var x := Bits(b);
    if AllClear(x) { assert !x[0] && !x[1] && !x[2] && !x[3] && !x[4] && !x[5] && !x[6] && !x[7]; }
    if AllSet(x) { assert x[0] && x[1] && x[2] && x[3] && x[4] && x[5] && x[6] && x[7]; }
  }

  // ---------- runs of clear bits ----------

  /** How many clear bits follow each other from bit s on. */
  function Zeros(x: seq<bool>, s: nat): (n: nat)
    requires s <= |x|
    ensures s + n <= |x|
    decreases |x| - s
  {
    if s < |x| && !x[s] then 1 + Zeros(x, s + 1) else 0
  }

  lemma {:induction false} ZerosAre(x: seq<bool>, s: nat)
    requires s <= |x|
    ensures s + Zeros(x, s) < |x| ==> x[s + Zeros(x, s)]
    ensures forall j :: s <= j < s + Zeros(x, s) ==> !x[j]
    decreases |x| - s
  {
    if s < |x| && !x[s] { ZerosAre(x, s + 1); }
  }

  /** Where the first of the longest runs of clear bits from bit s on starts. */
  function Best(x: seq<bool>, s: nat): (t: nat)
    requires s < |x|
    ensures s <= t < |x|
    decreases |x| - s
  {
    if s == |x| - 1 then s
    else
      var t := Best(x, s + 1);
      if Zeros(x, s) >= Zeros(x, t) then s else t
  }

  lemma {:induction false} BestIs(x: seq<bool>, s: nat)
    requires s < |x|
    ensures forall u :: s <= u < |x| ==> Zeros(x, u) <= Zeros(x, Best(x, s))
    ensures forall u :: s <= u < Best(x, s) ==> Zeros(x, u) < Zeros(x, Best(x, s))
    decreases |x| - s
  {
    if s < |x| - 1 { BestIs(x, s + 1); }
  }

  /** A run of clear bits in a byte. */
  datatype Run = Run(start: nat, len: nat)

  /** The first of the longest runs of clear bits. */
  function LongestRun(b: bv8): Run { Run(Best(Bits(b), 0), Zeros(Bits(b), Best(Bits(b), 0))) }

  /** find_consecutive_zero_bits */
  method FindZeroBits(b: bv8, num: nat) returns (free: nat, start: int)
    ensures free == LongestRun(b).len && start == if free >= num then LongestRun(b).start else -1
  {
    ghost var x := Bits(b);
    var at, bit := 0, 0;
    free := 0;
    while bit < 8
      invariant 0 <= bit <= 9 && 0 <= at < 8 && Scanned(x, bit, at, free)
      decreases 9 - bit
    {
      var runStart, runMax := bit, 0;
      BitAt(b, bit);
      while bit < 8 && !IsSet(b, bit)
        invariant runStart <= bit <= 8 && runMax == bit - runStart && runMax + Zeros(x, bit) == Zeros(x, runStart)
        invariant bit < 8 ==> x[bit] == IsSet(b, bit)
      {
        runMax, bit := runMax + 1, bit + 1;
        if bit < 8 { BitAt(b, bit); }
      }
      ScanRun(x, runStart, bit, at, free);
      if runMax > free { free, at := runMax, runStart; }
      bit := bit + 1;
    }
    ScanEnd(x, bit, at, free);
    start := if free >= num then at else -1;
  }

  /** Of the runs that start before bit, the one at at is the first of the longest. */
  ghost predicate Scanned(x: seq<bool>, bit: nat, at: nat, free: nat) {
    && (forall s :: 0 <= s < bit && s < |x| ==> Zeros(x, s) <= free) && at < |x|
    && (forall s :: 0 <= s < at ==> Zeros(x, s) < free)
    && if free == 0 then at == 0 else free == Zeros(x, at)
  }

  lemma {:induction false} RunInside(x: seq<bool>, s: nat, u: nat)
    requires s <= |x| && s <= u <= s + Zeros(x, s)
    ensures Zeros(x, u) == Zeros(x, s) - (u - s)
    decreases u - s
  {
    if s < u { RunInside(x, s + 1, u); }
  }

  lemma ScanRun(x: seq<bool>, s: nat, e: nat, at: nat, free: nat)
    requires s < |x| && Scanned(x, s, at, free) && e == s + Zeros(x, s)
    ensures Zeros(x, s) > free ==> Scanned(x, e + 1, s, Zeros(x, s))
    ensures Zeros(x, s) <= free ==> Scanned(x, e + 1, at, free)
  {
    forall u | s <= u < e + 1 && u < |x| ensures Zeros(x, u) <= Zeros(x, s) {
      RunInside(x, s, u);
    }
  }

  lemma ScanEnd(x: seq<bool>, bit: nat, at: nat, free: nat)
    requires bit >= |x| && Scanned(x, bit, at, free)
    ensures at == Best(x, 0) && free == Zeros(x, at)
  {
    BestIs(x, 0);
    var t := Best(x, 0);
    assert Zeros(x, t) <= free && Zeros(x, at) <= Zeros(x, t);
  }

  // ---------- the use map ----------

  /** u are the slots of use map m, true if used. */
  ghost predicate Rep(m: seq<bv8>, u: seq<bool>) {
    |u| == 8 * |m| && forall k :: 0 <= k < |m| ==> u[8 * k..8 * k + 8] == Bits(m[k])
  }

  function Slots(m: seq<bv8>): (u: seq<bool>)
    ensures |u| == 8 * |m|
  {
    if m == [] then [] else Slots(m[..|m| - 1]) + Bits(m[|m| - 1])
  }

  lemma {:induction false} SlotsRep(m: seq<bv8>)
    ensures Rep(m, Slots(m))
  {
    if m != [] {
      var n := |m| - 1;
      var u, w := Slots(m), Slots(m[..n]);
      SlotsRep(m[..n]);
      forall k | 0 <= k < |m| ensures u[8 * k..8 * k + 8] == Bits(m[k]) {
        if k < n {
          assert m[..n][k] == m[k];
          assert u[8 * k..8 * k + 8] == w[8 * k..8 * k + 8];
        }
      }
    }
  }

  lemma RepAt(m: seq<bv8>, u: seq<bool>, k: nat, j: nat)
    requires Rep(m, u) && k < |m| && j < 8
    ensures 8 * k + j < |u| && u[8 * k + j] == Bits(m[k])[j]
  {
    assert u[8 * k..8 * k + 8][j] == u[8 * k + j];
  }

  lemma RepSame(m: seq<bv8>, u: seq<bool>, w: seq<bool>)
    requires Rep(m, u) && Rep(m, w)
    ensures u == w
  {
    forall i | 0 <= i < |u| ensures u[i] == w[i] {
      var k := i / 8;
      assert u[8 * k..8 * k + 8] == Bits(m[k]) == w[8 * k..8 * k + 8];
      assert u[i] == u[8 * k..8 * k + 8][i - 8 * k] && w[i] == w[8 * k..8 * k + 8][i - 8 * k];
    }
  }

  lemma RepUnique(m: seq<bv8>, u: seq<bool>)
    requires Rep(m, u)
    ensures u == Slots(m)
  {
    SlotsRep(m);
    RepSame(m, u, Slots(m));
  }

  /** use_slot and release_slot */
  function Marked(m: seq<bv8>, s: nat, v: bool): seq<bv8>
    requires s < 8 * |m|
  {
    m[s / 8 := Turned(m[s / 8], s % 8, v)]
  }

  function Turned(b: bv8, bit: nat, v: bool): bv8
    requires bit < 8
  {
    if v then b | Mask(bit) else b & (0xFF - Mask(bit))
  }

  lemma MarkedByte(m: seq<bv8>, s: nat, v: bool, k: nat)
    requires s < 8 * |m| && k < |m|
    ensures |Marked(m, s, v)| == |m|
    ensures Bits(Marked(m, s, v)[k]) == if k == s / 8 then Bits(m[k])[s % 8 := v] else Bits(m[k])
  {
    if v { SetBit(m[s / 8], s % 8); } else { ClearBit(m[s / 8], s % 8); }
  }

  lemma MarkedRep(m: seq<bv8>, u: seq<bool>, s: nat, v: bool)
    requires Rep(m, u) && s < 8 * |m|
    ensures |Marked(m, s, v)| == |m| && Rep(Marked(m, s, v), u[s := v])
  {
    var m', w := Marked(m, s, v), u[s := v];
    forall k | 0 <= k < |m| ensures w[8 * k..8 * k + 8] == Bits(m'[k]) {
      MarkedByte(m, s, v, k);
      Around(u, s, v, k);
    }
  }

  lemma Around(u: seq<bool>, s: nat, v: bool, k: nat)
    requires s < |u| && 8 * k + 8 <= |u|
    ensures u[s := v][8 * k..8 * k + 8] == if k == s / 8 then u[8 * k..8 * k + 8][s % 8 := v] else u[8 * k..8 * k + 8]
  {
  }

  /** r is u with the n slots from s on set to v. */
  ghost predicate RangeSet(u: seq<bool>, s: nat, n: nat, v: bool, r: seq<bool>) {
    |r| == |u| && forall i :: 0 <= i < |u| ==> r[i] == if s <= i < s + n then v else u[i]
  }

  function MarkedAll(m: seq<bv8>, s: nat, n: nat, v: bool): (r: seq<bv8>)
    requires s + n <= 8 * |m|
    ensures |r| == |m|
  {
    if n == 0 then m else Marked(MarkedAll(m, s, n - 1, v), s + n - 1, v)
  }

  function Count(u: seq<bool>): (n: nat)
    ensures n <= |u|
  {
    if u == [] then 0 else Count(u[..|u| - 1]) + if u[|u| - 1] then 1 else 0
  }

  lemma {:induction false} CountAll(u: seq<bool>)
    ensures Count(u) == 0 <==> AllClear(u)
    ensures Count(u) == |u| <==> AllSet(u)
  {
    if u != [] {
      var k := u[..|u| - 1];
      CountAll(k);
      assert forall j :: 0 <= j < |k| ==> k[j] == u[j];
      assert AllClear(u) ==> AllClear(k) && !u[|u| - 1];
      assert AllSet(u) ==> AllSet(k) && u[|u| - 1];
    }
  }

  lemma {:induction false} CountOne(u: seq<bool>, i: nat, v: bool)
    requires i < |u| && u[i] == !v
    ensures Count(u[i := v]) == if v then Count(u) + 1 else Count(u) - 1
  {
    var n := |u| - 1;
    if i == n {
      assert u[i := v][..n] == u[..n];
    } else {
      assert u[i := v][..n] == u[..n][i := v];
      CountOne(u[..n], i, v);
    }
  }

  /** Marking a range changes that range and nothing else. */
  lemma {:induction false} MarkedAllRep(m: seq<bv8>, u: seq<bool>, s: nat, n: nat, v: bool) returns (r: seq<bool>)
    requires Rep(m, u) && s + n <= 8 * |m|
    ensures Rep(MarkedAll(m, s, n, v), r) && RangeSet(u, s, n, v, r)
  {
    if n == 0 {
      r := u;
    } else {
      var r1 := MarkedAllRep(m, u, s, n - 1, v);
      r := OneMoreRep(MarkedAll(m, s, n - 1, v), u, s, n, v, r1, MarkedAll(m, s, n, v));
    }
  }

  lemma OneMoreRep(m: seq<bv8>, u: seq<bool>, s: nat, n: nat, v: bool, r1: seq<bool>, m': seq<bv8>)
    returns (r: seq<bool>)
    requires Rep(m, r1) && n > 0 && s + n <= |u| && RangeSet(u, s, n - 1, v, r1) && m' == Marked(m, s + n - 1, v)
    ensures Rep(m', r) && RangeSet(u, s, n, v, r)
  {
    MarkedRep(m, r1, s + n - 1, v);
    RangeMore(u, s, n, v, r1);
    r := r1[s + n - 1 := v];
  }

  lemma RangeMore(u: seq<bool>, s: nat, n: nat, v: bool, r: seq<bool>)
    requires n > 0 && s + n <= |u| && RangeSet(u, s, n - 1, v, r)
    ensures RangeSet(u, s, n, v, r[s + n - 1 := v])
  {
  }

  /** Setting clear slots, or clearing set ones, changes the count by their number. */
  lemma {:induction false} CountRange(u: seq<bool>, s: nat, n: nat, v: bool, r: seq<bool>)
    requires s + n <= |u| && RangeSet(u, s, n, v, r) && forall i :: s <= i < s + n ==> u[i] == !v
    ensures Count(r) == if v then Count(u) + n else Count(u) - n
    decreases n
  {
    if n == 0 {
      assert r == u;
    } else {
      var r1 := r[s + n - 1 := !v];
      CountRange(u, s, n - 1, v, r1);
      assert r == r1[s + n - 1 := v];
      CountOne(r1, s + n - 1, v);
    }
  }

  lemma MarkedAllSlots(m: seq<bv8>, s: nat, n: nat, v: bool)
    requires s + n <= 8 * |m|
    ensures RangeSet(Slots(m), s, n, v, Slots(MarkedAll(m, s, n, v)))
  {
    SlotsRep(m);
    var r := MarkedAllRep(m, Slots(m), s, n, v);
    RepUnique(MarkedAll(m, s, n, v), r);
  }

  // ---------- the search ----------

  /** slot_map_bytes */
  function MapBytes(n: nat): nat { n / 8 + if n % 8 != 0 then 1 else 0 }

  /** How many bytes without a used slot follow each other from byte k on. */
  function ZeroBytes(m: seq<bv8>, k: nat): (z: nat)
    requires k <= |m|
    ensures k + z <= |m| && forall j :: k <= j < k + z ==> m[j] == 0
    decreases |m| - k
  {
    if k < |m| && m[k] == 0 then 1 + ZeroBytes(m, k + 1) else 0
  }

  /** n clear bits in byte k, or in its end and the beginning of the next, by their longest runs. */
  function Fit(k: nat, here: Run, next: Option<Run>, n: nat): Option<nat> {
    if here.len >= n then Some(8 * k + here.start)
    else if next.Some? && here.start + here.len == 8 && next.value.len >= n - here.len && next.value.start == 0
    then Some(8 * k + here.start)
    else None
  }

  function InByte(m: seq<bv8>, k: nat, n: nat): Option<nat>
    requires k < |m|
  {
    Fit(k, LongestRun(m[k]), if k + 1 < |m| then Some(LongestRun(m[k + 1])) else None, n)
  }

  /** What one round of the search comes to: a slot, or the byte to go on with. */
  datatype Outcome = Hit(slot: nat) | Skip(to: nat)

  function Try(m: seq<bv8>, k: nat, n: nat): (r: Outcome)
    requires k < |m|
    ensures r.Skip? ==> k < r.to
  {
    if m[k] == 0xFF then Skip(k + 1)
    else if MapBytes(n) > 1 && k + MapBytes(n) <= |m| then
      if ZeroBytes(m, k) >= MapBytes(n) then Hit(8 * k) else Skip(k + ZeroBytes(m, k) + 1)
    else
      match InByte(m, k, n)
      case Some(s) => Hit(s)
      case None => Skip(k + 1)
  }

  /** The search of slotmap_reserve, from byte k on. */
  function Search(m: seq<bv8>, k: nat, n: nat): Option<nat>
    decreases |m| - k
  {
    if k >= |m| then None
    else
      match Try(m, k, n)
      case Hit(s) => Some(s)
      case Skip(j) => Search(m, j, n)
  }

  ghost predicate Free(u: seq<bool>, s: nat, n: nat) { s + n <= |u| && forall i :: s <= i < s + n ==> !u[i] }

  lemma ZerosFree(m: seq<bv8>, u: seq<bool>, k: nat, t: nat, n: nat)
    requires Rep(m, u) && k < |m| && t < 8 && n <= Zeros(Bits(m[k]), t)
    ensures Free(u, 8 * k + t, n)
  {
    ZerosAre(Bits(m[k]), t);
    forall i | 8 * k + t <= i < 8 * k + t + n ensures !u[i] {
      RepAt(m, u, k, i - 8 * k);
    }
  }

  lemma ByteFree(m: seq<bv8>, u: seq<bool>, k: nat, z: nat)
    requires Rep(m, u) && k + z <= |m| && forall j :: k <= j < k + z ==> m[j] == 0
    ensures Free(u, 8 * k, 8 * z)
  {
    forall i | 8 * k <= i < 8 * k + 8 * z ensures !u[i] {
      RepAt(m, u, i / 8, i % 8);
      EmptyByte(m[i / 8]);
    }
  }

  lemma InByteFree(m: seq<bv8>, u: seq<bool>, k: nat, n: nat)
    requires Rep(m, u) && k < |m| && InByte(m, k, n).Some?
    ensures Free(u, InByte(m, k, n).value, n)
  {
    var x := Bits(m[k]);
    var t := Best(x, 0);
    var f := Zeros(x, t);
    if f >= n {
      ZerosFree(m, u, k, t, n);
    } else {
      ZerosFree(m, u, k, t, f);
      ZerosFree(m, u, k + 1, 0, n - f);
    }
  }

  lemma BytesFree(m: seq<bv8>, u: seq<bool>, k: nat, n: nat)
    requires Rep(m, u) && k <= |m| && ZeroBytes(m, k) >= MapBytes(n)
    ensures Free(u, 8 * k, n)
  {
    ByteFree(m, u, k, MapBytes(n));
  }

  /** The byte where the search ends. */
  lemma {:induction false} FoundAt(m: seq<bv8>, k: nat, n: nat, s: nat) returns (j: nat)
    requires Search(m, k, n) == Some(s)
    ensures k <= j < |m| && Try(m, j, n) == Hit(s)
    decreases |m| - k
  {
    match Try(m, k, n)
    case Hit(_) => j := k;
    case Skip(to) => j := FoundAt(m, to, n, s);
  }

  lemma TryFree(m: seq<bv8>, u: seq<bool>, k: nat, n: nat, s: nat)
    requires Rep(m, u) && k < |m| && Try(m, k, n) == Hit(s)
    ensures Free(u, s, n)
  {
    if MapBytes(n) > 1 && k + MapBytes(n) <= |m| { BytesFree(m, u, k, n); } else { InByteFree(m, u, k, n); }
  }

  /** What the search finds is free. */
  lemma SearchFree(m: seq<bv8>, u: seq<bool>, k: nat, n: nat, s: nat)
    requires Rep(m, u) && Search(m, k, n) == Some(s)
    ensures Free(u, s, n)
  {
    var j := FoundAt(m, k, n, s);
    TryFree(m, u, j, n, s);
  }

  /** A single slot is found if there is one. */
  lemma {:induction false} SearchOne(m: seq<bv8>, k: nat)
    requires Search(m, k, 1).None?
    ensures forall j :: k <= j < |m| ==> m[j] == 0xFF
    decreases |m| - k
  {
    if k < |m| {
      if m[k] != 0xFF { OneInByte(m[k]); }
      SearchOne(m, k + 1);
    }
  }

  lemma OneInByte(b: bv8)
    requires b != 0xFF
    ensures Zeros(Bits(b), Best(Bits(b), 0)) >= 1
  {
    EmptyByte(b);
    var x := Bits(b);
    BestIs(x, 0);
    var j :| 0 <= j < |x| && !x[j];
    assert Zeros(x, j) >= 1;
  }

  // ---------- what a search must find ----------

  lemma FreeInByte(m: seq<bv8>, u: seq<bool>, k: nat, t: nat, l: nat)
    requires Rep(m, u) && k < |m| && t + l <= 8 && t < 8
    ensures Free(u, 8 * k + t, l) <==> l <= Zeros(Bits(m[k]), t)
  {
    var x := Bits(m[k]);
    ZerosAre(x, t);
    if l <= Zeros(x, t) {
      ZerosFree(m, u, k, t, l);
    } else {
      RepAt(m, u, k, t + Zeros(x, t));
    }
  }

  /** Every run of a or more free slots in the byte that ends before slot e reaches to its end. */
  ghost predicate TailLongest(u: seq<bool>, e: nat, a: nat) {
    forall t: nat, l: nat :: e <= t + 8 && t + l <= e && a <= l && Free(u, t, l) ==> t + l == e
  }

  /** No run of free slots in the byte from slot e on is longer than the one at its beginning. */
  ghost predicate HeadLongest(u: seq<bool>, e: nat) {
    forall t: nat, l: nat :: e <= t && t + l <= e + 8 && Free(u, t, l) ==> Free(u, e, l)
  }

  /** The n slots from s on are in one byte, or in the longest runs of two bytes, which meet. */
  ghost predicate Seen(u: seq<bool>, s: nat, n: nat) {
    var e := 8 * (s / 8) + 8;
    s + n <= e || (TailLongest(u, e, e - s) && HeadLongest(u, e))
  }

  lemma LongestIn(m: seq<bv8>, u: seq<bool>, k: nat, t: nat, l: nat)
    requires Rep(m, u) && k < |m| && 0 < l && 8 * k <= t && t + l <= 8 * k + 8 && Free(u, t, l)
    ensures
      var run := LongestRun(m[k]);
      && l <= run.len && (l == run.len ==> 8 * k + run.start <= t)
      && run.start + run.len <= 8 && Free(u, 8 * k + run.start, run.len)
  {
    var x := Bits(m[k]);
    var run := LongestRun(m[k]);
    FreeInByte(m, u, k, t - 8 * k, l);
    BestIs(x, 0);
    assert l <= Zeros(x, t - 8 * k) <= run.len;
    FreeInByte(m, u, k, run.start, run.len);
  }

  /** Where the search of a byte succeeds, it has found slots that are seen. */
  lemma InByteSeen(m: seq<bv8>, u: seq<bool>, k: nat, n: nat, s: nat)
    requires Rep(m, u) && k < |m| && 0 < n <= 8 && InByte(m, k, n) == Some(s)
    ensures s / 8 == k && Place(u, s, n)
  {
    InByteFree(m, u, k, n);
    var here, e := LongestRun(m[k]), 8 * k + 8;
    assert s == 8 * k + here.start && here.start < 8;
    if here.len < n {
      var next := LongestRun(m[k + 1]);
      forall t: nat, l: nat | e <= t + 8 && t + l <= e && e - s <= l && Free(u, t, l) ensures t + l == e {
        LongestIn(m, u, k, t, l);
      }
      forall t: nat, l: nat | e <= t && t + l <= e + 8 && Free(u, t, l) ensures Free(u, e, l) {
        if l > 0 { LongestIn(m, u, k + 1, t, l); }
      }
    }
  }

  /** The search of a byte succeeds if slots that are seen start in it. */
  lemma SeenInByte(m: seq<bv8>, u: seq<bool>, s: nat, n: nat)
    requires Rep(m, u) && 0 < n <= 8 && Place(u, s, n)
    ensures s / 8 < |m| && InByte(m, s / 8, n).Some?
  {
    var k, e := s / 8, 8 * (s / 8) + 8;
    if s + n <= e {
      LongestIn(m, u, k, s, n);
    } else {
      TailFits(m, u, k, s, e - s);
      HeadFits(m, u, k + 1, s + n - e);
    }
  }

  lemma TailFits(m: seq<bv8>, u: seq<bool>, k: nat, s: nat, a: nat)
    requires Rep(m, u) && k < |m| && 8 * k <= s < s + a == 8 * k + 8 && Free(u, s, a) && TailLongest(u, s + a, a)
    ensures LongestRun(m[k]).start + LongestRun(m[k]).len == 8 && a <= LongestRun(m[k]).len
  {
    LongestIn(m, u, k, s, a);
  }

  lemma HeadFits(m: seq<bv8>, u: seq<bool>, k: nat, b: nat)
    requires Rep(m, u) && k < |m| && 0 < b <= 8 && Free(u, 8 * k, b) && HeadLongest(u, 8 * k)
    ensures LongestRun(m[k]).start == 0 && b <= LongestRun(m[k]).len
  {
    LongestIn(m, u, k, 8 * k, b);
    var run := LongestRun(m[k]);
    assert Free(u, 8 * k, run.len);
    LongestIn(m, u, k, 8 * k, run.len);
  }

  /** The n slots from s on are free, and the search sees them. */
  ghost predicate Place(u: seq<bool>, s: nat, n: nat) { Free(u, s, n) && Seen(u, s, n) }

  /** There is no place for n slots from slot b up to slot e, without e. */
  ghost predicate NoneSeen(u: seq<bool>, b: nat, e: nat, n: nat) { forall s: nat :: b <= s < e ==> !Place(u, s, n) }

  lemma NotSeenAt(m: seq<bv8>, u: seq<bool>, k: nat, n: nat, s: nat)
    requires Rep(m, u) && k < |m| && 0 < n <= 8 && 8 * k <= s < 8 * k + 8
    requires m[k] == 0xFF || InByte(m, k, n).None?
    ensures !Place(u, s, n)
  {
    if m[k] == 0xFF {
      EmptyByte(m[k]);
      RepAt(m, u, k, s - 8 * k);
    } else if Place(u, s, n) {
      assert s / 8 == k;
      SeenInByte(m, u, s, n);
    }
  }

  lemma {:induction false} SkippedByte(m: seq<bv8>, u: seq<bool>, k: nat, n: nat)
    requires Rep(m, u) && k < |m| && 0 < n <= 8 && (m[k] == 0xFF || InByte(m, k, n).None?)
    ensures NoneSeen(u, 8 * k, 8 * k + 8, n)
  {
    forall s: nat | 8 * k <= s < 8 * k + 8 ensures !Place(u, s, n) {
      NotSeenAt(m, u, k, n, s);
    }
  }

  lemma SmallTry(m: seq<bv8>, k: nat, n: nat)
    requires k < |m| && 0 < n <= 8
    ensures Try(m, k, n) ==
      if m[k] == 0xFF || InByte(m, k, n).None? then Skip(k + 1) else Hit(InByte(m, k, n).value)
  {
  }

  /** A search from byte k on for n slots has found the first place, or there is none. */
  ghost predicate FirstPlace(u: seq<bool>, k: nat, n: nat, r: Option<nat>) {
    if r.Some? then 8 * k <= r.value && Place(u, r.value, n) && NoneSeen(u, 8 * k, 8 * (r.value / 8), n)
    else NoneSeen(u, 8 * k, |u|, n)
  }

  lemma PlaceBehind(u: seq<bool>, k: nat, n: nat, r: Option<nat>)
    requires NoneSeen(u, 8 * k, 8 * k + 8, n) && FirstPlace(u, k + 1, n, r)
    ensures FirstPlace(u, k, n, r)
  {
  }

  lemma PlaceHere(u: seq<bool>, k: nat, n: nat, s: nat)
    requires s / 8 == k && Place(u, s, n)
    ensures FirstPlace(u, k, n, Some(s))
  {
  }

  lemma SearchNext(m: seq<bv8>, k: nat, n: nat)
    requires k < |m| && 0 < n <= 8
    ensures Search(m, k, n) ==
      if m[k] == 0xFF || InByte(m, k, n).None? then Search(m, k + 1, n) else Some(InByte(m, k, n).value)
  {
    SmallTry(m, k, n);
  }

  /** A search for up to eight slots finds slots that are seen, in the first byte in which such start. */
  lemma {:induction false} SearchSmall(m: seq<bv8>, u: seq<bool>, k: nat, n: nat, r: Option<nat>)
    requires Rep(m, u) && 0 < n <= 8 && r == Search(m, k, n)
    ensures FirstPlace(u, k, n, r)
    decreases |m| - k
  {
    if k < |m| {
      SearchNext(m, k, n);
      if m[k] == 0xFF || InByte(m, k, n).None? {
        SkippedByte(m, u, k, n);
        SearchSmall(m, u, k + 1, n, r);
        PlaceBehind(u, k, n, r);
      } else {
        InByteSeen(m, u, k, n, r.value);
        PlaceHere(u, k, n, r.value);
      }
    }
  }

  lemma ZeroBytesFree(m: seq<bv8>, u: seq<bool>, k: nat, z: nat)
    requires Rep(m, u) && k <= |m|
    ensures ZeroBytes(m, k) >= z <==> Free(u, 8 * k, 8 * z)
  {
    if ZeroBytes(m, k) >= z {
      ByteFree(m, u, k, z);
    } else {
      if Free(u, 8 * k, 8 * z) { UsedByte(m, u, k, z); }
    }
  }

  lemma UsedByte(m: seq<bv8>, u: seq<bool>, k: nat, z: nat)
    requires Rep(m, u) && k <= |m| && ZeroBytes(m, k) < z && k + z <= |m|
    ensures !Free(u, 8 * k, 8 * z)
  {
    var j := k + ZeroBytes(m, k);
    ZeroBytesEnd(m, k);
    EmptyByte(m[j]);
    var x := Bits(m[j]);
    var i :| 0 <= i < 8 && x[i];
    RepAt(m, u, j, i);
  }

  lemma {:induction false} ZeroBytesEnd(m: seq<bv8>, k: nat)
    requires k <= |m|
    ensures var j := k + ZeroBytes(m, k); j < |m| ==> m[j] != 0
    decreases |m| - k
  {
    if k < |m| && m[k] == 0 { ZeroBytesEnd(m, k + 1); }
  }

  /** There are no z whole bytes free that start from byte b up to byte e, without e. */
  ghost predicate NoBytes(u: seq<bool>, b: nat, e: nat, z: nat) {
    forall j: nat :: b <= j < e ==> !Free(u, 8 * j, 8 * z)
  }

  /** A byte near the end of the map has no room for more than eight slots. */
  lemma NoLargeInByte(m: seq<bv8>, k: nat, n: nat)
    requires k < |m| && n > 8 && k + MapBytes(n) > |m|
    ensures InByte(m, k, n).None?
  {
  }

  lemma SkippedBytes(m: seq<bv8>, u: seq<bool>, k: nat, n: nat, to: nat)
    requires Rep(m, u) && k < |m| && n > 8 && Try(m, k, n) == Skip(to)
    ensures NoBytes(u, k, to, MapBytes(n))
  {
    var z := MapBytes(n);
    forall j: nat | k <= j < to ensures !Free(u, 8 * j, 8 * z) {
      if j <= |m| {
        ZeroBytesFree(m, u, j, z);
        ZeroBytesEnd(m, k);
        ZeroBytesShort(m, k, j);
      }
    }
  }

  lemma {:induction false} ZeroBytesShort(m: seq<bv8>, k: nat, j: nat)
    requires k <= j <= |m| && j <= k + ZeroBytes(m, k)
    ensures ZeroBytes(m, j) == ZeroBytes(m, k) - (j - k)
    decreases j - k
  {
    if k < j { ZeroBytesShort(m, k + 1, j); }
  }

  /** A search for more than eight slots finds the first whole bytes that are free. */
  lemma {:induction false} SearchLarge(m: seq<bv8>, u: seq<bool>, k: nat, n: nat)
    requires Rep(m, u) && n > 8
    ensures match Search(m, k, n)
      case Some(s) => s % 8 == 0 && k <= s / 8 && Free(u, s, 8 * MapBytes(n)) && NoBytes(u, k, s / 8, MapBytes(n))
      case None => NoBytes(u, k, |m|, MapBytes(n))
    decreases |m| - k
  {
    if k < |m| {
      if k + MapBytes(n) > |m| { NoLargeInByte(m, k, n); }
      match Try(m, k, n)
      case Hit(s) => ZeroBytesFree(m, u, k, MapBytes(n));
      case Skip(to) =>
        SkippedBytes(m, u, k, n, to);
        SearchLarge(m, u, to, n);
    }
  }

  // ---------- reservations ----------

  datatype Map = Map(total: nat, bytes: seq<bv8>, used: nat, first: int, last: int)

  function Empty(total: nat): Map { Map(total, seq(MapBytes(total), i => 0), 0, -1, -1) }

  /** The slot that slotmap_reserve returns. */
  function Find(st: Map, n: nat): Option<nat> {
    if n == 0 || st.total - st.used < n then None
    else Search(st.bytes, if st.last > -1 && MapBytes(n) > 1 then st.last / 8 else 0, n)
  }

  /** A reservation is refused if and only if it is empty, there are not as many unused slots, or the search
      sees none: up to eight slots are seen in one byte or where the longest runs of two bytes meet, and more
      only as whole bytes, from that of the last-used hint on. */
  lemma RefusedExactly(st: Map, n: nat)
    ensures
      var u, from := Slots(st.bytes), if st.last > -1 then st.last / 8 else 0;
      Find(st, n).None? <==>
        || n == 0 || st.total - st.used < n
        || if n <= 8 then NoneSeen(u, 0, |u|, n) else NoBytes(u, from, |st.bytes|, MapBytes(n))
  {
    var m, u, from := st.bytes, Slots(st.bytes), if st.last > -1 then st.last / 8 else 0;
    SlotsRep(m);
    if 0 < n <= 8 {
      SearchSmall(m, u, 0, n, Search(m, 0, n));
    } else if n > 8 {
      SearchLarge(m, u, from, n);
      if Search(m, from, n).Some? {
        var j := Search(m, from, n).value / 8;
        assert from <= j < |m| && Free(u, 8 * j, 8 * MapBytes(n));
      }
    }
  }

  /** The free slots of each byte follow each other. */
  ghost predicate OneRunEach(u: seq<bool>) {
    forall i, j, l :: 0 <= i < j < l < |u| && i / 8 == l / 8 && !u[i] && !u[l] ==> !u[j]
  }

  /** Where the free slots before slot s of the same byte start. */
  lemma {:induction false} RunStart(u: seq<bool>, s: nat) returns (r: nat)
    requires s < |u| && !u[s]
    ensures 8 * (s / 8) <= r <= s && Free(u, r, s + 1 - r) && (r == 8 * (s / 8) || u[r - 1])
    decreases s
  {
    r := s;
    if s % 8 > 0 && !u[s - 1] { r := RunStart(u, s - 1); }
  }

  lemma TailIsLongest(u: seq<bool>, r: nat, e: nat)
    requires OneRunEach(u) && e % 8 == 0 && r < e <= r + 8 && e <= |u| && Free(u, r, e - r) && (r + 8 == e || u[r - 1])
    ensures TailLongest(u, e, e - r)
  {
    forall t: nat, l: nat | e <= t + 8 && t + l <= e && e - r <= l && Free(u, t, l) ensures t + l == e {
      assert !u[t] && !u[e - 1] && t / 8 == (e - 1) / 8;
    }
  }

  lemma HeadIsLongest(u: seq<bool>, e: nat)
    requires OneRunEach(u) && e % 8 == 0 && e < |u| && !u[e]
    ensures HeadLongest(u, e)
  {
    forall t: nat, l: nat | e <= t && t + l <= e + 8 && Free(u, t, l) ensures Free(u, e, l) {
      if l > 0 {
        var z := t + l - 1;
        assert !u[z] && e / 8 == z / 8;
        assert forall j :: e < j < z ==> !u[j];
      }
    }
  }

  lemma SeenSomewhere(u: seq<bool>, s: nat, n: nat) returns (r: nat)
    requires OneRunEach(u) && 0 < n <= 8 && Free(u, s, n)
    ensures Place(u, r, n)
  {
    var e := 8 * (s / 8) + 8;
    r := s;
    if s + n > e {
      r := RunStart(u, s);
      if r + n > e {
        TailIsLongest(u, r, e);
        HeadIsLongest(u, e);
      }
    }
  }

  /** While the free slots of each byte follow each other, up to eight slots are refused if and only if so
      many are not free in a row. */
  lemma OneRunExactly(st: Map, n: nat)
    requires 0 < n <= 8 && OneRunEach(Slots(st.bytes))
    ensures Find(st, n).None? <==> st.total - st.used < n || forall s: nat :: !Free(Slots(st.bytes), s, n)
  {
    RefusedExactly(st, n);
    var u := Slots(st.bytes);
    if s: nat :| Free(u, s, n) {
      var r := SeenSomewhere(u, s, n);
      assert !NoneSeen(u, 0, |u|, n);
    }
  }

  /** Otherwise a row of free slots can be missed: of these two bytes, the first has three free slots at its
      beginning and two at its end, and the second one four at its beginning; six are refused. */
  lemma MissedRow(st: Map, u: seq<bool>)
    requires u == Slots(st.bytes) && |u| == 16 && forall i :: 0 <= i < 16 ==> (u[i] <==> 3 <= i < 6 || 12 <= i)
    ensures Free(u, 6, 6) && Find(st, 6).None?
  {
    RefusedExactly(st, 6);
    forall s: nat | s < 16 ensures !Place(u, s, 6) {
      if Free(u, s, 6) {
        assert !u[s] && !u[s + 3] && !u[s + 5];
        assert s == 6 && Free(u, 0, 3);
      }
    }
  }

  function Reserved(st: Map, s: nat, n: nat): Map
    requires 0 < n && s + n <= 8 * |st.bytes|
  {
    Map(st.total, MarkedAll(st.bytes, s, n, true), st.used + n,
        if st.first == -1 || s < st.first then s else st.first,
        if st.last == -1 || s + n - 1 > st.last then s + n - 1 else st.last)
  }

  predicate SlotSet(m: seq<bv8>, s: nat)
    requires s < 8 * |m|
  {
    IsSet(m[s / 8], s % 8)
  }

  /** The first used slot from s on, up to slot e. */
  function FirstFrom(m: seq<bv8>, s: nat, e: nat): (r: nat)
    requires e <= 8 * |m|
    ensures s <= r && (r <= e || r == s)
    decreases e - s
  {
    if s < e && !SlotSet(m, s) then FirstFrom(m, s + 1, e) else s
  }

  /** The last used slot up to s, or -1. */
  function LastUpTo(m: seq<bv8>, s: int): (r: int)
    requires -1 <= s < 8 * |m|
    ensures -1 <= r <= s
    decreases s + 1
  {
    if s >= 0 && !SlotSet(m, s) then LastUpTo(m, s - 1) else s
  }

  /** slotmap_release. The branch for the first used slot updates the other hint. */
  function Released(st: Map, s: nat, n: nat): Map
    requires 0 < n <= st.used && s + n <= 8 * |st.bytes| && st.total <= 8 * |st.bytes|
  {
    Rehinted(Map(st.total, MarkedAll(st.bytes, s, n, false), st.used - n, st.first, st.last), s, n)
  }

  function Rehinted(st: Map, s: nat, n: nat): Map
    requires 0 < n && s + n <= 8 * |st.bytes| && st.total <= 8 * |st.bytes|
  {
    if st.used == 0 then st.(first := -1, last := -1)
    else
      var last := PassedFirst(st, s + n, s);
      st.(last := if s + n - 1 == last then LastUpTo(st.bytes, s - 1) else last)
  }

  /** The branch for the first used slot: the first one used from slot e on. */
  function PassedFirst(st: Map, e: nat, s: nat): int
    requires st.total <= 8 * |st.bytes|
  {
    var f := FirstFrom(st.bytes, e, st.total);
    if s != st.first then st.last else if f == st.total then -1 else f
  }

  // ---------- runs ----------

  /** A live reservation. */
  datatype Range = Range(start: nat, len: nat)

  predicate Covers(r: Range, i: int) { r.start <= i < r.start + r.len }

  datatype Op = Take(n: nat) | Give(i: nat)

  datatype World = World(st: Map, live: seq<Range>)

  function Next(w: World, op: Op): World {
    match op
    case Take(n) =>
      var r := Find(w.st, n);
      if r.Some? && 0 < n && r.value + n <= 8 * |w.st.bytes|
      then World(Reserved(w.st, r.value, n), w.live + [Range(r.value, n)]) else w
    case Give(i) =>
      if i < |w.live| && Owned(w.st, w.live[i])
      then World(Released(w.st, w.live[i].start, w.live[i].len), w.live[..i] + w.live[i + 1..]) else w
  }

  predicate Owned(st: Map, r: Range) {
    0 < r.len <= st.used && r.start + r.len <= 8 * |st.bytes| && st.total <= 8 * |st.bytes|
  }

  function After(total: nat, ops: seq<Op>): World {
    if ops == [] then World(Empty(total), []) else Next(After(total, ops[..|ops| - 1]), ops[|ops| - 1])
  }

  ghost predicate Disjoint(live: seq<Range>) {
    forall j, k, i :: 0 <= j < |live| && 0 <= k < |live| && Covers(live[j], i) && Covers(live[k], i) ==> j == k
  }

  ghost predicate Held(live: seq<Range>, i: int) { exists k :: 0 <= k < |live| && Covers(live[k], i) }

  /** The used slots are those of the live reservations, which do not overlap. */
  ghost predicate Ledger(u: seq<bool>, live: seq<Range>) {
    && Disjoint(live) && (forall k :: 0 <= k < |live| ==> 0 < live[k].len && live[k].start + live[k].len <= |u|)
    && forall i :: 0 <= i < |u| ==> (u[i] <==> Held(live, i))
  }

  ghost predicate Sound(w: World) {
    var st := w.st;
    && |st.bytes| == MapBytes(st.total) && st.used == Count(Slots(st.bytes)) && st.used <= st.total
    && -1 <= st.last <= 8 * |st.bytes| && Ledger(Slots(st.bytes), w.live)
  }

  lemma LedgerTake(u: seq<bool>, live: seq<Range>, s: nat, n: nat, r: seq<bool>)
    requires Ledger(u, live) && 0 < n && Free(u, s, n) && RangeSet(u, s, n, true, r)
    ensures Ledger(r, live + [Range(s, n)])
  {
    var more := live + [Range(s, n)];
    assert more[|live|] == Range(s, n) && forall k :: 0 <= k < |live| ==> more[k] == live[k];
    forall j, i | 0 <= j < |live| && Covers(live[j], i) ensures !(s <= i < s + n) {
      assert Held(live, i) && u[i];
    }
    forall j, k, i | 0 <= j < |more| && 0 <= k < |more| && Covers(more[j], i) && Covers(more[k], i) ensures j == k {
      if j < |live| { assert Covers(live[j], i); }
      if k < |live| { assert Covers(live[k], i); }
    }
    forall i | 0 <= i < |u| ensures r[i] <==> Held(more, i) {
      if Held(live, i) {
        var k :| 0 <= k < |live| && Covers(live[k], i);
        assert Covers(more[k], i);
      }
      if s <= i < s + n { assert Covers(more[|live|], i); }
      if Held(more, i) {
        var k :| 0 <= k < |more| && Covers(more[k], i);
        if k < |live| { assert Covers(live[k], i); }
      }
    }
  }

  lemma LedgerGive(u: seq<bool>, live: seq<Range>, k: nat, r: seq<bool>)
    requires Ledger(u, live) && k < |live| && RangeSet(u, live[k].start, live[k].len, false, r)
    ensures Ledger(r, live[..k] + live[k + 1..])
    ensures forall i :: live[k].start <= i < live[k].start + live[k].len ==> u[i]
  {
    var less := live[..k] + live[k + 1..];
    assert forall j :: 0 <= j < |less| ==> less[j] == if j < k then live[j] else live[j + 1];
    forall i | live[k].start <= i < live[k].start + live[k].len ensures u[i] {
      assert Covers(live[k], i);
    }
    forall i | 0 <= i < |u| ensures r[i] <==> Held(less, i) {
      HeldWithout(live, k, less, i);
    }
  }

  lemma HeldWithout(live: seq<Range>, k: nat, less: seq<Range>, i: nat)
    requires Disjoint(live) && k < |live| && less == live[..k] + live[k + 1..]
    ensures Held(less, i) <==> Held(live, i) && !Covers(live[k], i)
  {
    if j :| 0 <= j < |less| && Covers(less[j], i) {
      var m := if j < k then j else j + 1;
      assert less[j] == live[m];
    }
    if j :| 0 <= j < |live| && j != k && Covers(live[j], i) {
      var m := if j < k then j else j - 1;
      assert less[m] == live[j];
    }
  }

  lemma MapBytesBound(n: nat)
    ensures n <= 8 * MapBytes(n) < n + 8 && (n % 8 == 0 ==> 8 * MapBytes(n) == n)
  {
  }

  lemma TakeSound(w: World, n: nat)
    requires Sound(w)
    ensures Sound(Next(w, Take(n)))
    ensures Find(w.st, n).Some? ==> Next(w, Take(n)).live == w.live + [Range(Find(w.st, n).value, n)]
  {
    var st, r := w.st, Find(w.st, n);
    if r.Some? {
      var u := Slots(st.bytes);
      SlotsRep(st.bytes);
      SearchFree(st.bytes, u, if st.last > -1 && MapBytes(n) > 1 then st.last / 8 else 0, n, r.value);
      MarkedAllSlots(st.bytes, r.value, n, true);
      var v := Slots(MarkedAll(st.bytes, r.value, n, true));
      CountRange(u, r.value, n, true, v);
      LedgerTake(u, w.live, r.value, n, v);
    }
  }

  lemma GiveSound(w: World, i: nat)
    requires Sound(w)
    ensures Sound(Next(w, Give(i)))
    ensures i < |w.live| ==> Next(w, Give(i)).live == w.live[..i] + w.live[i + 1..]
  {
    if i < |w.live| {
      var st, r := w.st, w.live[i];
      var u := Slots(st.bytes);
      MapBytesBound(st.total);
      MarkedAllSlots(st.bytes, r.start, r.len, false);
      var v := Slots(MarkedAll(st.bytes, r.start, r.len, false));
      LedgerGive(u, w.live, i, v);
      CountRange(u, r.start, r.len, false, v);
      ReleasedIs(st, r.start, r.len);
    }
  }

  lemma ReleasedIs(st: Map, s: nat, n: nat)
    requires 0 < n <= st.used && s + n <= 8 * |st.bytes| && st.total <= 8 * |st.bytes| &&
      -1 <= st.last <= 8 * |st.bytes|
    ensures
      var st' := Released(st, s, n);
      && st'.total == st.total && st'.bytes == MarkedAll(st.bytes, s, n, false) && st'.used == st.used - n
      && -1 <= st'.last <= 8 * |st.bytes|
  {
  }

  lemma {:induction false} EmptySlots(k: nat)
    ensures AllClear(Slots(seq(k, i => 0)))
  {
    var m: seq<bv8> := seq(k, i => 0);
    var u := Slots(m);
    SlotsRep(m);
    forall i | 0 <= i < |u| ensures !u[i] {
      RepAt(m, u, i / 8, i % 8);
      EmptyByte(m[i / 8]);
    }
  }

  /** In every run, live reservations are disjoint, and they are the used slots. */
  lemma {:induction false} RunSound(total: nat, ops: seq<Op>)
    ensures Sound(After(total, ops)) && After(total, ops).st.total == total
  {
    if ops == [] {
      EmptySlots(MapBytes(total));
      CountAll(Slots(Empty(total).bytes));
    } else {
      var k, op := ops[..|ops| - 1], ops[|ops| - 1];
      RunSound(total, k);
      match op
      case Take(n) => TakeSound(After(total, k), n);
      case Give(i) => GiveSound(After(total, k), i);
    }
  }

  ghost predicate InsideMap(w: World) {
    forall k :: 0 <= k < |w.live| ==> w.live[k].start + w.live[k].len <= w.st.total
  }

  /** Where the number of slots is a multiple of eight, no reservation leaves the map, and one slot
      can be had exactly as long as there is a free one. */
  lemma WholeBytes(total: nat, ops: seq<Op>)
    requires total % 8 == 0
    ensures InsideMap(After(total, ops))
    ensures Find(After(total, ops).st, 1).None? <==> After(total, ops).st.used == total
  {
    RunSound(total, ops);
    MapBytesBound(total);
    var st := After(total, ops).st;
    if Find(st, 1).None? && st.used < total {
      SearchOne(st.bytes, 0);
      FullSlots(st.bytes);
    }
  }

  lemma FullSlots(m: seq<bv8>)
    requires forall k :: 0 <= k < |m| ==> m[k] == 0xFF
    ensures Count(Slots(m)) == 8 * |m|
  {
    SlotsRep(m);
    FullRep(m, Slots(m));
    CountAll(Slots(m));
  }

  lemma FullRep(m: seq<bv8>, u: seq<bool>)
    requires Rep(m, u) && forall k :: 0 <= k < |m| ==> m[k] == 0xFF
    ensures AllSet(u)
  {
    forall i | 0 <= i < |u| ensures u[i] {
      RepAt(m, u, i / 8, i % 8);
      EmptyByte(m[i / 8]);
    }
  }

  lemma BitsInjective(b: bv8, c: bv8)
    requires Bits(b) == Bits(c)
    ensures b == c
  {
    var x, y := Bits(b), Bits(c);
    assert x[0] == y[0] && x[1] == y[1] && x[2] == y[2] && x[3] == y[3];
    assert x[4] == y[4] && x[5] == y[5] && x[6] == y[6] && x[7] == y[7];
  }

  lemma SameMap(m: seq<bv8>, m': seq<bv8>, u: seq<bool>)
    requires |m| == |m'| && Rep(m, u) && Rep(m', u)
    ensures m == m'
  {
    forall k | 0 <= k < |m| ensures m[k] == m'[k] {
      assert Bits(m[k]) == u[8 * k..8 * k + 8] == Bits(m'[k]);
      BitsInjective(m[k], m'[k]);
    }
  }

  /** A release undoes its reservation. */
  lemma ReleaseUndoes(st: Map, s: nat, n: nat)
    requires 0 < n && Free(Slots(st.bytes), s, n) && st.total <= 8 * |st.bytes|
    ensures Released(Reserved(st, s, n), s, n).bytes == st.bytes && Released(Reserved(st, s, n), s, n).used == st.used
  {
    var m, u := st.bytes, Slots(st.bytes);
    SlotsRep(m);
    var m1 := MarkedAll(m, s, n, true);
    var u1 := MarkedAllRep(m, u, s, n, true);
    var u2 := MarkedAllRep(m1, u1, s, n, false);
    assert u2 == u;
    SameMap(MarkedAll(m1, s, n, false), m, u);
  }

  // ---------- the last byte ----------

  /** Only the bits up to t are set, if any, the last of them is. */
  lemma RunBehind(x: seq<bool>, t: nat)
    requires |x| == 8 && t <= 2 && (t > 0 ==> x[t - 1]) && forall j :: t <= j < 8 ==> !x[j]
    ensures Best(x, 0) == t && Zeros(x, t) == 8 - t
  {
    BestIs(x, 0);
    ZerosAre(x, t);
    ZerosAre(x, 0);
    assert Zeros(x, t) == 8 - t;
  }

  lemma RunBefore(x: seq<bool>)
    requires |x| == 8 && !x[0] && forall j :: 1 <= j < 8 ==> x[j]
    ensures Best(x, 0) == 0 && Zeros(x, 0) == 1
  {
    BestIs(x, 0);
    ZerosAre(x, 0);
    assert Zeros(x, 0) == 1;
  }

  lemma RunOf0()
    ensures LongestRun(0) == Run(0, 8)
  {
    EmptyByte(0);
    RunBehind(Bits(0), 0);
  }

  lemma RunOf1()
    ensures LongestRun(1) == Run(1, 7)
  {
    var x := Bits(1);
    assert x[0] && forall j :: 1 <= j < 8 ==> !x[j];
    RunBehind(x, 1);
  }

  lemma RunOf2()
    ensures LongestRun(2) == Run(2, 6)
  {
    var x := Bits(2);
    assert x[1] && forall j :: 2 <= j < 8 ==> !x[j];
    RunBehind(x, 2);
  }

  lemma RunOfFE()
    ensures LongestRun(0xFE) == Run(0, 1)
  {
    var x := Bits(0xFE);
    assert !x[0] && forall j :: 1 <= j < 8 ==> x[j];
    RunBefore(x);
  }

  /** A byte of which every clear bit is set is full. */
  lemma FillByte(m: seq<bv8>, k: nat, s: nat, n: nat)
    requires k < |m| && 8 * k <= s && s + n <= 8 * k + 8
    requires forall j :: 0 <= j < 8 ==> Bits(m[k])[j] || s <= 8 * k + j < s + n
    ensures MarkedAll(m, s, n, true) == m[k := 0xFF]
  {
    SlotsRep(m);
    var u := Slots(m);
    var r := MarkedAllRep(m, u, s, n, true);
    FilledRep(m, u, k, s, n, r);
    SameMap(MarkedAll(m, s, n, true), m[k := 0xFF], r);
  }

  lemma FilledRep(m: seq<bv8>, u: seq<bool>, k: nat, s: nat, n: nat, r: seq<bool>)
    requires Rep(m, u) && k < |m| && 8 * k <= s && s + n <= 8 * k + 8 && RangeSet(u, s, n, true, r)
    requires forall j :: 0 <= j < 8 ==> Bits(m[k])[j] || s <= 8 * k + j < s + n
    ensures Rep(m[k := 0xFF], r)
  {
    var m' := m[k := 0xFF];
    EmptyByte(0xFF);
    forall i | 0 <= i < |m'| ensures r[8 * i..8 * i + 8] == Bits(m'[i]) {
      assert u[8 * i..8 * i + 8] == Bits(m[i]);
      var y, x := r[8 * i..8 * i + 8], Bits(m'[i]);
      forall j | 0 <= j < 8 ensures y[j] == x[j] {
        assert u[8 * i..8 * i + 8][j] == u[8 * i + j];
      }
    }
  }

  lemma AfterMore(total: nat, ops: seq<Op>, op: Op)
    ensures After(total, ops + [op]) == Next(After(total, ops), op)
  {
    assert (ops + [op])[..|ops|] == ops;
  }

  lemma SearchOn(m: seq<bv8>, k: nat, n: nat, to: nat)
    requires k < |m| && Try(m, k, n) == Skip(to)
    ensures Search(m, k, n) == Search(m, to, n)
  {
  }

  lemma TryFull(m: seq<bv8>, k: nat, n: nat)
    requires k < |m| && m[k] == 0xFF
    ensures Try(m, k, n) == Skip(k + 1)
  {
  }

  lemma SearchHit(m: seq<bv8>, k: nat, n: nat, s: nat)
    requires k < |m| && Try(m, k, n) == Hit(s)
    ensures Search(m, k, n) == Some(s)
  {
  }

  lemma {:induction false} SkipFull(m: seq<bv8>, k: nat, j: nat, n: nat)
    requires k <= j <= |m| && forall i :: k <= i < j ==> m[i] == 0xFF
    ensures Search(m, k, n) == Search(m, j, n)
    decreases j - k
  {
    if k < j {
      StepFull(m, k, n);
      SkipFull(m, k + 1, j, n);
    }
  }

  lemma StepFull(m: seq<bv8>, k: nat, n: nat)
    requires k < |m| && m[k] == 0xFF
    ensures Search(m, k, n) == Search(m, k + 1, n)
  {
    TryFull(m, k, n);
    SearchOn(m, k, n, k + 1);
  }

  lemma TryInByte(m: seq<bv8>, j: nat, n: nat)
    requires 0 < n <= 8 && j < |m| && m[j] != 0xFF && LongestRun(m[j]).len >= n
    ensures Try(m, j, n) == Hit(8 * j + LongestRun(m[j]).start)
  {
  }

  /** The search takes the longest run of byte j if that is long enough and all bytes before are full. */
  lemma FindInByte(st: Map, j: nat, n: nat)
    requires 0 < n <= 8 && st.used + n <= st.total && j < |st.bytes| && st.bytes[j] != 0xFF
    requires (forall i :: 0 <= i < j ==> st.bytes[i] == 0xFF) && LongestRun(st.bytes[j]).len >= n
    ensures Find(st, n) == Some(8 * j + LongestRun(st.bytes[j]).start)
  {
    SkipFull(st.bytes, 0, j, n);
    TryInByte(st.bytes, j, n);
  }

  lemma TakeAt(w: World, j: nat, n: nat, s: nat)
    requires 0 < n <= 8 && w.st.used + n <= w.st.total && j < |w.st.bytes| && w.st.bytes[j] != 0xFF
    requires (forall i :: 0 <= i < j ==> w.st.bytes[i] == 0xFF) && LongestRun(w.st.bytes[j]).len >= n
    requires s == 8 * j + LongestRun(w.st.bytes[j]).start && s + n <= 8 * |w.st.bytes|
    ensures
      var w' := Next(w, Take(n));
      && w'.st.bytes == MarkedAll(w.st.bytes, s, n, true) && w'.st.used == w.st.used + n && w'.st.total == w.st.total
      && w'.live == w.live + [Range(s, n)]
  {
    FindInByte(w.st, j, n);
    TakeFound(w, n, s);
  }

  lemma TakeFound(w: World, n: nat, s: nat)
    requires 0 < n && Find(w.st, n) == Some(s) && s + n <= 8 * |w.st.bytes|
    ensures Next(w, Take(n)) == World(Reserved(w.st, s, n), w.live + [Range(s, n)])
  {
  }

  lemma GiveFirst(w: World)
    requires w.live != [] && Owned(w.st, w.live[0])
    ensures
      var w' := Next(w, Give(0));
      && w'.st.bytes == MarkedAll(w.st.bytes, w.live[0].start, w.live[0].len, false)
      && w'.st.used == w.st.used - w.live[0].len && w'.st.total == w.st.total && w'.live == w.live[1..]
  {
  }

  lemma MarkOneIs(m: seq<bv8>, s: nat, v: bool, b: bv8)
    requires s < 8 * |m| && b == Turned(m[s / 8], s % 8, v)
    ensures MarkedAll(m, s, 1, v) == m[s / 8 := b]
  {
    assert MarkedAll(m, s, 0, v) == m;
  }

  /** The first slot is slot 0. */
  lemma FirstSlot(total: nat)
    requires 0 < total
    ensures
      var w := After(total, [Take(1)]);
      && w.st.bytes == Empty(total).bytes[0 := 1] && w.st.used == 1 && w.st.total == total && w.live == [Range(0, 1)]
  {
    var w0 := After(total, []);
    MapBytesBound(total);
    RunOf0();
    TakeAt(w0, 0, 1, 0);
    MarkOneIs(w0.st.bytes, 0, true, 1);
    AfterMore(total, [], Take(1));
  }

  ghost predicate OneByte(w: World, total: nat, b: bv8, used: nat, live: seq<Range>) {
    w.st.total == total && |w.st.bytes| == 1 && w.st.bytes[0] == b && w.st.used == used && w.live == live
  }

  /** Two single slots, ... */
  lemma SecondSlot(total: nat, ops: seq<Op>)
    requires 1 < total < 8 && OneByte(After(total, ops), total, 1, 1, [Range(0, 1)])
    ensures OneByte(After(total, ops + [Take(1)]), total, 3, 2, [Range(0, 1), Range(1, 1)])
  {
    var w := After(total, ops);
    RunOf1();
    TakeAt(w, 0, 1, 1);
    MarkOneIs(w.st.bytes, 1, true, 3);
    AfterMore(total, ops, Take(1));
  }

  /** ... the first given back, ... */
  lemma GiveBack(total: nat, ops: seq<Op>)
    requires 1 < total < 8 && OneByte(After(total, ops), total, 3, 2, [Range(0, 1), Range(1, 1)])
    ensures OneByte(After(total, ops + [Give(0)]), total, 2, 1, [Range(1, 1)])
  {
    var w := After(total, ops);
    GiveFirst(w);
    MarkOneIs(w.st.bytes, 0, false, 2);
    AfterMore(total, ops, Give(0));
  }

  /** ... and the rest asked for at once. */
  lemma RestAtOnce(total: nat, ops: seq<Op>)
    requires 1 < total < 8 && OneByte(After(total, ops), total, 2, 1, [Range(1, 1)])
    ensures !InsideMap(After(total, ops + [Take(total - 1)]))
  {
    var w := After(total, ops);
    RunOf2();
    TakeAt(w, 0, total - 1, 2);
    AfterMore(total, ops, Take(total - 1));
    assert Next(w, Take(total - 1)).live[1] == Range(2, total - 1);
  }

  lemma SmallOverrun(total: nat) returns (ops: seq<Op>)
    requires 1 < total < 8
    ensures !InsideMap(After(total, ops))
  {
    FirstSlot(total);
    ops := [Take(1)];
    SecondSlot(total, ops);
    ops := ops + [Take(1)];
    GiveBack(total, ops);
    ops := ops + [Give(0)];
    RestAtOnce(total, ops);
    ops := ops + [Take(total - 1)];
  }

  // Eight slots and more: all bytes but the last full, one slot given back in front.

  ghost predicate FullUpTo(w: World, total: nat, k: nat) {
    && w.st.total == total && k < |w.st.bytes| == total / 8 + 1 && w.st.used == 8 * k
    && (forall i :: 0 <= i < k ==> w.st.bytes[i] == 0xFF) && (forall i :: k <= i < |w.st.bytes| ==> w.st.bytes[i] == 0)
    && w.live != [] && w.live[0] == Range(0, 1)
  }

  lemma FirstByte(total: nat) returns (ops: seq<Op>, w: World)
    requires total > 8 && total % 8 != 0
    ensures w == After(total, ops) && FullUpTo(w, total, 1)
  {
    FirstSlot(total);
    var w1 := After(total, [Take(1)]);
    RunOf1();
    TakeAt(w1, 0, 7, 1);
    assert forall j :: 0 <= j < 8 ==> Bits(w1.st.bytes[0])[j] || 1 <= 8 * 0 + j < 1 + 7 by { assert Bits(1)[0]; }
    FillByte(w1.st.bytes, 0, 1, 7);
    AfterMore(total, [Take(1)], Take(7));
    ops, w := [Take(1)] + [Take(7)], Next(w1, Take(7));
  }

  lemma {:induction false} AllBytes(total: nat, k: nat) returns (ops: seq<Op>, w: World)
    requires total > 8 && total % 8 != 0 && 1 <= k <= total / 8
    ensures w == After(total, ops) && FullUpTo(w, total, k)
  {
    if k == 1 {
      ops, w := FirstByte(total);
    } else {
      ops, w := AllBytes(total, k - 1);
      AfterMore(total, ops, Take(8));
      w := NextByte(w, total, k);
      ops := ops + [Take(8)];
    }
  }

  lemma NextByte(w: World, total: nat, k: nat) returns (w': World)
    requires total > 8 && total % 8 != 0 && 1 < k <= total / 8 && FullUpTo(w, total, k - 1)
    ensures w' == Next(w, Take(8)) && FullUpTo(w', total, k)
  {
    w' := Next(w, Take(8));
    RunOf0();
    TakeAt(w, k - 1, 8, 8 * (k - 1));
    FillByte(w.st.bytes, k - 1, 8 * (k - 1), 8);
  }

  lemma LargeOverrun(total: nat) returns (ops: seq<Op>)
    requires total > 8 && total % 8 != 0
    ensures !InsideMap(After(total, ops))
  {
    var q, n := total / 8, total % 8 + 1;
    var fill, w := AllBytes(total, q);
    GiveFirst(w);
    MarkOneIs(w.st.bytes, 0, false, 0xFE);
    AfterMore(total, fill, Give(0));
    ops := fill + [Give(0)];
    var w1 := After(total, ops);
    RunOfFE();
    RunOf0();
    FindPast(w1.st, q, n);
    RunSound(total, ops);
    TakeSound(w1, n);
    AfterMore(total, ops, Take(n));
    var w2 := Next(w1, Take(n));
    assert w2.live[|w1.live|] == Range(8 * q, n);
    ops := ops + [Take(n)];
  }

  /** The search finds the clear byte behind one with a single slot in front and full ones. */
  lemma FindPast(st: Map, q: nat, n: nat)
    requires 1 < n <= 8 && st.used + n <= st.total && |st.bytes| == q + 1 && q > 0
    requires st.bytes[0] != 0xFF && LongestRun(st.bytes[0]) == Run(0, 1)
    requires st.bytes[q] != 0xFF && LongestRun(st.bytes[q]) == Run(0, 8)
    requires forall i :: 1 <= i < q ==> st.bytes[i] == 0xFF
    ensures Find(st, n) == Some(8 * q)
  {
    assert MapBytes(n) == 1;
    SearchPast(st.bytes, q, n);
  }

  lemma SearchPast(m: seq<bv8>, q: nat, n: nat)
    requires 1 < n <= 8 && |m| == q + 1 && q > 0 && m[0] != 0xFF && LongestRun(m[0]) == Run(0, 1)
    requires (forall i :: 1 <= i < q ==> m[i] == 0xFF) && m[q] != 0xFF && LongestRun(m[q]) == Run(0, 8)
    ensures Search(m, 0, n) == Some(8 * q)
  {
    TryPast(m, n);
    SearchOn(m, 0, n, 1);
    SkipFull(m, 1, q, n);
    TryInByte(m, q, n);
  }

  lemma TryPast(m: seq<bv8>, n: nat)
    requires m != [] && m[0] != 0xFF && LongestRun(m[0]) == Run(0, 1) && 1 < n <= 8
    ensures Try(m, 0, n) == Skip(1)
  {
  }

  /** One slot: it is slot 0, or there is none. */
  lemma SingleSlot(w: World, n: nat)
    requires Sound(w) && w.st.total == 1 && InsideMap(w)
    ensures InsideMap(Next(w, Take(n)))
  {
    if Find(w.st, n).Some? {
      assert n == 1 && w.st.used == 0;
      SingleAt(w);
      TakeSound(w, 1);
    }
  }

  lemma SingleAt(w: World)
    requires Sound(w) && w.st.total == 1 && w.st.used == 0
    ensures Find(w.st, 1) == Some(0)
  {
    var m := w.st.bytes;
    CountAll(Slots(m));
    SlotsRep(m);
    ClearByte(m, Slots(m));
    RunOf0();
    FindInByte(w.st, 0, 1);
  }

  lemma ClearByte(m: seq<bv8>, u: seq<bool>)
    requires Rep(m, u) && AllClear(u) && |m| == 1
    ensures m[0] == 0
  {
    forall j | 0 <= j < 8 ensures !Bits(m[0])[j] {
      RepAt(m, u, 0, j);
    }
    EmptyByte(m[0]);
  }

  lemma {:induction false} SingleInside(ops: seq<Op>)
    ensures InsideMap(After(1, ops))
  {
    if ops != [] {
      var k, op := ops[..|ops| - 1], ops[|ops| - 1];
      SingleInside(k);
      RunSound(1, k);
      var w := After(1, k);
      match op
      case Take(n) => SingleSlot(w, n);
      case Give(i) => GiveSound(w, i);
    }
  }

  ghost predicate AlwaysInside(total: nat) { forall ops :: InsideMap(After(total, ops)) }

  /** No run leaves the map if and only if the number of slots is a multiple of eight, or one. */
  lemma InsideExactly(total: nat)
    ensures AlwaysInside(total) <==> total % 8 == 0 || total == 1
  {
    if total % 8 == 0 {
      forall ops ensures InsideMap(After(total, ops)) { WholeBytes(total, ops); }
    } else if total == 1 {
      forall ops ensures InsideMap(After(total, ops)) { SingleInside(ops); }
    } else if total < 8 {
      var ops := SmallOverrun(total);
    } else {
      var ops := LargeOverrun(total);
    }
  }

  // ---------- what the hints say ----------

  /** The hints are the first and the last slot that is used, -1 if there is none. */
  ghost predicate HintsRight(u: seq<bool>, first: int, last: int) {
    if AllClear(u) then first == -1 && last == -1
    else 0 <= first <= last < |u| && u[first] && u[last] && forall i :: 0 <= i < |u| && u[i] ==> first <= i <= last
  }

  lemma TakeHints(st: Map, s: nat, n: nat)
    requires 0 < n && s + n <= 8 * |st.bytes| && HintsRight(Slots(st.bytes), st.first, st.last)
    ensures var st' := Reserved(st, s, n); HintsRight(Slots(st'.bytes), st'.first, st'.last)
  {
    var u, v := Slots(st.bytes), Slots(MarkedAll(st.bytes, s, n, true));
    MarkedAllSlots(st.bytes, s, n, true);
    assert v[s] && v[s + n - 1];
  }

  /** As long as nothing is released, the hints are right. */
  lemma {:induction false} HintsOfTakes(total: nat, ops: seq<Op>)
    requires forall i :: 0 <= i < |ops| ==> ops[i].Take?
    ensures var st := After(total, ops).st; HintsRight(Slots(st.bytes), st.first, st.last)
  {
    if ops == [] {
      EmptySlots(MapBytes(total));
    } else {
      var w, op := After(total, ops[..|ops| - 1]), ops[|ops| - 1];
      HintsOfTakes(total, ops[..|ops| - 1]);
      var r := Find(w.st, op.n);
      if r.Some? && 0 < op.n && r.value + op.n <= 8 * |w.st.bytes| { TakeHints(w.st, r.value, op.n); }
    }
  }

  /** The slots of the use map, one by one. */
  ghost predicate Agree(m: seq<bv8>, u: seq<bool>) {
    |u| == 8 * |m| && forall i :: 0 <= i < |u| ==> (SlotSet(m, i) <==> u[i])
  }

  lemma {:induction false} SlotsAgree(m: seq<bv8>)
    ensures Agree(m, Slots(m))
  {
    SlotsRep(m);
    forall i | 0 <= i < 8 * |m| ensures SlotSet(m, i) <==> Slots(m)[i] {
      RepAt(m, Slots(m), i / 8, i % 8);
    }
  }

  /** The first slot used from s on, e if there is none before it. */
  function FirstTrue(u: seq<bool>, s: nat, e: nat): (f: nat)
    requires s <= e <= |u|
    ensures s <= f <= e
    decreases e - s
  {
    if s < e && !u[s] then FirstTrue(u, s + 1, e) else s
  }

  lemma {:induction false} SameFirst(m: seq<bv8>, u: seq<bool>, s: nat, e: nat)
    requires Agree(m, u) && s <= e <= |u|
    ensures FirstFrom(m, s, e) == FirstTrue(u, s, e)
    decreases e - s
  {
    if s < e { SameFirst(m, u, s + 1, e); }
  }

  lemma {:induction false} FirstTrueIs(u: seq<bool>, s: nat, e: nat)
    requires s <= e <= |u|
    ensures var f := FirstTrue(u, s, e); Free(u, s, f - s) && (f < e ==> u[f])
    decreases e - s
  {
    if s < e && !u[s] { FirstTrueIs(u, s + 1, e); }
  }

  /** The last slot used up to s, or -1. */
  function LastTrue(u: seq<bool>, s: int): (l: int)
    requires -1 <= s < |u|
    ensures -1 <= l <= s
    decreases s + 1
  {
    if s >= 0 && !u[s] then LastTrue(u, s - 1) else s
  }

  lemma {:induction false} SameLast(m: seq<bv8>, u: seq<bool>, s: int)
    requires Agree(m, u) && -1 <= s < |u|
    ensures LastUpTo(m, s) == LastTrue(u, s)
    decreases s + 1
  {
    if s >= 0 { SameLast(m, u, s - 1); }
  }

  lemma {:induction false} LastTrueIs(u: seq<bool>, s: int)
    requires -1 <= s < |u|
    ensures var l := LastTrue(u, s); Free(u, l + 1, s - l) && (l >= 0 ==> u[l])
    decreases s + 1
  {
    if s >= 0 && !u[s] { LastTrueIs(u, s - 1); }
  }

  /** The first slot used from s up to slot e, without e, or -1. */
  ghost predicate FirstUsed(u: seq<bool>, s: nat, e: nat, f: int) {
    if f == -1 then s <= e && Free(u, s, e - s) else s <= f < e <= |u| && u[f] && Free(u, s, f - s)
  }

  /** The last slot used before slot s, or -1. */
  ghost predicate LastUsed(u: seq<bool>, s: nat, l: int) {
    -1 <= l < s <= |u| && Free(u, l + 1, s - (l + 1)) && (l >= 0 ==> u[l])
  }

  /** What a release makes of the hints. That of the last slot follows if the last slots are released; if the
      first ones are, it is set to the first slot still used behind them, and that of the first slot stays. */
  lemma ReleaseHints(st: Map, s: nat, n: nat)
    requires 0 < n <= st.used && s + n <= st.total <= 8 * |st.bytes|
    ensures
      var st' := Released(st, s, n);
      var u := Slots(st'.bytes);
      if st.used == n then st'.first == -1 && st'.last == -1
      else
        && st'.first == st.first
        && (s == st.first ==> FirstUsed(u, s + n, st.total, st'.last))
        && (s != st.first && s + n - 1 == st.last ==> LastUsed(u, s, st'.last))
        && (s != st.first && s + n - 1 != st.last ==> st'.last == st.last)
  {
    var m := MarkedAll(st.bytes, s, n, false);
    SlotsAgree(m);
    if st.used > n {
      LastAfter(Map(st.total, m, st.used - n, st.first, st.last), s, n, Slots(m));
      LastCases(st, s, n, Slots(m));
    }
  }

  /** The last-used hint after a release, by the slots that are used then. */
  function NewLast(st: Map, s: nat, n: nat, u: seq<bool>): int
    requires 0 < n && s + n <= st.total <= |u|
  {
    var f := FirstTrue(u, s + n, st.total);
    var last := if s != st.first then st.last else if f == st.total then -1 else f;
    if s + n - 1 == last then LastTrue(u, s - 1) else last
  }

  lemma {:induction false} LastAfter(st: Map, s: nat, n: nat, u: seq<bool>)
    requires 0 < n && s + n <= st.total <= 8 * |st.bytes| && st.used > 0 && Agree(st.bytes, u)
    ensures Rehinted(st, s, n) == st.(last := NewLast(st, s, n, u))
  {
    SameFirst(st.bytes, u, s + n, st.total);
    SameLast(st.bytes, u, s - 1);
    LastBy(st, s, n, u, FirstTrue(u, s + n, st.total), LastTrue(u, s - 1));
  }

  lemma LastBy(st: Map, s: nat, n: nat, u: seq<bool>, f: nat, l: int)
    requires 0 < n && s + n <= st.total <= 8 * |st.bytes| == |u| && st.used > 0
    requires FirstFrom(st.bytes, s + n, st.total) == f == FirstTrue(u, s + n, st.total)
    requires LastUpTo(st.bytes, s - 1) == l == LastTrue(u, s - 1)
    ensures Rehinted(st, s, n) == st.(last := NewLast(st, s, n, u))
  {
  }

  lemma LastCases(st: Map, s: nat, n: nat, u: seq<bool>)
    requires 0 < n && s + n <= st.total <= |u|
    ensures
      var last := NewLast(st, s, n, u);
      && (s == st.first ==> FirstUsed(u, s + n, st.total, last))
      && (s != st.first && s + n - 1 == st.last ==> LastUsed(u, s, last))
      && (s != st.first && s + n - 1 != st.last ==> last == st.last)
  {
    FirstTrueIs(u, s + n, st.total);
    LastTrueIs(u, s - 1);
  }

  /** So a release of the first slots leaves a wrong hint, if more than one slot is still used behind them. */
  lemma HintTooLow(st: Map, s: nat, n: nat, f: nat, l: nat)
    requires 0 < n < st.used && s == st.first && s + n <= f < l < st.total <= 8 * |st.bytes|
    requires Slots(st.bytes)[f] && Slots(st.bytes)[l]
    ensures
      var st' := Released(st, s, n);
      Slots(st'.bytes)[l] && st'.last < l && !HintsRight(Slots(st'.bytes), st'.first, st'.last)
  {
    MarkedAllSlots(st.bytes, s, n, false);
    ReleaseHints(st, s, n);
    var u := Slots(Released(st, s, n).bytes);
    assert u[f] && u[l];
  }

  // ---------- what the hint costs ----------

  lemma WholeRep(m: seq<bv8>, a: nat, q: nat, v: bool, m': seq<bv8>, r: seq<bool>)
    requires a + q <= |m| == |m'| && RangeSet(Slots(m), 8 * a, 8 * q, v, r)
    requires forall i :: 0 <= i < |m| ==> m'[i] == if a <= i < a + q then (if v then 0xFF else 0) else m[i]
    ensures Rep(m', r)
  {
    SlotsRep(m);
    EmptyByte(0);
    EmptyByte(0xFF);
    forall i | 0 <= i < |m'| ensures r[8 * i..8 * i + 8] == Bits(m'[i]) {
      var y, x, z := r[8 * i..8 * i + 8], Bits(m'[i]), Slots(m)[8 * i..8 * i + 8];
      assert z == Bits(m[i]);
      forall j | 0 <= j < 8 ensures y[j] == x[j] {
        assert z[j] == Slots(m)[8 * i + j];
      }
    }
  }

  /** Marking whole bytes. */
  lemma WholeMarked(m: seq<bv8>, a: nat, q: nat, v: bool, s: nat, n: nat)
    requires a + q <= |m| && s == 8 * a && n == 8 * q
    ensures forall i :: 0 <= i < |m| ==>
      MarkedAll(m, s, n, v)[i] == if a <= i < a + q then (if v then 0xFF else 0) else m[i]
  {
    SlotsRep(m);
    var r := MarkedAllRep(m, Slots(m), s, n, v);
    var m' := seq(|m|, i requires 0 <= i < |m| => if a <= i < a + q then (if v then 0xFF as bv8 else 0) else m[i]);
    WholeRep(m, a, q, v, m', r);
    SameMap(MarkedAll(m, s, n, v), m', r);
  }

  /** The bytes from a to b are full, the others clear. */
  ghost predicate FullBetween(m: seq<bv8>, a: nat, b: nat) {
    a <= b <= |m| && forall i :: 0 <= i < |m| ==> m[i] == if a <= i < b then 0xFF else 0
  }

  lemma {:induction false} ZerosToEnd(m: seq<bv8>, k: nat)
    requires k <= |m| && forall i :: k <= i < |m| ==> m[i] == 0
    ensures ZeroBytes(m, k) == |m| - k
    decreases |m| - k
  {
    if k < |m| { ZerosToEnd(m, k + 1); }
  }

  lemma {:induction false} FullToEnd(m: seq<bv8>, k: nat, n: nat)
    requires forall i :: k <= i < |m| ==> m[i] == 0xFF
    ensures Search(m, k, n) == None
    decreases |m| - k
  {
    if k < |m| { FullToEnd(m, k + 1, n); }
  }

  /** A map of 2 * q bytes, of which the first or the last q are full. */
  ghost predicate Half(w: World, q: nat, a: nat, last: int, live: seq<Range>) {
    && w.st.total == 16 * q && |w.st.bytes| == 2 * q && w.st.used == 8 * q && w.st.first == 0 && w.st.last == last
    && FullBetween(w.st.bytes, a, a + q) && w.live == live
  }

  lemma TakeHalf(q: nat, ops: seq<Op>)
    requires q >= 2 && ops == [Take(8 * q)]
    ensures Half(After(16 * q, ops), q, 0, 8 * q - 1, [Range(0, 8 * q)])
  {
    var w := World(Empty(16 * q), []);
    assert ops[..0] == [] && After(16 * q, ops[..0]) == w;
    ZerosToEnd(w.st.bytes, 0);
    TryClear(w.st.bytes, 0, 8 * q);
    SearchHit(w.st.bytes, 0, 8 * q, 0);
    WholeMarked(w.st.bytes, 0, q, true, 0, 8 * q);
  }

  lemma TakeOther(w: World, q: nat) returns (w': World)
    requires q >= 2 && Half(w, q, 0, 8 * q - 1, [Range(0, 8 * q)])
    ensures w' == Next(w, Take(8 * q)) && w'.st.total == w'.st.used == 16 * q && |w'.st.bytes| == 2 * q
    ensures w'.st.first == 0 && FullBetween(w'.st.bytes, 0, 2 * q) && w'.live == [Range(0, 8 * q), Range(8 * q, 8 * q)]
  {
    w' := Next(w, Take(8 * q));
    FindOther(w.st, q);
    WholeMarked(w.st.bytes, q, q, true, 8 * q, 8 * q);
  }

  lemma TryClear(m: seq<bv8>, k: nat, n: nat)
    requires k < |m| && m[k] == 0 && MapBytes(n) > 1 && k + MapBytes(n) <= |m| && ZeroBytes(m, k) >= MapBytes(n)
    ensures Try(m, k, n) == Hit(8 * k)
  {
  }

  lemma FindOther(st: Map, q: nat)
    requires q >= 2 && st.total == 16 * q && |st.bytes| == 2 * q && st.used == 8 * q && st.last == 8 * q - 1
    requires FullBetween(st.bytes, 0, q)
    ensures Find(st, 8 * q) == Some(8 * q)
  {
    var m := st.bytes;
    ZerosToEnd(m, q);
    StepFull(m, q - 1, 8 * q);
    TryClear(m, q, 8 * q);
    SearchHit(m, q, 8 * q, 8 * q);
    assert st.last / 8 == q - 1;
  }

  lemma GiveHalf(w: World, q: nat) returns (w': World)
    requires q >= 2 && w.st.total == w.st.used == 16 * q && |w.st.bytes| == 2 * q && w.st.first == 0
    requires FullBetween(w.st.bytes, 0, 2 * q) && w.live == [Range(0, 8 * q), Range(8 * q, 8 * q)]
    ensures w' == Next(w, Give(0)) && Half(w', q, q, 8 * q, [Range(8 * q, 8 * q)])
  {
    w' := Next(w, Give(0));
    WholeMarked(w.st.bytes, 0, q, false, 0, 8 * q);
    var m := MarkedAll(w.st.bytes, 0, 8 * q, false);
    assert SlotSet(m, 8 * q) by { assert m[q] == 0xFF && IsSet(0xFF, 0); }
    assert FirstFrom(m, 8 * q, 16 * q) == 8 * q;
    assert w.live[1..] == [Range(8 * q, 8 * q)];
  }

  /** More than eight slots are only looked for from the last-used hint on: of two halves of the map that
      were reserved, the first one is released, and is refused to who asks for as many slots again. */
  lemma HintCosts(q: nat, ops: seq<Op>)
    requires q >= 2 && ops == [Take(8 * q)] + [Take(8 * q)] + [Give(0)]
    ensures
      var st := After(16 * q, ops).st;
      && Find(st, 8 * q) == None && st.total - st.used == 8 * q
      && |st.bytes| == 2 * q && Free(Slots(st.bytes), 0, 8 * q)
  {
    var total, one := 16 * q, [Take(8 * q)];
    TakeHalf(q, one);
    var w := TakeOther(After(total, one), q);
    AfterMore(total, one, Take(8 * q));
    AfterMore(total, one + [Take(8 * q)], Give(0));
    w := GiveHalf(w, q);
    FullToEnd(w.st.bytes, q, 8 * q);
    SlotsRep(w.st.bytes);
    ClearSlots(w.st.bytes, Slots(w.st.bytes), q);
  }

  lemma ClearSlots(m: seq<bv8>, u: seq<bool>, q: nat)
    requires Rep(m, u) && q <= |m| && forall i :: 0 <= i < q ==> m[i] == 0
    ensures Free(u, 0, 8 * q)
  {
    forall i | 0 <= i < 8 * q ensures !u[i] {
      EmptyByte(m[i / 8]);
      ClearSlot(m, u, i / 8, i % 8, i);
    }
  }

  lemma ClearSlot(m: seq<bv8>, u: seq<bool>, k: nat, j: nat, i: nat)
    requires k < |m| && j < 8 && i == 8 * k + j && Rep(m, u) && AllClear(Bits(m[k]))
    ensures !u[i]
  {
    var z, x := u[8 * k..8 * k + 8], Bits(m[k]);
    assert z == x && z[j] == u[i] && !x[j];
  }

  class SlotMapping {
    const total: nat
    const usemap: array<bv8>
    var used: nat
    var first: int
    var last: int

    ghost predicate Valid()
      reads this
    {
      usemap.Length == MapBytes(total) && used <= total && -1 <= last
    }

    ghost function Abs(): Map
      reads this, usemap
    {
      Map(total, usemap[..], used, first, last)
    }

    constructor (slots: nat)
      ensures Valid() && Abs() == Empty(slots) && fresh(usemap)
    {
      total, used, first, last := slots, 0, -1, -1;
      usemap := new bv8[MapBytes(slots)](i => 0);
    }

    /** Counts clear bytes from byte k on, up to as many as needed. */
    method CountZero(k: nat, need: nat) returns (count: nat)
      requires k + need <= usemap.Length && need > 0
      ensures count == if ZeroBytes(usemap[..], k) >= need then need else ZeroBytes(usemap[..], k)
    {
      count := 0;
      while count < need && usemap[k + count] == 0
        invariant count <= need && count + ZeroBytes(usemap[..], k + count) == ZeroBytes(usemap[..], k)
      {
        count := count + 1;
      }
    }

    /** Looks for n bits in byte k and the next one. */
    method TryByte(k: nat, n: nat) returns (r: Option<nat>)
      requires k < usemap.Length && n > 0
      ensures r == InByte(usemap[..], k, n)
    {
      var free, bit := FindZeroBits(usemap[k], n);
      r := None;
      if free >= n {
        r := Some(8 * k + bit);
      } else if k + 1 < usemap.Length {
        free, bit := FindZeroBits(usemap[k], free);
        if bit == 8 - free {
          var free2, bit2 := FindZeroBits(usemap[k + 1], n - free);
          if free2 >= n - free && bit2 == 0 { r := Some(8 * k + bit); }
        }
      }
    }

    /** The search loop of slotmap_reserve. */
    method SearchMap(start: nat, n: nat) returns (r: Option<nat>)
      requires n > 0
      ensures r == Search(usemap[..], start, n)
    {
      var need, k := MapBytes(n), start;
      while k < usemap.Length
        invariant Search(usemap[..], start, n) == Search(usemap[..], k, n)
      {
        if usemap[k] == 0xFF {
          k := k + 1;
        } else if need > 1 && k + need <= usemap.Length {
          var count := CountZero(k, need);
          if count == need { return Some(8 * k); }
          k := k + count + 1;
        } else {
          r := TryByte(k, n);
          if r.Some? { return; }
          k := k + 1;
        }
      }
      r := None;
    }

    /** use_slot and release_slot */
    method MarkOne(s: nat, v: bool)
      requires s < 8 * usemap.Length
      modifies usemap
      ensures usemap[..] == Marked(old(usemap[..]), s, v)
    {
      usemap[s / 8] := Turned(usemap[s / 8], s % 8, v);
    }

    /** Sets the use of n slots from s on. */
    method Mark(s: nat, n: nat, v: bool)
      requires s + n <= 8 * usemap.Length
      modifies usemap
      ensures usemap[..] == MarkedAll(old(usemap[..]), s, n, v)
    {
      for i := 0 to n
        invariant usemap[..] == MarkedAll(old(usemap[..]), s, i, v)
      {
        MarkOne(s + i, v);
      }
    }

    /** slotmap_reserve */
    method Reserve(n: nat) returns (r: int)
      requires Valid()
      modifies this`used, this`first, this`last, usemap
      ensures Valid()
      ensures match Find(old(Abs()), n)
        case None => r == -1 && Abs() == old(Abs())
        case Some(s) => r == s && s + n <= 8 * usemap.Length && Abs() == Reserved(old(Abs()), s, n)
    {
      if n == 0 || total - used < n { return -1; }
      var start := if last != -1 && MapBytes(n) > 1 then last / 8 else 0;
      var found := SearchMap(start, n);
      if found.None? { return -1; }
      SlotsRep(usemap[..]);
      SearchFree(usemap[..], Slots(usemap[..]), start, n, found.value);
      Keep(found.value, n);
      return found.value;
    }

    method Keep(s: nat, n: nat)
      requires Valid() && 0 < n && s + n <= 8 * usemap.Length && used + n <= total
      modifies this`used, this`first, this`last, usemap
      ensures Valid() && Abs() == Reserved(old(Abs()), s, n)
    {
      Mark(s, n, true);
      var end := s + n - 1;
      if first == -1 || s < first { first := s; }
      if last == -1 || end > last { last := end; }
      used := used + n;
    }

    /** slotmap_release, of slots that were reserved together. */
    method Release(s: nat, n: nat) returns (ok: bool)
      requires Valid() && 0 < n <= used && s + n <= 8 * usemap.Length
      modifies this`used, this`last, this`first, usemap
      ensures Valid() && ok == old(SlotSet(usemap[..], s))
      ensures Abs() == if ok then Released(old(Abs()), s, n) else old(Abs())
    {
      if usemap[s / 8] & Mask(s % 8) == 0 { return false; }
      MapBytesBound(total);
      Mark(s, n, false);
      used := used - n;
      Rehint(s, n);
      return true;
    }

    method Rehint(s: nat, n: nat)
      requires Valid() && 0 < n && s + n <= 8 * usemap.Length && total <= 8 * usemap.Length
      modifies this`last, this`first
      ensures Valid() && Abs() == Rehinted(old(Abs()), s, n)
    {
      if used == 0 {
        first, last := -1, -1;
        return;
      }
      PassFirst(s + n, s);
      if s + n - 1 == last {
        last := ScanDown(s - 1);
      }
    }

    method PassFirst(e: nat, s: nat)
      requires Valid() && e <= 8 * usemap.Length && total <= 8 * usemap.Length
      modifies this`last
      ensures Valid() && last == PassedFirst(old(Abs()), e, s)
    {
      if s == first {
        var f := ScanUp(e);
        last := if f == total then -1 else f;
      }
    }

    method ScanUp(s: nat) returns (f: nat)
      requires Valid() && total <= 8 * usemap.Length
      ensures f == FirstFrom(usemap[..], s, total)
    {
      f := s;
      while f < total && usemap[f / 8] & Mask(f % 8) == 0
        invariant FirstFrom(usemap[..], s, total) == FirstFrom(usemap[..], f, total)
      {
        f := f + 1;
      }
    }

    method ScanDown(s: int) returns (f: int)
      requires Valid() && -1 <= s < 8 * usemap.Length
      ensures f == LastUpTo(usemap[..], s)
    {
      f := s;
      while f >= 0 && usemap[f / 8] & Mask(f % 8) == 0
        invariant -1 <= f <= s && LastUpTo(usemap[..], s) == LastUpTo(usemap[..], f)
      {
        f := f - 1;
      }
    }
  }
}
