/** Two files of a client: they share the write index and the server, and do not affect each other. */
module Sharing {
  import opened FileSync
  import opened WriteSync
  import ReadBack

  /** The files are different, and so are their trees; the write index and the server are the same. */
  ghost predicate Beside(f: ClientFile, g: ClientFile) {
    f != g && f.gfid != g.gfid && f.Trees() !! g.Trees() && f.index == g.index && f.server == g.server
  }

  /** The file is open for writing. */
  ghost predicate Open(f: ClientFile)
    reads f.Repr()
  {
    f.Valid() && !f.laminated && !f.directory && f.logio
  }

  /** An operation on file f; file g stays as it is. */
  method ApplyTo(f: ClientFile, ghost g: ClientFile, op: Op)
    requires Open(f) && Open(g) && Beside(f, g) && Possible(op)
    modifies f, f.Trees(), f.index, f.index.entries, f.server
    ensures Open(f) && f.Abs() == Step(f.cfg, old(f.Abs()), op)
    ensures Open(g) && g.Abs() == old(g.Abs())
  {
    ReadBack.Apply(f, op);
    assert g.server.Record(g.gfid) == old(g.server.Record(g.gfid));
  }

  ghost predicate AllPossible(ops: seq<(bool, Op)>) { forall n :: 0 <= n < |ops| ==> Possible(ops[n].1) }

  /** The operations on one of the files. */
  function OpsOf(ops: seq<(bool, Op)>, first: bool): (own: seq<Op>)
    requires AllPossible(ops)
    ensures forall i :: 0 <= i < |own| ==> Possible(own[i])
  {
    if ops == [] then []
    else
      var rest, last := OpsOf(ops[..|ops| - 1], first), ops[|ops| - 1];
      if last.0 == first then rest + [last.1] else rest
  }

  ghost function RunOf(cfg: Config, ops: seq<(bool, Op)>, n: nat, first: bool): State
    requires AllPossible(ops) && n <= |ops|
  {
    Run(cfg, OpsOf(ops[..n], first))
  }

  lemma RunMore(cfg: Config, ops: seq<(bool, Op)>, n: nat, first: bool)
    requires AllPossible(ops) && n < |ops|
    ensures RunOf(cfg, ops, n + 1, first) ==
      if ops[n].0 == first then Step(cfg, RunOf(cfg, ops, n, first), ops[n].1) else RunOf(cfg, ops, n, first)
  {
    var own, all := OpsOf(ops[..n], first), OpsOf(ops[..n + 1], first);
    assert ops[..n + 1][..n] == ops[..n];
    if ops[n].0 == first { assert all[..|own|] == own; }
  }

  /** Each file is in the state of a run of its own operations, however those on both are interleaved. */
  method RunBoth(f: ClientFile, g: ClientFile, ops: seq<(bool, Op)>)
    requires Open(f) && Open(g) && Beside(f, g) && f.Abs() == INIT && g.Abs() == INIT && AllPossible(ops)
    modifies f, g, f.Trees(), g.Trees(), f.index, f.index.entries, f.server
    ensures Open(f) && f.Abs() == Run(f.cfg, OpsOf(ops, true))
    ensures Open(g) && g.Abs() == Run(g.cfg, OpsOf(ops, false))
  {
    for n := 0 to |ops|
      modifies f, g, f.Trees(), g.Trees(), f.index, f.index.entries, f.server
      invariant Open(f) && f.Abs() == RunOf(f.cfg, ops, n, true)
      invariant Open(g) && g.Abs() == RunOf(g.cfg, ops, n, false)
    {
      RunMore(f.cfg, ops, n, true);
      RunMore(g.cfg, ops, n, false);
      if ops[n].0 { ApplyTo(f, g, ops[n].1); } else { ApplyTo(g, f, ops[n].1); }
    }
    assert ops[..|ops|] == ops;
  }
}
