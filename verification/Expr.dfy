/** tinyexpr: constant folding keeps the meaning of an expression. Values, functions and variables
    are left open; calls of functions that are not pure may also change the state W that later
    calls and variables see. */
module Expr {

  datatype Expr<V> =
    | Const(value: V)
    | Var(id: nat)
    | Call(fn: nat, pure: bool, args: seq<Expr<V>>)

  /** The meaning of function and variable names. A pure function depends on its arguments alone. */
  datatype Meaning<!V, !W> = Meaning(
    variable: (nat, W) -> V,
    pureFn: (nat, seq<V>) -> V,
    impureFn: (nat, seq<V>, W) -> (V, W))

  /** te_eval */
  function Eval<V, W>(m: Meaning<V, W>, e: Expr<V>, w: W): (V, W)
    decreases e, if e.Call? then |e.args| + 1 else 0
  {
    match e
    case Const(v) => (v, w)
    case Var(i) => (m.variable(i, w), w)
    case Call(f, pure, args) =>
      var (vs, w1) := EvalArgs(m, e, |args|, w);
      if pure then (m.pureFn(f, vs), w1) else m.impureFn(f, vs, w1)
  }

  /** The first k arguments of a call, from left to right. */
  function EvalArgs<V, W>(m: Meaning<V, W>, e: Expr<V>, k: nat, w: W): (r: (seq<V>, W))
    requires e.Call? && k <= |e.args|
    ensures |r.0| == k
    decreases e, k
  {
    if k == 0 then ([], w)
    else
      var (vs, w1) := EvalArgs(m, e, k - 1, w);
      var (v, w2) := Eval(m, e.args[k - 1], w1);
      (vs + [v], w2)
  }

  /** The arguments of a call, optimized. */
  function OptimizedArgs<V, W>(m: Meaning<V, W>, args: seq<Expr<V>>): (r: seq<Expr<V>>)
    ensures |r| == |args|
  {
    seq(|args|, i requires 0 <= i < |args| => Optimized(m, args[i]))
  }

  predicate AllConst<V>(args: seq<Expr<V>>) { forall i :: 0 <= i < |args| ==> args[i].Const? }

  function Values<V>(args: seq<Expr<V>>): seq<V>
    requires AllConst(args)
  {
    seq(|args|, i requires 0 <= i < |args| => args[i].value)
  }

  /** optimize: a call of a pure function whose arguments fold to constants becomes one itself. The
      arguments of other functions are left alone. */
  function Optimized<V, W>(m: Meaning<V, W>, e: Expr<V>): Expr<V> {
    if !e.Call? || !e.pure then e
    else
      var args := OptimizedArgs(m, e.args);
      if AllConst(args) then Const(m.pureFn(e.fn, Values(args))) else Call(e.fn, true, args)
  }

  lemma {:induction false} ConstArgs<V, W>(m: Meaning<V, W>, e: Expr<V>, k: nat, w: W)
    requires e.Call? && AllConst(e.args) && k <= |e.args|
    ensures EvalArgs(m, e, k, w) == (Values(e.args)[..k], w)
  {
    if k > 0 {
      ConstArgs(m, e, k - 1, w);
      assert Values(e.args)[..k] == Values(e.args)[..k - 1] + [e.args[k - 1].value];
    }
  }

  /** Folding keeps the value of every expression, and the state it leaves, in every state. */
  lemma {:induction false} Preserved<V, W>(m: Meaning<V, W>, e: Expr<V>, w: W)
    ensures Eval(m, Optimized(m, e), w) == Eval(m, e, w)
    decreases e, if e.Call? then |e.args| + 1 else 0
  {
    if e.Call? && e.pure {
      var args := OptimizedArgs(m, e.args);
      var c := Call(e.fn, true, args);
      ArgsPreserved(m, e, c, |args|, w);
      if AllConst(args) {
        ConstArgs(m, c, |args|, w);
        assert Values(args)[..|args|] == Values(args);
      }
    }
  }

  lemma {:induction false} ArgsPreserved<V, W>(m: Meaning<V, W>, e: Expr<V>, c: Expr<V>, k: nat, w: W)
    requires e.Call? && c.Call? && c.args == OptimizedArgs(m, e.args) && k <= |e.args|
    ensures EvalArgs(m, c, k, w) == EvalArgs(m, e, k, w)
    decreases e, k
  {
    if k > 0 {
      ArgsPreserved(m, e, c, k - 1, w);
      Preserved(m, e.args[k - 1], EvalArgs(m, e, k - 1, w).1);
    }
  }

  /** No variable and no function that is not pure. */
  predicate Closed<V>(e: Expr<V>) {
    match e
    case Const(_) => true
    case Var(_) => false
    case Call(_, pure, args) => pure && forall i :: 0 <= i < |args| ==> Closed(args[i])
  }

  /** An expression folds to a constant if and only if it is closed. */
  lemma {:induction false} FoldsExactly<V, W>(m: Meaning<V, W>, e: Expr<V>)
    ensures Optimized(m, e).Const? <==> Closed(e)
  {
    if e.Call? && e.pure {
      var args := OptimizedArgs(m, e.args);
      forall i | 0 <= i < |args| ensures args[i].Const? <==> Closed(e.args[i]) {
        FoldsExactly(m, e.args[i]);
      }
    }
  }

  lemma {:induction false} Stable<V, W>(m: Meaning<V, W>, e: Expr<V>)
    ensures Optimized(m, Optimized(m, e)) == Optimized(m, e)
  {
    if e.Call? && e.pure {
      var args := OptimizedArgs(m, e.args);
      forall i | 0 <= i < |args| ensures Optimized(m, args[i]) == args[i] {
        Stable(m, e.args[i]);
      }
      assert OptimizedArgs(m, args) == args;
    }
  }

  // ---------- laws of evaluation ----------

  /** The expression with a value in the place of variable x. */
  function Substituted<V>(e: Expr<V>, x: nat, v: V): Expr<V> {
    match e
    case Const(_) => e
    case Var(i) => if i == x then Const(v) else e
    case Call(f, pure, args) => Call(f, pure, SubstitutedArgs(args, x, v))
  }

  function SubstitutedArgs<V>(args: seq<Expr<V>>, x: nat, v: V): (r: seq<Expr<V>>)
    ensures |r| == |args|
  {
    seq(|args|, i requires 0 <= i < |args| => Substituted(args[i], x, v))
  }

  /** The meaning in which variable x has value v, and all else stays. */
  ghost predicate Binds<V, W(!new)>(m: Meaning<V, W>, x: nat, v: V, m': Meaning<V, W>) {
    && m'.pureFn == m.pureFn && m'.impureFn == m.impureFn
    && forall i, w :: m'.variable(i, w) == if i == x then v else m.variable(i, w)
  }

  /** Putting a value in the place of a variable is giving it to the variable. */
  lemma {:induction false} Substitution<V, W(!new)>(m: Meaning<V, W>, m': Meaning<V, W>, e: Expr<V>, x: nat, v: V, w: W)
    requires Binds(m, x, v, m')
    ensures Eval(m, Substituted(e, x, v), w) == Eval(m', e, w)
    decreases e, if e.Call? then |e.args| + 1 else 0
  {
    if e.Call? { ArgsSubstitution(m, m', e, x, v, |e.args|, w); }
  }

  lemma {:induction false} ArgsSubstitution<V, W(!new)>(m: Meaning<V, W>, m': Meaning<V, W>, e: Expr<V>, x: nat, v: V,
                                                        k: nat, w: W)
    requires Binds(m, x, v, m') && e.Call? && k <= |e.args|
    ensures EvalArgs(m, Substituted(e, x, v), k, w) == EvalArgs(m', e, k, w)
    decreases e, k
  {
    if k > 0 {
      ArgsSubstitution(m, m', e, x, v, k - 1, w);
      Substitution(m, m', e.args[k - 1], x, v, EvalArgs(m', e, k - 1, w).1);
    }
  }

  /** A closed expression changes no state, and its value depends on the pure functions alone. */
  lemma {:induction false} ClosedAlone<V, W>(m: Meaning<V, W>, m': Meaning<V, W>, e: Expr<V>, w: W, w': W)
    requires Closed(e) && m.pureFn == m'.pureFn
    ensures Eval(m, e, w).1 == w && Eval(m, e, w).0 == Eval(m', e, w').0
  {
    FoldsExactly(m, e);
    Preserved(m, e, w);
    Preserved(m', e, w');
    SameFolding(m, m', e);
  }

  lemma {:induction false} SameFolding<V, W>(m: Meaning<V, W>, m': Meaning<V, W>, e: Expr<V>)
    requires m.pureFn == m'.pureFn
    ensures Optimized(m, e) == Optimized(m', e)
  {
    if e.Call? && e.pure {
      forall i | 0 <= i < |e.args| ensures Optimized(m, e.args[i]) == Optimized(m', e.args[i]) {
        SameFolding(m, m', e.args[i]);
      }
      assert OptimizedArgs(m, e.args) == OptimizedArgs(m', e.args);
    }
  }

  /** Arguments one by one from the first on, each in the state that those before it have left. */
  function InTurn<V, W>(m: Meaning<V, W>, args: seq<Expr<V>>, w: W): (seq<V>, W) {
    if args == [] then ([], w)
    else
      var (v, w1) := Eval(m, args[0], w);
      var (vs, w2) := InTurn(m, args[1..], w1);
      ([v] + vs, w2)
  }

  lemma {:induction false} InTurnMore<V, W>(m: Meaning<V, W>, args: seq<Expr<V>>, a: Expr<V>, w: W)
    ensures
      var (vs, w1) := InTurn(m, args, w);
      var (v, w2) := Eval(m, a, w1);
      InTurn(m, args + [a], w) == (vs + [v], w2)
    decreases |args|
  {
    var all := args + [a];
    if args == [] {
      var v := Eval(m, a, w).0;
      assert all[0] == a && all[1..] == [] && [v] + [] == [v] == [] + [v];
    } else {
      assert all[0] == args[0] && all[1..] == args[1..] + [a];
      var (v0, w0) := Eval(m, args[0], w);
      InTurnMore(m, args[1..], a, w0);
      var (vs, w1) := InTurn(m, args[1..], w0);
      assert ([v0] + vs) + [Eval(m, a, w1).0] == [v0] + (vs + [Eval(m, a, w1).0]);
    }
  }

  lemma {:induction false} ArgsInTurn<V, W>(m: Meaning<V, W>, e: Expr<V>, k: nat, w: W)
    requires e.Call? && k <= |e.args|
    ensures EvalArgs(m, e, k, w) == InTurn(m, e.args[..k], w)
  {
    if k > 0 {
      ArgsInTurn(m, e, k - 1, w);
      InTurnMore(m, e.args[..k - 1], e.args[k - 1], w);
      assert e.args[..k] == e.args[..k - 1] + [e.args[k - 1]];
    }
  }

  /** A call evaluates its arguments in turn, with their effects, and then its function. */
  lemma CallInTurn<V, W>(m: Meaning<V, W>, f: nat, pure: bool, args: seq<Expr<V>>, w: W)
    ensures
      var (vs, w1) := InTurn(m, args, w);
      Eval(m, Call(f, pure, args), w) == if pure then (m.pureFn(f, vs), w1) else m.impureFn(f, vs, w1)
  {
    ArgsInTurn(m, Call(f, pure, args), |args|, w);
    assert args[..|args|] == args;
  }
}
