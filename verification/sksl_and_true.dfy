/** The loop-condition workaround: the test of every `for` loop `C` is
    emitted as `(C) && true`; nothing else in the program changes. */
module SkslAndTrue {
  import opened Options
  import opened SkslIr
  import opened SkslEval
  import opened SkslFacts

  function AndTrue(c: Expr): Expr {
    Binary(c, And, BoolLit(true))
  }

  function AndTrueOpt(test: Option<Expr>): Option<Expr> {
    match test
    case None => None
    case Some(c) => Some(AndTrue(c))
  }

  function AddAndTrue(s: Stmt): Stmt
    decreases s
  {
    match s
    case Block(ss) => Block(AddAndTrueBlock(ss))
    case If(c, t, f) => If(c, AddAndTrue(t), AddAndTrue(f))
    case For(init, test, next, body) => For(AddAndTrue(init), AndTrueOpt(test), next, AddAndTrue(body))
    case While(c, body) => While(c, AddAndTrue(body))
    case Do(body, c) => Do(AddAndTrue(body), c)
    case _ => s
  }

  function AddAndTrueBlock(ss: seq<Stmt>): (r: seq<Stmt>)
    ensures |r| == |ss|
    decreases ss
  {
    if |ss| == 0 then [] else [AddAndTrue(ss[0])] + AddAndTrueBlock(ss[1..])
  }

  /** Undoes the workaround: drops a trailing `&& true` from every `for`
      test. */
  function StripAndTrue(s: Stmt): Stmt
    decreases s
  {
    match s
    case Block(ss) => Block(StripAndTrueBlock(ss))
    case If(c, t, f) => If(c, StripAndTrue(t), StripAndTrue(f))
    case For(init, test, next, body) =>
      var test' := if test.Some? && test.value.Binary? && test.value.op.And? && test.value.right == BoolLit(true)
                   then Some(test.value.left) else test;
      For(StripAndTrue(init), test', next, StripAndTrue(body))
    case While(c, body) => While(c, StripAndTrue(body))
    case Do(body, c) => Do(StripAndTrue(body), c)
    case _ => s
  }

  function StripAndTrueBlock(ss: seq<Stmt>): (r: seq<Stmt>)
    ensures |r| == |ss|
    decreases ss
  {
    if |ss| == 0 then [] else [StripAndTrue(ss[0])] + StripAndTrueBlock(ss[1..])
  }

  /** The workaround only adds the `&& true`: stripping it gives back the
      program as written. */
  lemma {:induction false} StripUndoesAddAndTrue(s: Stmt)
    ensures StripAndTrue(AddAndTrue(s)) == s
    decreases s
  {
    match s
    case Block(ss) => StripUndoesAddAndTrueBlock(ss);
    case If(_, t, f) => StripUndoesAddAndTrue(t); StripUndoesAddAndTrue(f);
    case For(init, _, _, body) => StripUndoesAddAndTrue(init); StripUndoesAddAndTrue(body);
    case While(_, body) => StripUndoesAddAndTrue(body);
    case Do(body, _) => StripUndoesAddAndTrue(body);
    case ExprStmt(_) =>
    case VarDecl(_, _, _) =>
    case Break =>
    case Continue =>
  }

  lemma {:induction false} StripUndoesAddAndTrueBlock(ss: seq<Stmt>)
    ensures StripAndTrueBlock(AddAndTrueBlock(ss)) == ss
    decreases ss
  {
    if |ss| > 0 {
      StripUndoesAddAndTrue(ss[0]);
      StripUndoesAddAndTrueBlock(ss[1..]);
      var r := AddAndTrueBlock(ss);
      assert r[0] == AddAndTrue(ss[0]) && r[1..] == AddAndTrueBlock(ss[1..]);
    }
  }

  /** `c && true` is `c` when `c` is a boolean, and stuck otherwise. */
  lemma AndTrueValue(c: Expr, st: Store, ext: Ext)
    ensures Eval(AndTrue(c), st, ext)
         == (if Eval(c, st, ext).Some? && Eval(c, st, ext).value.value.BoolV? then Eval(c, st, ext) else None)
  {
    var r := Eval(c, st, ext);
    if r.Some? && r.value.value.BoolV? {
      assert TypeOf(c) == BoolType;
      assert Eval(BoolLit(true), r.value.store, ext) == Some(Evaluated(BoolV(true), r.value.store));
    }
  }

  /** The loop a `for`, `while` or `do` runs, with the test augmented when
      `augmented` holds. */
  function LoopTest(test: Option<Expr>, augmented: bool): Option<Expr> {
    if augmented then AndTrueOpt(test) else test
  }

  /** A statement runs exactly as before the workaround: same outcome, same
      store, same number of iterations of every loop. */
  lemma {:induction false} AddAndTrueExec(s: Stmt, st: Store, fuel: nat, ext: Ext)
    ensures Exec(AddAndTrue(s), st, fuel, ext) == Exec(s, st, fuel, ext)
    decreases fuel, s
  {
    match s
    case Block(ss) =>
      AddAndTrueBlockExec(ss, st, fuel, ext);
    case If(c, t, f) =>
      if Eval(c, st, ext).Some? {
        var r := Eval(c, st, ext).value;
        AddAndTrueExec(t, r.store, fuel, ext);
        AddAndTrueExec(f, r.store, fuel, ext);
      }
    case For(init, test, next, body) =>
      AddAndTrueExec(init, st, fuel, ext);
      var o := Exec(init, st, fuel, ext);
      if o.Normal? {
        AddAndTrueLoop(test, next, body, true, o.store, fuel, ext);
      }
    case While(c, body) =>
      AddAndTrueLoop(Some(c), None, body, false, st, fuel, ext);
    case Do(body, c) =>
      AddAndTrueExec(body, st, fuel, ext);
      var o := Exec(body, st, fuel, ext);
      if o.Normal? || o.Continued? {
        AddAndTrueLoop(Some(c), None, body, false, o.store, fuel, ext);
      }
    case ExprStmt(_) =>
    case VarDecl(_, _, _) =>
    case Break =>
    case Continue =>
  }

  lemma {:induction false} AddAndTrueBlockExec(ss: seq<Stmt>, st: Store, fuel: nat, ext: Ext)
    ensures ExecBlock(AddAndTrueBlock(ss), st, fuel, ext) == ExecBlock(ss, st, fuel, ext)
    decreases fuel, ss
  {
    if |ss| > 0 {
      AddAndTrueExec(ss[0], st, fuel, ext);
      var r := AddAndTrueBlock(ss);
      assert r[0] == AddAndTrue(ss[0]) && r[1..] == AddAndTrueBlock(ss[1..]);
      var o := Exec(ss[0], st, fuel, ext);
      if o.Normal? {
        AddAndTrueBlockExec(ss[1..], o.store, fuel, ext);
      }
    }
  }

  lemma {:induction false} AddAndTrueLoop(test: Option<Expr>, next: Option<Expr>, body: Stmt, augmented: bool,
                                          st: Store, fuel: nat, ext: Ext)
    ensures Loop(LoopTest(test, augmented), next, AddAndTrue(body), st, fuel, ext) == Loop(test, next, body, st, fuel, ext)
    decreases fuel, body, 0
  {
    if fuel > 0 {
      var test2 := LoopTest(test, augmented);
      if test.Some? {
        AndTrueValue(test.value, st, ext);
      }
      TestedAndTrue(test, augmented, st, ext);
      var tested := Tested(test, st, ext);
      if tested.Some? && tested.value.value == BoolV(true) {
        var r := tested.value;
        AddAndTrueExec(body, r.store, fuel - 1, ext);
        var o := Exec(body, r.store, fuel - 1, ext);
        if o.Normal? || o.Continued? {
          AddAndTrueLoopNext(test, next, body, augmented, o.store, fuel - 1, ext);
        }
      }
      LoopStepEq(test, next, body, test2, next, AddAndTrue(body), st, fuel, ext);
    }
  }

  /** Only a boolean test lets a loop go on; with `&& true` it has the same
      value. */
  lemma TestedAndTrue(test: Option<Expr>, augmented: bool, st: Store, ext: Ext)
    ensures var t1, t2 := Tested(LoopTest(test, augmented), st, ext), Tested(test, st, ext);
      (t1.Some? && t1.value.value.BoolV?) == (t2.Some? && t2.value.value.BoolV?)
      && (t2.Some? && t2.value.value.BoolV? ==> t1 == t2)
  {
    if augmented && test.Some? {
      AndTrueValue(test.value, st, ext);
    }
  }

  lemma {:induction false} AddAndTrueLoopNext(test: Option<Expr>, next: Option<Expr>, body: Stmt, augmented: bool,
                                              st: Store, fuel: nat, ext: Ext)
    ensures LoopNext(LoopTest(test, augmented), next, AddAndTrue(body), st, fuel, ext) == LoopNext(test, next, body, st, fuel, ext)
    decreases fuel, body, 1
  {
    if next.Some? && Eval(next.value, st, ext).Some? {
      AddAndTrueLoop(test, next, body, augmented, Eval(next.value, st, ext).value.store, fuel, ext);
    } else if next.None? {
      AddAndTrueLoop(test, next, body, augmented, st, fuel, ext);
    }
    LoopNextStepEq(test, next, body, LoopTest(test, augmented), next, AddAndTrue(body), st, fuel, ext);
  }
}
