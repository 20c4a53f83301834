/** How a rewrite rule that looks at one node is applied to a whole
    program: to every node of an expression, children first, and to every
    expression of a statement. A rule that keeps the value and type of the
    node it rewrites keeps the meaning of the whole program. */
module SkslRewrite {
  import opened Options
  import opened SkslIr
  import opened SkslEval
  import opened SkslFacts

  /** `rule` rewrites a node whose value is defined into one with the
      same value and the same final store. */
  ghost predicate KeepsValue(rule: Expr -> Expr, ext: Ext) {
    forall e, st {:trigger Eval(rule(e), st, ext)} :: Eval(e, st, ext).Some? ==> Eval(rule(e), st, ext) == Eval(e, st, ext)
  }

  /** `rule` never changes the static type of a node. */
  ghost predicate KeepsType(rule: Expr -> Expr) {
    forall e :: TypeOf(rule(e)) == TypeOf(e)
  }

  /** Applies `rule` at every node of `e`, children first. */
  function Everywhere(rule: Expr -> Expr, e: Expr): Expr
    decreases e, 2
  {
    rule(Children(rule, e))
  }

  /** `e` with `rule` applied everywhere inside its children. */
  function Children(rule: Expr -> Expr, e: Expr): Expr
    decreases e, 1
  {
    match e
    case Neg(a) => Neg(Everywhere(rule, a))
    case Not(a) => Not(Everywhere(rule, a))
    case Binary(l, op, r) => Binary(Everywhere(rule, l), op, Everywhere(rule, r))
    case Ternary(c, t, f) => Ternary(Everywhere(rule, c), Everywhere(rule, t), Everywhere(rule, f))
    case Call(fn, args, ty) => Call(fn, EverywhereArgs(rule, args), ty)
    case Construct(ty, args) => Construct(ty, EverywhereArgs(rule, args))
    case Swizzle(b, mask) => Swizzle(Everywhere(rule, b), mask)
    case Assign(x, v) => Assign(x, Everywhere(rule, v))
    case BoolLit(_) => e
    case IntLit(_) => e
    case FloatLit(_) => e
    case Var(_, _) => e
  }

  function EverywhereArgs(rule: Expr -> Expr, args: seq<Expr>): (r: seq<Expr>)
    ensures |r| == |args|
    decreases args, 3
  {
    if |args| == 0 then [] else [Everywhere(rule, args[0])] + EverywhereArgs(rule, args[1..])
  }

  lemma {:induction false} EverywhereType(rule: Expr -> Expr, e: Expr)
    requires KeepsType(rule)
    ensures TypeOf(Everywhere(rule, e)) == TypeOf(e)
    ensures TypeOf(Children(rule, e)) == TypeOf(e)
    decreases e
  {
    match e
    case Neg(a) => EverywhereType(rule, a);
    case Not(a) =>
    case Binary(l, _, r) => EverywhereType(rule, l); EverywhereType(rule, r);
    case Ternary(c, t, f) => EverywhereType(rule, c); EverywhereType(rule, t); EverywhereType(rule, f);
    case Call(_, _, _) =>
    case Construct(_, _) =>
    case Swizzle(b, _) => EverywhereType(rule, b);
    case Assign(_, v) => EverywhereType(rule, v);
    case BoolLit(_) =>
    case IntLit(_) =>
    case FloatLit(_) =>
    case Var(_, _) =>
  }

  /** A value- and type-keeping rule applied everywhere keeps the value and
      final store of every expression whose evaluation is defined. */
  lemma {:induction false} EverywhereValue(rule: Expr -> Expr, e: Expr, st: Store, ext: Ext)
    requires KeepsValue(rule, ext) && KeepsType(rule)
    requires Eval(e, st, ext).Some?
    ensures Eval(Everywhere(rule, e), st, ext) == Eval(e, st, ext)
    decreases e, 2
  {
    ChildrenValue(rule, e, st, ext);
  }

  lemma {:induction false} ChildrenValue(rule: Expr -> Expr, e: Expr, st: Store, ext: Ext)
    requires KeepsValue(rule, ext) && KeepsType(rule)
    requires Eval(e, st, ext).Some?
    ensures Eval(Children(rule, e), st, ext) == Eval(e, st, ext)
    decreases e, 1
  {
    match e
    case Neg(a) =>
      EverywhereValue(rule, a, st, ext);
      EverywhereType(rule, a);
    case Not(a) =>
      EverywhereValue(rule, a, st, ext);
    case Binary(l, op, r) =>
      BinaryValue(rule, l, op, r, st, ext);
    case Ternary(c, t, f) =>
      TernaryValue(rule, c, t, f, st, ext);
    case Call(fn, args, ty) =>
      EverywhereArgsValue(rule, args, st, ext);
    case Construct(ty, args) =>
      EverywhereArgsValue(rule, args, st, ext);
    case Swizzle(b, mask) =>
      EverywhereValue(rule, b, st, ext);
      EverywhereType(rule, b);
    case Assign(x, v) =>
      EverywhereValue(rule, v, st, ext);
      EverywhereType(rule, v);
    case BoolLit(_) =>
    case IntLit(_) =>
    case FloatLit(_) =>
    case Var(_, _) =>
  }

  lemma {:induction false} BinaryValue(rule: Expr -> Expr, l: Expr, op: BinOp, r: Expr, st: Store, ext: Ext)
    requires KeepsValue(rule, ext) && KeepsType(rule)
    requires Eval(Binary(l, op, r), st, ext).Some?
    ensures Eval(Binary(Everywhere(rule, l), op, Everywhere(rule, r)), st, ext) == Eval(Binary(l, op, r), st, ext)
    decreases Binary(l, op, r), 0
  {
    EverywhereValue(rule, l, st, ext);
    EverywhereType(rule, l);
    EverywhereType(rule, r);
    var rl := Eval(l, st, ext).value;
    if Eval(r, rl.store, ext).Some? {
      EverywhereValue(rule, r, rl.store, ext);
    }
    BinaryEq(l, op, r, Everywhere(rule, l), Everywhere(rule, r), st, ext);
  }

  lemma {:induction false} TernaryValue(rule: Expr -> Expr, c: Expr, t: Expr, f: Expr, st: Store, ext: Ext)
    requires KeepsValue(rule, ext) && KeepsType(rule)
    requires Eval(Ternary(c, t, f), st, ext).Some?
    ensures Eval(Ternary(Everywhere(rule, c), Everywhere(rule, t), Everywhere(rule, f)), st, ext) == Eval(Ternary(c, t, f), st, ext)
    decreases Ternary(c, t, f), 0
  {
    EverywhereValue(rule, c, st, ext);
    EverywhereType(rule, c);
    EverywhereType(rule, t);
    EverywhereType(rule, f);
    var rc := Eval(c, st, ext).value;
    if rc.value.b {
      EverywhereValue(rule, t, rc.store, ext);
    } else {
      EverywhereValue(rule, f, rc.store, ext);
    }
  }

  lemma {:induction false} EverywhereArgsValue(rule: Expr -> Expr, args: seq<Expr>, st: Store, ext: Ext)
    requires KeepsValue(rule, ext) && KeepsType(rule)
    requires EvalArgs(args, st, ext).Some?
    ensures EvalArgs(EverywhereArgs(rule, args), st, ext) == EvalArgs(args, st, ext)
    decreases args, 3
  {
    if |args| > 0 {
      EverywhereValue(rule, args[0], st, ext);
      EverywhereArgsValue(rule, args[1..], Eval(args[0], st, ext).value.store, ext);
      var r := EverywhereArgs(rule, args);
      assert r[0] == Everywhere(rule, args[0]) && r[1..] == EverywhereArgs(rule, args[1..]);
    }
  }

  function EverywhereOpt(rule: Expr -> Expr, e: Option<Expr>): Option<Expr> {
    match e
    case None => None
    case Some(x) => Some(Everywhere(rule, x))
  }

  /** Applies `rule` everywhere in every expression of a statement. */
  function InStmt(rule: Expr -> Expr, s: Stmt): Stmt
    decreases s
  {
    match s
    case ExprStmt(e) => ExprStmt(Everywhere(rule, e))
    case VarDecl(ty, x, init) => VarDecl(ty, x, EverywhereOpt(rule, init))
    case Block(ss) => Block(InBlock(rule, ss))
    case If(c, t, f) => If(Everywhere(rule, c), InStmt(rule, t), InStmt(rule, f))
    case For(init, test, next, body) => For(InStmt(rule, init), EverywhereOpt(rule, test), EverywhereOpt(rule, next), InStmt(rule, body))
    case While(c, body) => While(Everywhere(rule, c), InStmt(rule, body))
    case Do(body, c) => Do(InStmt(rule, body), Everywhere(rule, c))
    case Break => Break
    case Continue => Continue
  }

  function InBlock(rule: Expr -> Expr, ss: seq<Stmt>): (r: seq<Stmt>)
    ensures |r| == |ss|
    decreases ss
  {
    if |ss| == 0 then [] else [InStmt(rule, ss[0])] + InBlock(rule, ss[1..])
  }

  lemma EverywhereOptValue(rule: Expr -> Expr, e: Option<Expr>, st: Store, ext: Ext)
    requires KeepsValue(rule, ext) && KeepsType(rule)
    requires e.Some? && Eval(e.value, st, ext).Some?
    ensures Eval(EverywhereOpt(rule, e).value, st, ext) == Eval(e.value, st, ext)
  {
    EverywhereValue(rule, e.value, st, ext);
  }

  /** A value- and type-keeping rule applied to a statement changes nothing
      about how it runs, unless the original gets stuck. */
  lemma {:induction false} InStmtExec(rule: Expr -> Expr, s: Stmt, st: Store, fuel: nat, ext: Ext)
    requires KeepsValue(rule, ext) && KeepsType(rule)
    requires !Exec(s, st, fuel, ext).Stuck?
    ensures Exec(InStmt(rule, s), st, fuel, ext) == Exec(s, st, fuel, ext)
    decreases fuel, s
  {
    match s
    case ExprStmt(e) =>
      EverywhereValue(rule, e, st, ext);
    case VarDecl(_, _, init) =>
      if init.Some? {
        EverywhereValue(rule, init.value, st, ext);
      }
    case Block(ss) =>
      InBlockExec(rule, ss, st, fuel, ext);
    case If(c, t, f) =>
      EverywhereValue(rule, c, st, ext);
      var r := Eval(c, st, ext).value;
      if r.value.b {
        InStmtExec(rule, t, r.store, fuel, ext);
      } else {
        InStmtExec(rule, f, r.store, fuel, ext);
      }
    case For(init, test, next, body) =>
      InStmtExec(rule, init, st, fuel, ext);
      var o := Exec(init, st, fuel, ext);
      if o.Normal? {
        InLoopExec(rule, test, next, body, o.store, fuel, ext);
      }
    case While(c, body) =>
      InLoopExec(rule, Some(c), None, body, st, fuel, ext);
    case Do(body, c) =>
      InStmtExec(rule, body, st, fuel, ext);
      var o := Exec(body, st, fuel, ext);
      if o.Normal? || o.Continued? {
        InLoopExec(rule, Some(c), None, body, o.store, fuel, ext);
      }
    case Break =>
    case Continue =>
  }

  lemma {:induction false} InBlockExec(rule: Expr -> Expr, ss: seq<Stmt>, st: Store, fuel: nat, ext: Ext)
    requires KeepsValue(rule, ext) && KeepsType(rule)
    requires !ExecBlock(ss, st, fuel, ext).Stuck?
    ensures ExecBlock(InBlock(rule, ss), st, fuel, ext) == ExecBlock(ss, st, fuel, ext)
    decreases fuel, ss
  {
    if |ss| > 0 {
      InStmtExec(rule, ss[0], st, fuel, ext);
      var o := Exec(ss[0], st, fuel, ext);
      var r := InBlock(rule, ss);
      assert r[0] == InStmt(rule, ss[0]) && r[1..] == InBlock(rule, ss[1..]);
      if o.Normal? {
        InBlockExec(rule, ss[1..], o.store, fuel, ext);
      }
    }
  }

  lemma {:induction false} InLoopExec(rule: Expr -> Expr, test: Option<Expr>, next: Option<Expr>, body: Stmt, st: Store, fuel: nat, ext: Ext)
    requires KeepsValue(rule, ext) && KeepsType(rule)
    requires !Loop(test, next, body, st, fuel, ext).Stuck?
    ensures Loop(EverywhereOpt(rule, test), EverywhereOpt(rule, next), InStmt(rule, body), st, fuel, ext)
         == Loop(test, next, body, st, fuel, ext)
    decreases fuel, body, 0
  {
    if fuel > 0 {
      var test2, next2, body2 := EverywhereOpt(rule, test), EverywhereOpt(rule, next), InStmt(rule, body);
      LoopUnfold(test, next, body, st, fuel, ext);
      var tested := Tested(test, st, ext);
      if test.Some? {
        EverywhereOptValue(rule, test, st, ext);
      }
      assert Tested(test2, st, ext) == tested;
      var r := tested.value;
      if r.value.b {
        InStmtExec(rule, body, r.store, fuel - 1, ext);
        var o := Exec(body, r.store, fuel - 1, ext);
        if o.Normal? || o.Continued? {
          InLoopNextExec(rule, test, next, body, o.store, fuel - 1, ext);
        }
      }
      LoopStepEq(test, next, body, test2, next2, body2, st, fuel, ext);
    }
  }

  lemma {:induction false} InLoopNextExec(rule: Expr -> Expr, test: Option<Expr>, next: Option<Expr>, body: Stmt, st: Store, fuel: nat, ext: Ext)
    requires KeepsValue(rule, ext) && KeepsType(rule)
    requires !LoopNext(test, next, body, st, fuel, ext).Stuck?
    ensures LoopNext(EverywhereOpt(rule, test), EverywhereOpt(rule, next), InStmt(rule, body), st, fuel, ext)
         == LoopNext(test, next, body, st, fuel, ext)
    decreases fuel, body, 1
  {
    var test2, next2, body2 := EverywhereOpt(rule, test), EverywhereOpt(rule, next), InStmt(rule, body);
    if next.Some? {
      EverywhereValue(rule, next.value, st, ext);
      InLoopExec(rule, test, next, body, Eval(next.value, st, ext).value.store, fuel, ext);
    } else {
      InLoopExec(rule, test, next, body, st, fuel, ext);
    }
    LoopNextStepEq(test, next, body, test2, next2, body2, st, fuel, ext);
  }
}
