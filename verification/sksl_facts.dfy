/** General facts about the reference semantics: evaluation only depends on
    the variables an expression names, leaves the others untouched, and a
    pure expression leaves the store as it was. */
module SkslFacts {
  import opened Options
  import opened SkslIr
  import opened SkslEval

  /** Two stores that differ at most on variables whose names begin with
      `prefix` (the generator's own temporaries). */
  ghost predicate Agree(st1: Store, st2: Store, prefix: string) {
    forall x :: !(prefix <= x) ==> (x in st1 <==> x in st2) && (x in st1 ==> st1[x] == st2[x])
  }

  /** The same value and agreeing stores, or both stuck. */
  ghost predicate SameResult(r1: Option<Evaluated>, r2: Option<Evaluated>, prefix: string) {
    r1.Some? == r2.Some? && (r1.Some? ==> r1.value.value == r2.value.value && Agree(r1.value.store, r2.value.store, prefix))
  }

  ghost predicate SameArgs(r1: Option<EvaluatedArgs>, r2: Option<EvaluatedArgs>, prefix: string) {
    r1.Some? == r2.Some? && (r1.Some? ==> r1.value.values == r2.value.values && Agree(r1.value.store, r2.value.store, prefix))
  }

  /** Variable `x` is present in `after` exactly when in `before`, with the same value. */
  predicate Keeps(before: Store, after: Store, x: string) {
    (x in before <==> x in after) && (x in before ==> after[x] == before[x])
  }

  predicate OutcomeKeeps(before: Store, o: Outcome, x: string) {
    (o.Normal? || o.Broke? || o.Continued?) ==> Keeps(before, o.store, x)
  }

  lemma AgreeReflexive(st: Store, prefix: string)
    ensures Agree(st, st, prefix)
  {
  }

  /* ----- One node evaluated in two stores, its operands already alike ----- */

  lemma VarAgree(x: string, ty: Type, st1: Store, st2: Store, prefix: string, ext: Ext)
    requires !(prefix <= x) && Agree(st1, st2, prefix)
    ensures SameResult(Eval(Var(x, ty), st1, ext), Eval(Var(x, ty), st2, ext), prefix)
  {
  }

  lemma NegAgree(a: Expr, a2: Expr, st1: Store, st2: Store, prefix: string, ext: Ext)
    requires TypeOf(a2) == TypeOf(a)
    requires SameResult(Eval(a, st1, ext), Eval(a2, st2, ext), prefix)
    ensures SameResult(Eval(Neg(a), st1, ext), Eval(Neg(a2), st2, ext), prefix)
  {
  }

  lemma NotAgree(a: Expr, a2: Expr, st1: Store, st2: Store, prefix: string, ext: Ext)
    requires SameResult(Eval(a, st1, ext), Eval(a2, st2, ext), prefix)
    ensures SameResult(Eval(Not(a), st1, ext), Eval(Not(a2), st2, ext), prefix)
  {
  }

  lemma SwizzleAgree(b: Expr, b2: Expr, mask: seq<Component>, st1: Store, st2: Store, prefix: string, ext: Ext)
    requires TypeOf(b2) == TypeOf(b)
    requires SameResult(Eval(b, st1, ext), Eval(b2, st2, ext), prefix)
    ensures SameResult(Eval(Swizzle(b, mask), st1, ext), Eval(Swizzle(b2, mask), st2, ext), prefix)
  {
  }

  lemma AssignAgree(x: string, a: Expr, a2: Expr, st1: Store, st2: Store, prefix: string, ext: Ext)
    requires !(prefix <= x) && TypeOf(a2) == TypeOf(a)
    requires SameResult(Eval(a, st1, ext), Eval(a2, st2, ext), prefix)
    ensures SameResult(Eval(Assign(x, a), st1, ext), Eval(Assign(x, a2), st2, ext), prefix)
  {
    var r1, r2 := Eval(a, st1, ext), Eval(a2, st2, ext);
    if r1.Some? {
      AgreeUpdate(r1.value.store, r2.value.store, prefix, x, r1.value.value);
    }
  }

  lemma CallAgree(fn: string, args: seq<Expr>, args2: seq<Expr>, ty: Type, st1: Store, st2: Store, prefix: string, ext: Ext)
    requires SameArgs(EvalArgs(args, st1, ext), EvalArgs(args2, st2, ext), prefix)
    ensures SameResult(Eval(Call(fn, args, ty), st1, ext), Eval(Call(fn, args2, ty), st2, ext), prefix)
  {
  }

  lemma ConstructAgree(ty: Type, args: seq<Expr>, args2: seq<Expr>, st1: Store, st2: Store, prefix: string, ext: Ext)
    requires SameArgs(EvalArgs(args, st1, ext), EvalArgs(args2, st2, ext), prefix)
    ensures SameResult(Eval(Construct(ty, args), st1, ext), Eval(Construct(ty, args2), st2, ext), prefix)
  {
  }

  /** Evaluating in two stores that agree outside the hidden names gives the
      same value and agreeing stores, provided the expression names no
      hidden variable. */
  lemma {:induction false} EvalAgree(e: Expr, st1: Store, st2: Store, prefix: string, ext: Ext)
    requires Avoids(Names(e), prefix)
    requires Agree(st1, st2, prefix)
    ensures SameResult(Eval(e, st1, ext), Eval(e, st2, ext), prefix)
    decreases e, 1
  {
    match e
    case Var(x, ty) =>
      assert x in Names(e);
      VarAgree(x, ty, st1, st2, prefix, ext);
    case Neg(a) =>
      EvalAgree(a, st1, st2, prefix, ext);
      NegAgree(a, a, st1, st2, prefix, ext);
    case Not(a) =>
      EvalAgree(a, st1, st2, prefix, ext);
      NotAgree(a, a, st1, st2, prefix, ext);
    case Binary(l, op, r) =>
      EvalAgree(l, st1, st2, prefix, ext);
      var r1, r2 := Eval(l, st1, ext), Eval(l, st2, ext);
      if r1.Some? {
        EvalAgree(r, r1.value.store, r2.value.store, prefix, ext);
      }
      BinaryAgree(l, op, r, l, r, st1, st2, prefix, ext);
    case Ternary(c, t, f) =>
      EvalAgree(c, st1, st2, prefix, ext);
      var r1, r2 := Eval(c, st1, ext), Eval(c, st2, ext);
      if r1.Some? {
        EvalAgree(t, r1.value.store, r2.value.store, prefix, ext);
        EvalAgree(f, r1.value.store, r2.value.store, prefix, ext);
      }
      TernaryAgree(c, t, f, c, t, f, st1, st2, prefix, ext);
    case Call(fn, args, ty) =>
      EvalArgsAgree(args, st1, st2, prefix, ext);
      CallAgree(fn, args, args, ty, st1, st2, prefix, ext);
    case Construct(ty, args) =>
      EvalArgsAgree(args, st1, st2, prefix, ext);
      ConstructAgree(ty, args, args, st1, st2, prefix, ext);
    case Swizzle(b, mask) =>
      EvalAgree(b, st1, st2, prefix, ext);
      SwizzleAgree(b, b, mask, st1, st2, prefix, ext);
    case Assign(x, a) =>
      assert x in Names(e);
      EvalAgree(a, st1, st2, prefix, ext);
      AssignAgree(x, a, a, st1, st2, prefix, ext);
    case BoolLit(_) =>
    case IntLit(_) =>
    case FloatLit(_) =>
  }

  lemma {:induction false} EvalArgsAgree(args: seq<Expr>, st1: Store, st2: Store, prefix: string, ext: Ext)
    requires Avoids(ArgNames(args), prefix)
    requires Agree(st1, st2, prefix)
    ensures SameArgs(EvalArgs(args, st1, ext), EvalArgs(args, st2, ext), prefix)
    decreases args, 2
  {
    if |args| > 0 {
      EvalAgree(args[0], st1, st2, prefix, ext);
      var r1, r2 := Eval(args[0], st1, ext), Eval(args[0], st2, ext);
      if r1.Some? {
        EvalArgsAgree(args[1..], r1.value.store, r2.value.store, prefix, ext);
      }
    }
  }

  /** Evaluation leaves every variable the expression does not name as it was. */
  lemma {:induction false} EvalFrame(e: Expr, st: Store, x: string, ext: Ext)
    requires x !in Names(e)
    requires Eval(e, st, ext).Some?
    ensures Keeps(st, Eval(e, st, ext).value.store, x)
    decreases e, 1
  {
    match e
    case Neg(a) =>
      EvalFrame(a, st, x, ext);
    case Not(a) =>
      EvalFrame(a, st, x, ext);
    case Binary(l, op, r) =>
      EvalFrame(l, st, x, ext);
      var rl := Eval(l, st, ext).value;
      if Eval(r, rl.store, ext).Some? {
        EvalFrame(r, rl.store, x, ext);
      }
    case Ternary(c, t, f) =>
      EvalFrame(c, st, x, ext);
      var rc := Eval(c, st, ext).value;
      if rc.value.b {
        EvalFrame(t, rc.store, x, ext);
      } else {
        EvalFrame(f, rc.store, x, ext);
      }
    case Call(_, args, _) =>
      EvalArgsFrame(args, st, x, ext);
    case Construct(_, args) =>
      EvalArgsFrame(args, st, x, ext);
    case Swizzle(b, _) =>
      EvalFrame(b, st, x, ext);
    case Assign(y, a) =>
      EvalFrame(a, st, x, ext);
    case Var(_, _) =>
    case BoolLit(_) =>
    case IntLit(_) =>
    case FloatLit(_) =>
  }

  lemma {:induction false} EvalArgsFrame(args: seq<Expr>, st: Store, x: string, ext: Ext)
    requires x !in ArgNames(args)
    requires EvalArgs(args, st, ext).Some?
    ensures Keeps(st, EvalArgs(args, st, ext).value.store, x)
    decreases args, 2
  {
    if |args| > 0 {
      EvalFrame(args[0], st, x, ext);
      EvalArgsFrame(args[1..], Eval(args[0], st, ext).value.store, x, ext);
    }
  }

  /** A pure expression leaves the store unchanged. */
  lemma {:induction false} EvalPure(e: Expr, st: Store, ext: Ext)
    requires Pure(e)
    requires Eval(e, st, ext).Some?
    ensures Eval(e, st, ext).value.store == st
    decreases e, 1
  {
    match e
    case Neg(a) =>
      EvalPure(a, st, ext);
    case Not(a) =>
      EvalPure(a, st, ext);
    case Binary(l, op, r) =>
      EvalPure(l, st, ext);
      if Eval(r, st, ext).Some? {
        EvalPure(r, st, ext);
      }
    case Ternary(c, t, f) =>
      EvalPure(c, st, ext);
      if Eval(c, st, ext).value.value.b {
        EvalPure(t, st, ext);
      } else {
        EvalPure(f, st, ext);
      }
    case Call(_, args, _) =>
      EvalArgsPure(args, st, ext);
    case Construct(_, args) =>
      EvalArgsPure(args, st, ext);
    case Swizzle(b, _) =>
      EvalPure(b, st, ext);
    case Var(_, _) =>
    case BoolLit(_) =>
    case IntLit(_) =>
    case FloatLit(_) =>
  }

  lemma {:induction false} EvalArgsPure(args: seq<Expr>, st: Store, ext: Ext)
    requires PureArgs(args)
    requires EvalArgs(args, st, ext).Some?
    ensures EvalArgs(args, st, ext).value.store == st
    decreases args, 2
  {
    if |args| > 0 {
      EvalPure(args[0], st, ext);
      EvalArgsPure(args[1..], st, ext);
    }
  }

  /** Running a statement leaves every variable it does not name as it was. */
  lemma {:induction false} ExecFrame(s: Stmt, st: Store, fuel: nat, x: string, ext: Ext)
    requires x !in StmtNames(s)
    ensures OutcomeKeeps(st, Exec(s, st, fuel, ext), x)
    decreases fuel, s
  {
    match s
    case ExprStmt(e) =>
      if Eval(e, st, ext).Some? {
        EvalFrame(e, st, x, ext);
      }
    case VarDecl(_, _, init) =>
      if init.Some? && Eval(init.value, st, ext).Some? {
        EvalFrame(init.value, st, x, ext);
      }
    case Block(ss) =>
      ExecBlockFrame(ss, st, fuel, x, ext);
    case If(c, t, f) =>
      if Eval(c, st, ext).Some? {
        EvalFrame(c, st, x, ext);
        var r := Eval(c, st, ext).value;
        ExecFrame(t, r.store, fuel, x, ext);
        ExecFrame(f, r.store, fuel, x, ext);
      }
    case For(init, test, next, body) =>
      ExecFrame(init, st, fuel, x, ext);
      var o := Exec(init, st, fuel, ext);
      if o.Normal? {
        LoopFrame(test, next, body, o.store, fuel, x, ext);
      }
    case While(c, body) =>
      LoopFrame(Some(c), None, body, st, fuel, x, ext);
    case Do(body, c) =>
      ExecFrame(body, st, fuel, x, ext);
      var o := Exec(body, st, fuel, ext);
      if o.Normal? || o.Continued? {
        LoopFrame(Some(c), None, body, o.store, fuel, x, ext);
      }
    case Break =>
    case Continue =>
  }

  lemma {:induction false} ExecBlockFrame(ss: seq<Stmt>, st: Store, fuel: nat, x: string, ext: Ext)
    requires x !in BlockNames(ss)
    ensures OutcomeKeeps(st, ExecBlock(ss, st, fuel, ext), x)
    decreases fuel, ss
  {
    if |ss| > 0 {
      ExecFrame(ss[0], st, fuel, x, ext);
      var o := Exec(ss[0], st, fuel, ext);
      if o.Normal? {
        ExecBlockFrame(ss[1..], o.store, fuel, x, ext);
      }
    }
  }

  lemma {:induction false} LoopFrame(test: Option<Expr>, next: Option<Expr>, body: Stmt, st: Store, fuel: nat, x: string, ext: Ext)
    requires x !in OptionNames(test) && x !in OptionNames(next) && x !in StmtNames(body)
    ensures OutcomeKeeps(st, Loop(test, next, body, st, fuel, ext), x)
    decreases fuel, body, 0
  {
    if fuel > 0 {
      LoopUnfold(test, next, body, st, fuel, ext);
      var tested := Tested(test, st, ext);
      if test.Some? && tested.Some? {
        EvalFrame(test.value, st, x, ext);
      }
      if tested.Some? && tested.value.value == BoolV(true) {
        var r := tested.value;
        ExecFrame(body, r.store, fuel - 1, x, ext);
        var o := Exec(body, r.store, fuel - 1, ext);
        if o.Normal? || o.Continued? {
          LoopNextFrame(test, next, body, o.store, fuel - 1, x, ext);
        }
        AfterBodyKeeps(test, next, body, st, o, fuel - 1, x, ext);
      }
    }
  }

  lemma AfterBodyKeeps(test: Option<Expr>, next: Option<Expr>, body: Stmt, st: Store, o: Outcome, fuel: nat, x: string, ext: Ext)
    requires OutcomeKeeps(st, o, x)
    requires (o.Normal? || o.Continued?) ==> OutcomeKeeps(o.store, LoopNext(test, next, body, o.store, fuel, ext), x)
    ensures OutcomeKeeps(st, AfterBody(test, next, body, o, fuel, ext), x)
  {
  }

  lemma {:induction false} LoopNextFrame(test: Option<Expr>, next: Option<Expr>, body: Stmt, st: Store, fuel: nat, x: string, ext: Ext)
    requires x !in OptionNames(test) && x !in OptionNames(next) && x !in StmtNames(body)
    ensures OutcomeKeeps(st, LoopNext(test, next, body, st, fuel, ext), x)
    decreases fuel, body, 1
  {
    match next
    case None =>
      LoopFrame(test, next, body, st, fuel, x, ext);
    case Some(e) =>
      if Eval(e, st, ext).Some? {
        EvalFrame(e, st, x, ext);
        LoopFrame(test, next, body, Eval(e, st, ext).value.store, fuel, x, ext);
      }
  }

  /** The static-type check every evaluation ends with. */
  function Checked(raw: Option<Evaluated>, ty: Type): Option<Evaluated> {
    if raw.Some? && HasType(raw.value.value, ty) then raw else None
  }

  /** A binary node once its left operand has given `rl`. */
  function BinaryRaw(op: BinOp, rl: Option<Evaluated>, r: Expr, ext: Ext): Option<Evaluated> {
    match rl
    case None => None
    case Some(x) =>
      if op.And? || op.Or? then
        if !x.value.BoolV? then None
        else if op.And? && !x.value.b then Some(x)
        else if op.Or? && x.value.b then Some(x)
        else Eval(r, x.store, ext)
      else
        match Eval(r, x.store, ext)
        case None => None
        case Some(rr) =>
          match Arith(op, x.value, rr.value)
          case None => None
          case Some(v) => Some(Evaluated(v, rr.store))
  }

  lemma BinaryUnfold(l: Expr, op: BinOp, r: Expr, st: Store, ext: Ext)
    ensures Eval(Binary(l, op, r), st, ext) == Checked(BinaryRaw(op, Eval(l, st, ext), r, ext), TypeOf(Binary(l, op, r)))
  {
  }

  lemma BinaryTypeEq(l: Expr, op: BinOp, r: Expr, l2: Expr, r2: Expr)
    requires TypeOf(l2) == TypeOf(l) && TypeOf(r2) == TypeOf(r)
    ensures TypeOf(Binary(l2, op, r2)) == TypeOf(Binary(l, op, r))
  {
  }

  lemma BinaryRawEq(op: BinOp, rl: Option<Evaluated>, r: Expr, r2: Expr, ext: Ext)
    requires BinaryRaw(op, rl, r, ext).Some?
    requires rl.Some? && Eval(r, rl.value.store, ext).Some? ==> Eval(r2, rl.value.store, ext) == Eval(r, rl.value.store, ext)
    ensures BinaryRaw(op, rl, r2, ext) == BinaryRaw(op, rl, r, ext)
  {
  }

  /** A binary node whose operands are replaced by ones with the same types
      and, where they are evaluated, the same results. */
  lemma BinaryEq(l: Expr, op: BinOp, r: Expr, l2: Expr, r2: Expr, st: Store, ext: Ext)
    requires TypeOf(l2) == TypeOf(l) && TypeOf(r2) == TypeOf(r)
    requires Eval(Binary(l, op, r), st, ext).Some?
    requires Eval(l2, st, ext) == Eval(l, st, ext)
    requires Eval(l, st, ext).Some? && Eval(r, Eval(l, st, ext).value.store, ext).Some? ==>
      Eval(r2, Eval(l, st, ext).value.store, ext) == Eval(r, Eval(l, st, ext).value.store, ext)
    ensures Eval(Binary(l2, op, r2), st, ext) == Eval(Binary(l, op, r), st, ext)
  {
    BinaryUnfold(l, op, r, st, ext);
    BinaryUnfold(l2, op, r2, st, ext);
    BinaryTypeEq(l, op, r, l2, r2);
    BinaryRawEq(op, Eval(l, st, ext), r, r2, ext);
  }

  /** A conditional whose parts are replaced by ones with the same types
      and, where they are evaluated, the same results. */
  lemma TernaryEq(c: Expr, t: Expr, f: Expr, c2: Expr, t2: Expr, f2: Expr, st: Store, ext: Ext)
    requires TypeOf(c2) == TypeOf(c) && TypeOf(t2) == TypeOf(t) && TypeOf(f2) == TypeOf(f)
    requires Eval(Ternary(c, t, f), st, ext).Some?
    requires Eval(c2, st, ext) == Eval(c, st, ext)
    requires Eval(c, st, ext).Some? && Eval(c, st, ext).value.value.BoolV? ==>
      var rc := Eval(c, st, ext).value;
      if rc.value.b then Eval(t2, rc.store, ext) == Eval(t, rc.store, ext) else Eval(f2, rc.store, ext) == Eval(f, rc.store, ext)
    ensures Eval(Ternary(c2, t2, f2), st, ext) == Eval(Ternary(c, t, f), st, ext)
  {
  }

  /** A rewritten statement behaves as the original: the same way of
      finishing with agreeing stores, stuck when it is stuck, and anything
      at all where the original ran out of fuel. */
  ghost predicate Simulates(o1: Outcome, o2: Outcome, prefix: string) {
    match o1
    case Normal(s1) => o2.Normal? && Agree(s1, o2.store, prefix)
    case Broke(s1) => o2.Broke? && Agree(s1, o2.store, prefix)
    case Continued(s1) => o2.Continued? && Agree(s1, o2.store, prefix)
    case Stuck => o2.Stuck?
    case OutOfFuel => true
  }

  /** What a loop's test gives: an absent test holds. */
  function Tested(test: Option<Expr>, st: Store, ext: Ext): Option<Evaluated> {
    if test.None? then Some(Evaluated(BoolV(true), st)) else Eval(test.value, st, ext)
  }

  /** What a loop does once its body has run. */
  function AfterBody(test: Option<Expr>, next: Option<Expr>, body: Stmt, o: Outcome, fuel: nat, ext: Ext): Outcome {
    match o
    case Broke(st1) => Normal(st1)
    case Normal(st1) => LoopNext(test, next, body, st1, fuel, ext)
    case Continued(st1) => LoopNext(test, next, body, st1, fuel, ext)
    case _ => o
  }

  lemma LoopUnfold(test: Option<Expr>, next: Option<Expr>, body: Stmt, st: Store, f: nat, ext: Ext)
    requires f > 0
    ensures var t := Tested(test, st, ext);
      Loop(test, next, body, st, f, ext)
      == if t.None? || !t.value.value.BoolV? then Stuck
         else if !t.value.value.b then Normal(t.value.store)
         else AfterBody(test, next, body, Exec(body, t.value.store, f - 1, ext), f - 1, ext)
  {
  }

  lemma AfterBodySim(test: Option<Expr>, next: Option<Expr>, body: Stmt, test2: Option<Expr>, next2: Option<Expr>, body2: Stmt,
                     o1: Outcome, o2: Outcome, f1: nat, f2: nat, prefix: string, ext: Ext)
    requires Simulates(o1, o2, prefix)
    requires (o1.Normal? || o1.Continued?) ==>
      Simulates(LoopNext(test, next, body, o1.store, f1, ext), LoopNext(test2, next2, body2, o2.store, f2, ext), prefix)
    ensures Simulates(AfterBody(test, next, body, o1, f1, ext), AfterBody(test2, next2, body2, o2, f2, ext), prefix)
  {
  }

  /** One round of two loops whose tests give the same result and whose
      bodies and steps run alike: the loops run alike. */
  lemma LoopStepEq(test: Option<Expr>, next: Option<Expr>, body: Stmt, test2: Option<Expr>, next2: Option<Expr>, body2: Stmt,
                   st: Store, f: nat, ext: Ext)
    requires f > 0
    requires var t1, t2 := Tested(test, st, ext), Tested(test2, st, ext);
      (t1.Some? && t1.value.value.BoolV?) == (t2.Some? && t2.value.value.BoolV?) && (t1.Some? && t1.value.value.BoolV? ==> t1 == t2)
    requires var t := Tested(test, st, ext);
      t.Some? && t.value.value == BoolV(true) ==>
        var o := Exec(body, t.value.store, f - 1, ext);
        Exec(body2, t.value.store, f - 1, ext) == o
        && ((o.Normal? || o.Continued?) ==>
              LoopNext(test, next, body, o.store, f - 1, ext) == LoopNext(test2, next2, body2, o.store, f - 1, ext))
    ensures Loop(test, next, body, st, f, ext) == Loop(test2, next2, body2, st, f, ext)
  {
    LoopUnfold(test, next, body, st, f, ext);
    LoopUnfold(test2, next2, body2, st, f, ext);
  }

  lemma LoopNextStepEq(test: Option<Expr>, next: Option<Expr>, body: Stmt, test2: Option<Expr>, next2: Option<Expr>, body2: Stmt,
                       st: Store, f: nat, ext: Ext)
    requires next.Some? == next2.Some?
    requires next.None? ==> Loop(test, next, body, st, f, ext) == Loop(test2, next2, body2, st, f, ext)
    requires next.Some? ==> Eval(next2.value, st, ext) == Eval(next.value, st, ext)
    requires next.Some? && Eval(next.value, st, ext).Some? ==>
      var st1 := Eval(next.value, st, ext).value.store;
      Loop(test, next, body, st1, f, ext) == Loop(test2, next2, body2, st1, f, ext)
    ensures LoopNext(test, next, body, st, f, ext) == LoopNext(test2, next2, body2, st, f, ext)
  {
  }

  /** One round of two loops: tests with the same result, then bodies and
      steps that simulate each other. */
  lemma LoopStepSim(test: Option<Expr>, next: Option<Expr>, body: Stmt, test2: Option<Expr>, next2: Option<Expr>, body2: Stmt,
                    st1: Store, st2: Store, f1: nat, f2: nat, prefix: string, ext: Ext)
    requires f1 > 0 && f2 > 0 && SameResult(Tested(test, st1, ext), Tested(test2, st2, ext), prefix)
    requires var t1, t2 := Tested(test, st1, ext), Tested(test2, st2, ext);
      t1.Some? && t1.value.value == BoolV(true) ==>
        var o1, o2 := Exec(body, t1.value.store, f1 - 1, ext), Exec(body2, t2.value.store, f2 - 1, ext);
        Simulates(o1, o2, prefix)
        && ((o1.Normal? || o1.Continued?) ==>
              Simulates(LoopNext(test, next, body, o1.store, f1 - 1, ext), LoopNext(test2, next2, body2, o2.store, f2 - 1, ext), prefix))
    ensures Simulates(Loop(test, next, body, st1, f1, ext), Loop(test2, next2, body2, st2, f2, ext), prefix)
  {
    LoopUnfold(test, next, body, st1, f1, ext);
    LoopUnfold(test2, next2, body2, st2, f2, ext);
    var t1, t2 := Tested(test, st1, ext), Tested(test2, st2, ext);
    if t1.Some? && t1.value.value == BoolV(true) {
      var o1, o2 := Exec(body, t1.value.store, f1 - 1, ext), Exec(body2, t2.value.store, f2 - 1, ext);
      AfterBodySim(test, next, body, test2, next2, body2, o1, o2, f1 - 1, f2 - 1, prefix, ext);
    }
  }

  /** The step between two rounds of two loops. */
  lemma LoopNextStepSim(test: Option<Expr>, next: Option<Expr>, body: Stmt, test2: Option<Expr>, next2: Option<Expr>, body2: Stmt,
                        st1: Store, st2: Store, f1: nat, f2: nat, prefix: string, ext: Ext)
    requires next.Some? == next2.Some?
    requires next.None? ==> Simulates(Loop(test, next, body, st1, f1, ext), Loop(test2, next2, body2, st2, f2, ext), prefix)
    requires next.Some? ==>
      var r1, r2 := Eval(next.value, st1, ext), Eval(next2.value, st2, ext);
      SameResult(r1, r2, prefix)
      && (r1.Some? ==> Simulates(Loop(test, next, body, r1.value.store, f1, ext), Loop(test2, next2, body2, r2.value.store, f2, ext), prefix))
    ensures Simulates(LoopNext(test, next, body, st1, f1, ext), LoopNext(test2, next2, body2, st2, f2, ext), prefix)
  {
  }

  lemma AgreeUpdate(st1: Store, st2: Store, prefix: string, x: string, v: Value)
    requires Agree(st1, st2, prefix)
    ensures Agree(st1[x := v], st2[x := v], prefix)
  {
  }

  /** Setting a hidden variable on one side keeps the stores agreeing. */
  lemma AgreeHidden(st1: Store, st2: Store, prefix: string, x: string, v: Value)
    requires Agree(st1, st2, prefix) && prefix <= x
    ensures Agree(st1, st2[x := v], prefix)
  {
  }

  lemma AgreeRemove(st1: Store, st2: Store, prefix: string, x: string)
    requires Agree(st1, st2, prefix)
    ensures Agree(st1 - {x}, st2 - {x}, prefix)
  {
  }

  /** Running two lists of statements one after the other. */
  lemma {:induction false} ExecBlockAppend(a: seq<Stmt>, b: seq<Stmt>, st: Store, fuel: nat, ext: Ext)
    ensures ExecBlock(a + b, st, fuel, ext)
         == (match ExecBlock(a, st, fuel, ext)
             case Normal(st1) => ExecBlock(b, st1, fuel, ext)
             case o => o)
    decreases a
  {
    if |a| == 0 {
      assert a + b == b;
    } else {
      assert (a + b)[0] == a[0] && (a + b)[1..] == a[1..] + b;
      var o := Exec(a[0], st, fuel, ext);
      if o.Normal? {
        ExecBlockAppend(a[1..], b, o.store, fuel, ext);
      }
    }
  }

  lemma ExecBlockSingle(s: Stmt, st: Store, fuel: nat, ext: Ext)
    ensures ExecBlock([s], st, fuel, ext) == Exec(s, st, fuel, ext)
  {
    assert [s][1..] == [];
  }

  /** An expression that names no hidden variable runs alike in agreeing
      stores, as a statement. */
  lemma ExprStmtAgree(e: Expr, st1: Store, st2: Store, prefix: string, f1: nat, f2: nat, ext: Ext)
    requires Avoids(Names(e), prefix) && Agree(st1, st2, prefix)
    ensures Simulates(Exec(ExprStmt(e), st1, f1, ext), Exec(ExprStmt(e), st2, f2, ext), prefix)
  {
    EvalAgree(e, st1, st2, prefix, ext);
  }

  /** A declaration of a variable that is not hidden runs alike in agreeing
      stores. */
  lemma VarDeclAgree(ty: Type, x: string, init: Option<Expr>, st1: Store, st2: Store, prefix: string, f1: nat, f2: nat, ext: Ext)
    requires Avoids(StmtNames(VarDecl(ty, x, init)), prefix) && Agree(st1, st2, prefix)
    ensures Simulates(Exec(VarDecl(ty, x, init), st1, f1, ext), Exec(VarDecl(ty, x, init), st2, f2, ext), prefix)
  {
    match init
    case None =>
      AgreeRemove(st1, st2, prefix, x);
    case Some(e) =>
      EvalAgree(e, st1, st2, prefix, ext);
      var r1, r2 := Eval(e, st1, ext), Eval(e, st2, ext);
      if r1.Some? {
        AgreeUpdate(r1.value.store, r2.value.store, prefix, x, r1.value.value);
      }
  }

  /** Evaluating a one-argument call once its argument is known. */
  lemma CallOne(fn: string, a: Expr, ty: Type, st: Store, ext: Ext, va: Value, st1: Store)
    requires Eval(a, st, ext) == Some(Evaluated(va, st1))
    ensures Eval(Call(fn, [a], ty), st, ext)
         == (match Intrinsic(fn, [va], ext)
             case Some(v) => if HasType(v, ty) then Some(Evaluated(v, st1)) else None
             case None => None)
  {
    var args := [a];
    assert args[0] == a && args[1..] == [];
    assert EvalArgs([], st1, ext) == Some(EvaluatedArgs([], st1));
    assert [va] + [] == [va];
    assert EvalArgs(args, st, ext) == Some(EvaluatedArgs([va], st1));
  }

  /** Evaluating a two-argument call once both arguments are known. */
  lemma CallTwo(fn: string, a: Expr, b: Expr, ty: Type, st: Store, ext: Ext, va: Value, st1: Store, vb: Value, st2: Store)
    requires Eval(a, st, ext) == Some(Evaluated(va, st1))
    requires Eval(b, st1, ext) == Some(Evaluated(vb, st2))
    ensures Eval(Call(fn, [a, b], ty), st, ext)
         == (match Intrinsic(fn, [va, vb], ext)
             case Some(v) => if HasType(v, ty) then Some(Evaluated(v, st2)) else None
             case None => None)
  {
    var args := [a, b];
    assert args[0] == a && args[1..] == [b] && [b][1..] == [];
    assert EvalArgs([], st2, ext) == Some(EvaluatedArgs([], st2));
    assert [vb] + [] == [vb];
    assert EvalArgs([b], st1, ext) == Some(EvaluatedArgs([vb], st2));
    assert [va] + [vb] == [va, vb];
    assert EvalArgs(args, st, ext) == Some(EvaluatedArgs([va, vb], st2));
  }

  lemma ShortCircuitAgree(l: Expr, op: BinOp, r: Expr, l2: Expr, r2: Expr, st1: Store, st2: Store, prefix: string, ext: Ext)
    requires op.And? || op.Or?
    requires TypeOf(l2) == TypeOf(l) && TypeOf(r2) == TypeOf(r)
    requires SameResult(Eval(l, st1, ext), Eval(l2, st2, ext), prefix)
    requires Eval(l, st1, ext).Some? ==>
      SameResult(Eval(r, Eval(l, st1, ext).value.store, ext), Eval(r2, Eval(l2, st2, ext).value.store, ext), prefix)
    ensures SameResult(Eval(Binary(l, op, r), st1, ext), Eval(Binary(l2, op, r2), st2, ext), prefix)
  {
  }

  lemma ArithAgree(l: Expr, op: BinOp, r: Expr, l2: Expr, r2: Expr, st1: Store, st2: Store, prefix: string, ext: Ext)
    requires !op.And? && !op.Or?
    requires TypeOf(l2) == TypeOf(l) && TypeOf(r2) == TypeOf(r)
    requires SameResult(Eval(l, st1, ext), Eval(l2, st2, ext), prefix)
    requires Eval(l, st1, ext).Some? ==>
      SameResult(Eval(r, Eval(l, st1, ext).value.store, ext), Eval(r2, Eval(l2, st2, ext).value.store, ext), prefix)
    ensures SameResult(Eval(Binary(l, op, r), st1, ext), Eval(Binary(l2, op, r2), st2, ext), prefix)
  {
  }

  /** A binary node whose operands, replaced one by one, keep their types
      and evaluate alike in agreeing stores, evaluates alike. */
  lemma BinaryAgree(l: Expr, op: BinOp, r: Expr, l2: Expr, r2: Expr, st1: Store, st2: Store, prefix: string, ext: Ext)
    requires TypeOf(l2) == TypeOf(l) && TypeOf(r2) == TypeOf(r)
    requires SameResult(Eval(l, st1, ext), Eval(l2, st2, ext), prefix)
    requires Eval(l, st1, ext).Some? ==>
      SameResult(Eval(r, Eval(l, st1, ext).value.store, ext), Eval(r2, Eval(l2, st2, ext).value.store, ext), prefix)
    ensures SameResult(Eval(Binary(l, op, r), st1, ext), Eval(Binary(l2, op, r2), st2, ext), prefix)
  {
    if op.And? || op.Or? {
      ShortCircuitAgree(l, op, r, l2, r2, st1, st2, prefix, ext);
    } else {
      ArithAgree(l, op, r, l2, r2, st1, st2, prefix, ext);
    }
  }

  /** A conditional whose tests agree on `b` evaluates like the branch `b` picks. */
  lemma TernaryTaken(c: Expr, t: Expr, f: Expr, c2: Expr, t2: Expr, f2: Expr, st1: Store, st2: Store, prefix: string, ext: Ext, b: bool)
    requires TypeOf(c2) == TypeOf(c) && TypeOf(t2) == TypeOf(t) && TypeOf(f2) == TypeOf(f)
    requires Eval(c, st1, ext).Some? && Eval(c, st1, ext).value.value == BoolV(b)
    requires SameResult(Eval(c, st1, ext), Eval(c2, st2, ext), prefix)
    requires SameResult(Eval(if b then t else f, Eval(c, st1, ext).value.store, ext), Eval(if b then t2 else f2, Eval(c2, st2, ext).value.store, ext), prefix)
    ensures SameResult(Eval(Ternary(c, t, f), st1, ext), Eval(Ternary(c2, t2, f2), st2, ext), prefix)
  {
  }

  /** The same for a conditional. */
  lemma TernaryAgree(c: Expr, t: Expr, f: Expr, c2: Expr, t2: Expr, f2: Expr, st1: Store, st2: Store, prefix: string, ext: Ext)
    requires TypeOf(c2) == TypeOf(c) && TypeOf(t2) == TypeOf(t) && TypeOf(f2) == TypeOf(f)
    requires SameResult(Eval(c, st1, ext), Eval(c2, st2, ext), prefix)
    requires Eval(c, st1, ext).Some? ==>
      SameResult(Eval(t, Eval(c, st1, ext).value.store, ext), Eval(t2, Eval(c2, st2, ext).value.store, ext), prefix)
      && SameResult(Eval(f, Eval(c, st1, ext).value.store, ext), Eval(f2, Eval(c2, st2, ext).value.store, ext), prefix)
    ensures SameResult(Eval(Ternary(c, t, f), st1, ext), Eval(Ternary(c2, t2, f2), st2, ext), prefix)
  {
    var rc := Eval(c, st1, ext);
    if rc.Some? && rc.value.value.BoolV? {
      TernaryTaken(c, t, f, c2, t2, f2, st1, st2, prefix, ext, rc.value.value.b);
    }
  }

  /* ----- Names of statement lists ----- */

  lemma BlockNamesSingle(s: Stmt)
    ensures BlockNames([s]) == StmtNames(s)
  {
    assert [s][1..] == [];
  }

  lemma BlockNamesTwo(a: Stmt, b: Stmt)
    ensures BlockNames([a, b]) == StmtNames(a) + StmtNames(b)
  {
    assert [a, b][1..] == [b];
    BlockNamesSingle(b);
  }

  lemma BlockNamesThree(a: Stmt, b: Stmt, c: Stmt)
    ensures BlockNames([a, b, c]) == StmtNames(a) + StmtNames(b) + StmtNames(c)
  {
    assert [a, b, c][1..] == [b, c];
    BlockNamesTwo(b, c);
  }

  lemma {:induction false} BlockNamesAppend(a: seq<Stmt>, b: seq<Stmt>)
    ensures BlockNames(a + b) == BlockNames(a) + BlockNames(b)
    decreases a
  {
    if |a| > 0 {
      assert (a + b)[0] == a[0] && (a + b)[1..] == a[1..] + b;
      BlockNamesAppend(a[1..], b);
    } else {
      assert a + b == b;
    }
  }
}
