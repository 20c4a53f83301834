/** The do-while workaround: every `do { B } while (C);` becomes
        bool F = false;
        while (true) { if (F) { if (!(C)) { break; } } F = true; { B } }
    where `F` is `_tmpLoopSeenOnce<n>`, with `n` drawn from a counter in
    the order the loops are met, outer loops first. */
module SkslDoWhile {
  import opened Options
  import FreshNames = Names
  import opened SkslIr
  import opened SkslEval
  import opened SkslFacts

  const FlagPrefix := "_tmpLoopSeenOnce"

  function Flag(n: nat): string {
    FreshNames.Fresh(FlagPrefix, n)
  }

  /** The statements a rewritten statement expands to, and the counter
      after it. */
  datatype Expanded = Expanded(stmts: seq<Stmt>, next: nat)

  /** The loop that replaces `do body while (c)`, with flag `flag` and the
      already rewritten body. */
  function SeenOnceLoop(flag: string, c: Expr, body: Stmt): Stmt {
    While(BoolLit(true), Block([If(Var(flag, BoolType), If(Not(c), Break, Skip), Skip),
                                ExprStmt(Assign(flag, BoolLit(true))),
                                body]))
  }

  /** `do body while (c)` with counter value `n`: the flag's declaration
      and the loop; the body's own loops take the values after `n`. */
  function ExpandDo(body: Stmt, c: Expr, n: nat): (r: Expanded)
    ensures r.next >= n + 1
    decreases body, 2
  {
    var b := DoWhileStmt(body, n + 1);
    Expanded([VarDecl(BoolType, Flag(n), Some(BoolLit(false))), SeenOnceLoop(Flag(n), c, b.0)], b.1)
  }

  /** A statement in a block: a do-while expands into the flag's
      declaration and the loop, any other statement into itself rewritten. */
  function DoWhileSeq(s: Stmt, n: nat): (r: Expanded)
    ensures r.next >= n
    decreases s, 2
  {
    match s
    case Do(body, c) => ExpandDo(body, c, n)
    case _ =>
      var r := DoWhileStmt(s, n);
      Expanded([r.0], r.1)
  }

  /** A statement in any position; a do-while that is not directly inside a
      block gets a block of its own. */
  function DoWhileStmt(s: Stmt, n: nat): (r: (Stmt, nat))
    ensures r.1 >= n
    decreases s, 1
  {
    match s
    case Do(body, c) =>
      var e := ExpandDo(body, c, n);
      (Block(e.stmts), e.next)
    case Block(ss) =>
      var e := DoWhileBlock(ss, n);
      (Block(e.stmts), e.next)
    case If(c, t, f) =>
      var t' := DoWhileStmt(t, n);
      var f' := DoWhileStmt(f, t'.1);
      (If(c, t'.0, f'.0), f'.1)
    case For(init, test, next, body) =>
      var i' := DoWhileStmt(init, n);
      var b' := DoWhileStmt(body, i'.1);
      (For(i'.0, test, next, b'.0), b'.1)
    case While(c, body) =>
      var b' := DoWhileStmt(body, n);
      (While(c, b'.0), b'.1)
    case _ => (s, n)
  }

  function DoWhileBlock(ss: seq<Stmt>, n: nat): (r: Expanded)
    ensures r.next >= n
    decreases ss
  {
    if |ss| == 0 then Expanded([], n)
    else
      var h := DoWhileSeq(ss[0], n);
      var t := DoWhileBlock(ss[1..], h.next);
      Expanded(h.stmts + t.stmts, t.next)
  }

  /* ----- Counting and naming the flags ----- */

  function CountDo(s: Stmt): nat
    decreases s
  {
    match s
    case Do(body, _) => 1 + CountDo(body)
    case Block(ss) => CountDoBlock(ss)
    case If(_, t, f) => CountDo(t) + CountDo(f)
    case For(init, _, _, body) => CountDo(init) + CountDo(body)
    case While(_, body) => CountDo(body)
    case _ => 0
  }

  function CountDoBlock(ss: seq<Stmt>): nat
    decreases ss
  {
    if |ss| == 0 then 0 else CountDo(ss[0]) + CountDoBlock(ss[1..])
  }

  /** Every do-while takes exactly one counter value. */
  lemma {:induction false} CountFlags(s: Stmt, n: nat)
    ensures DoWhileStmt(s, n).1 == n + CountDo(s)
    ensures DoWhileSeq(s, n).next == n + CountDo(s)
    decreases s
  {
    match s
    case Do(body, _) => CountFlags(body, n + 1);
    case Block(ss) => CountFlagsBlock(ss, n);
    case If(_, t, f) =>
      CountFlags(t, n);
      CountFlags(f, DoWhileStmt(t, n).1);
    case For(init, _, _, body) =>
      CountFlags(init, n);
      CountFlags(body, DoWhileStmt(init, n).1);
    case While(_, body) => CountFlags(body, n);
    case ExprStmt(_) =>
    case VarDecl(_, _, _) =>
    case Break =>
    case Continue =>
  }

  lemma {:induction false} CountFlagsBlock(ss: seq<Stmt>, n: nat)
    ensures DoWhileBlock(ss, n).next == n + CountDoBlock(ss)
    decreases ss
  {
    if |ss| > 0 {
      CountFlags(ss[0], n);
      CountFlagsBlock(ss[1..], DoWhileSeq(ss[0], n).next);
    }
  }

  lemma SkipNames()
    ensures StmtNames(Skip) == {}
  {
    assert Skip == Block([]);
  }

  lemma GuardNames(flag: string, c: Expr)
    ensures StmtNames(If(Var(flag, BoolType), If(Not(c), Break, Skip), Skip)) == {flag} + Names(c)
  {
    SkipNames();
    assert StmtNames(If(Not(c), Break, Skip)) == Names(c);
  }

  lemma WhileTrueNames(ss: seq<Stmt>)
    ensures StmtNames(While(BoolLit(true), Block(ss))) == BlockNames(ss)
  {
  }

  lemma SetFlagNames(flag: string)
    ensures StmtNames(ExprStmt(Assign(flag, BoolLit(true)))) == {flag}
  {
    assert Names(BoolLit(true)) == {};
  }

  lemma SeenOnceLoopNames(flag: string, c: Expr, body: Stmt)
    ensures StmtNames(SeenOnceLoop(flag, c, body)) == {flag} + Names(c) + StmtNames(body)
  {
    var g := If(Var(flag, BoolType), If(Not(c), Break, Skip), Skip);
    var a := ExprStmt(Assign(flag, BoolLit(true)));
    assert SeenOnceLoop(flag, c, body) == While(BoolLit(true), Block([g, a, body]));
    WhileTrueNames([g, a, body]);
    BlockNamesThree(g, a, body);
    GuardNames(flag, c);
    SetFlagNames(flag);
  }

  /** The expansion of a do-while names what the loop names, its own flag
      and the flags of its inner loops. */
  lemma ExpandNames(body: Stmt, c: Expr, n: nat)
    requires StmtNames(DoWhileStmt(body, n + 1).0) <= StmtNames(body) + FreshNames.Drawn(FlagPrefix, n + 1, DoWhileStmt(body, n + 1).1)
    ensures BlockNames(ExpandDo(body, c, n).stmts) <= StmtNames(Do(body, c)) + FreshNames.Drawn(FlagPrefix, n, ExpandDo(body, c, n).next)
  {
    var b := DoWhileStmt(body, n + 1);
    FreshNames.DrawnGrow(FlagPrefix, n + 1, b.1, n, b.1);
    assert Flag(n) in FreshNames.Drawn(FlagPrefix, n, b.1);
    SeenOnceLoopNames(Flag(n), c, b.0);
    var d := VarDecl(BoolType, Flag(n), Some(BoolLit(false)));
    assert StmtNames(d) == {Flag(n)};
    BlockNamesTwo(d, SeenOnceLoop(Flag(n), c, b.0));
  }

  /** The rewritten statement names what the original names, and the flags
      of the counter values it consumed. */
  lemma {:induction false} RewrittenNames(s: Stmt, n: nat)
    ensures StmtNames(DoWhileStmt(s, n).0) <= StmtNames(s) + FreshNames.Drawn(FlagPrefix, n, DoWhileStmt(s, n).1)
    decreases s, 1
  {
    var m := DoWhileStmt(s, n).1;
    match s
    case Do(body, c) =>
      RewrittenNames(body, n + 1);
      ExpandNames(body, c, n);
    case Block(ss) =>
      RewrittenNamesBlock(ss, n);
    case If(_, t, f) =>
      var t' := DoWhileStmt(t, n);
      RewrittenNames(t, n);
      RewrittenNames(f, t'.1);
      FreshNames.DrawnGrow(FlagPrefix, n, t'.1, n, m);
      FreshNames.DrawnGrow(FlagPrefix, t'.1, m, n, m);
    case For(init, _, _, body) =>
      var i' := DoWhileStmt(init, n);
      RewrittenNames(init, n);
      RewrittenNames(body, i'.1);
      FreshNames.DrawnGrow(FlagPrefix, n, i'.1, n, m);
      FreshNames.DrawnGrow(FlagPrefix, i'.1, m, n, m);
    case While(_, body) =>
      RewrittenNames(body, n);
    case ExprStmt(_) =>
    case VarDecl(_, _, _) =>
    case Break =>
    case Continue =>
  }

  lemma {:induction false} SeqNames(s: Stmt, n: nat)
    ensures BlockNames(DoWhileSeq(s, n).stmts) <= StmtNames(s) + FreshNames.Drawn(FlagPrefix, n, DoWhileSeq(s, n).next)
    decreases s, 2
  {
    if s.Do? {
      RewrittenNames(s.body, n + 1);
      ExpandNames(s.body, s.cond, n);
    } else {
      RewrittenNames(s, n);
      BlockNamesSingle(DoWhileStmt(s, n).0);
    }
  }

  lemma {:induction false} RewrittenNamesBlock(ss: seq<Stmt>, n: nat)
    ensures BlockNames(DoWhileBlock(ss, n).stmts) <= BlockNames(ss) + FreshNames.Drawn(FlagPrefix, n, DoWhileBlock(ss, n).next)
    decreases ss
  {
    if |ss| > 0 {
      var h := DoWhileSeq(ss[0], n);
      var t := DoWhileBlock(ss[1..], h.next);
      SeqNames(ss[0], n);
      RewrittenNamesBlock(ss[1..], h.next);
      BlockNamesAppend(h.stmts, t.stmts);
      FreshNames.DrawnGrow(FlagPrefix, n, h.next, n, t.next);
      FreshNames.DrawnGrow(FlagPrefix, h.next, t.next, n, t.next);
    }
  }

  /* ----- The rewritten program runs as the original ----- */

  /** How deeply do-while loops nest: each one costs its rewritten form one
      extra loop iteration, the first pass that skips the test. */
  function Depth(s: Stmt): nat
    decreases s
  {
    match s
    case Do(body, _) => 1 + Depth(body)
    case Block(ss) => DepthBlock(ss)
    case If(_, t, f) => Max(Depth(t), Depth(f))
    case For(init, _, _, body) => Max(Depth(init), Depth(body))
    case While(_, body) => Depth(body)
    case _ => 0
  }

  function DepthBlock(ss: seq<Stmt>): nat
    decreases ss
  {
    if |ss| == 0 then 0 else Max(Depth(ss[0]), DepthBlock(ss[1..]))
  }

  function Max(a: nat, b: nat): nat { if a >= b then a else b }

  /** The guard at the head of the loop: nothing while the flag is false,
      the test once it is true. */
  function Guard(flag: string, c: Expr): Stmt {
    If(Var(flag, BoolType), If(Not(c), Break, Skip), Skip)
  }

  lemma GuardFirstPass(flag: string, c: Expr, st: Store, fuel: nat, ext: Ext)
    requires flag in st && st[flag] == BoolV(false)
    ensures Exec(Guard(flag, c), st, fuel, ext) == Normal(st)
  {
    assert Eval(Var(flag, BoolType), st, ext) == Some(Evaluated(BoolV(false), st));
    assert Exec(Skip, st, fuel, ext) == Normal(st) by {
      assert Skip == Block([]);
    }
  }

  lemma GuardLaterPass(flag: string, c: Expr, st: Store, fuel: nat, ext: Ext)
    requires flag in st && st[flag] == BoolV(true)
    ensures Exec(Guard(flag, c), st, fuel, ext)
         == (match Eval(c, st, ext)
             case None => Stuck
             case Some(r) => if !r.value.BoolV? then Stuck else if r.value.b then Normal(r.store) else Broke(r.store))
  {
    assert Eval(Var(flag, BoolType), st, ext) == Some(Evaluated(BoolV(true), st));
    var r := Eval(c, st, ext);
    if r.Some? && r.value.value.BoolV? {
      assert Eval(Not(c), st, ext) == Some(Evaluated(BoolV(!r.value.value.b), r.value.store));
      assert Exec(Skip, r.value.store, fuel, ext) == Normal(r.value.store) by {
        assert Skip == Block([]);
      }
      assert Exec(Guard(flag, c), st, fuel, ext) == Exec(If(Not(c), Break, Skip), st, fuel, ext);
      if r.value.value.b {
        assert Exec(If(Not(c), Break, Skip), st, fuel, ext) == Exec(Skip, r.value.store, fuel, ext);
      } else {
        assert Exec(If(Not(c), Break, Skip), st, fuel, ext) == Broke(r.value.store);
      }
    } else {
      assert Eval(Not(c), st, ext).None?;
    }
  }

  /** One pass through the rewritten loop's body: the guard, setting the
      flag, then the original body rewritten. */
  lemma PassRun(flag: string, c: Expr, b: Stmt, st: Store, fuel: nat, ext: Ext)
    ensures ExecBlock(SeenOnceLoop(flag, c, b).body.stmts, st, fuel, ext)
         == (match Exec(Guard(flag, c), st, fuel, ext)
             case Normal(s) => Exec(b, s[flag := BoolV(true)], fuel, ext)
             case o => o)
  {
    var ws := SeenOnceLoop(flag, c, b).body.stmts;
    assert ws[0] == Guard(flag, c);
    assert ws[1..] == [ExprStmt(Assign(flag, BoolLit(true))), b];
    assert ws[1..][1..] == [b];
    ExecBlockSingle(b, st, fuel, ext);
    var o := Exec(Guard(flag, c), st, fuel, ext);
    if o.Normal? {
      var s1 := o.store[flag := BoolV(true)];
      assert Eval(Assign(flag, BoolLit(true)), o.store, ext) == Some(Evaluated(BoolV(true), s1));
      assert Exec(ExprStmt(Assign(flag, BoolLit(true))), o.store, fuel, ext) == Normal(s1);
      ExecBlockSingle(b, s1, fuel, ext);
    }
  }

  /** One iteration of the rewritten loop, given fuel. */
  lemma RewrittenLoopStep(flag: string, c: Expr, b: Stmt, st: Store, fuel: nat, ext: Ext)
    requires fuel > 0
    ensures Exec(SeenOnceLoop(flag, c, b), st, fuel, ext)
         == (match ExecBlock(SeenOnceLoop(flag, c, b).body.stmts, st, fuel - 1, ext)
             case Broke(s) => Normal(s)
             case Normal(s) => Exec(SeenOnceLoop(flag, c, b), s, fuel - 1, ext)
             case Continued(s) => Exec(SeenOnceLoop(flag, c, b), s, fuel - 1, ext)
             case o => o)
  {
    var w := SeenOnceLoop(flag, c, b);
    assert Eval(BoolLit(true), st, ext) == Some(Evaluated(BoolV(true), st));
    assert Exec(w.body, st, fuel - 1, ext) == ExecBlock(w.body.stmts, st, fuel - 1, ext);
    var o := ExecBlock(w.body.stmts, st, fuel - 1, ext);
    if o.Normal? || o.Continued? {
      assert LoopNext(Some(BoolLit(true)), None, w.body, o.store, fuel - 1, ext)
          == Loop(Some(BoolLit(true)), None, w.body, o.store, fuel - 1, ext);
    }
  }

  /** What follows one run of a loop body: leave the loop on `break`, go
      on with `more` on a normal finish or `continue`. */
  function AfterBody(o: Outcome, more: Store -> Outcome): Outcome {
    match o
    case Broke(s) => Normal(s)
    case Normal(s) => more(s)
    case Continued(s) => more(s)
    case _ => o
  }

  /** The first iteration of the rewritten loop, with the flag still false:
      the body runs without the test. */
  lemma FirstIteration(flag: string, c: Expr, b: Stmt, st: Store, fuel: nat, ext: Ext)
    requires fuel > 0 && flag in st && st[flag] == BoolV(false)
    ensures Exec(SeenOnceLoop(flag, c, b), st, fuel, ext)
         == AfterBody(Exec(b, st[flag := BoolV(true)], fuel - 1, ext), s => Exec(SeenOnceLoop(flag, c, b), s, fuel - 1, ext))
  {
    RewrittenLoopStep(flag, c, b, st, fuel, ext);
    PassRun(flag, c, b, st, fuel - 1, ext);
    GuardFirstPass(flag, c, st, fuel - 1, ext);
  }

  /** A later iteration of the rewritten loop, with the flag set: the test,
      then the body. */
  lemma LaterIteration(flag: string, c: Expr, b: Stmt, st: Store, fuel: nat, ext: Ext)
    requires fuel > 0 && flag in st && st[flag] == BoolV(true)
    ensures Exec(SeenOnceLoop(flag, c, b), st, fuel, ext)
         == (match Eval(c, st, ext)
             case None => Stuck
             case Some(r) =>
               if !r.value.BoolV? then Stuck
               else if !r.value.b then Normal(r.store)
               else AfterBody(Exec(b, r.store[flag := BoolV(true)], fuel - 1, ext), s => Exec(SeenOnceLoop(flag, c, b), s, fuel - 1, ext)))
  {
    RewrittenLoopStep(flag, c, b, st, fuel, ext);
    PassRun(flag, c, b, st, fuel - 1, ext);
    GuardLaterPass(flag, c, st, fuel - 1, ext);
  }

  /** One iteration of the loop `do` runs after its first pass. */
  lemma OriginalIteration(c: Expr, body: Stmt, st: Store, fuel: nat, ext: Ext)
    requires fuel > 0
    ensures Loop(Some(c), None, body, st, fuel, ext)
         == (match Eval(c, st, ext)
             case None => Stuck
             case Some(r) =>
               if !r.value.BoolV? then Stuck
               else if !r.value.b then Normal(r.store)
               else AfterBody(Exec(body, r.store, fuel - 1, ext), s => Loop(Some(c), None, body, s, fuel - 1, ext)))
  {
  }

  lemma OriginalDo(c: Expr, body: Stmt, st: Store, fuel: nat, ext: Ext)
    ensures Exec(Do(body, c), st, fuel, ext)
         == AfterBody(Exec(body, st, fuel, ext), s => Loop(Some(c), None, body, s, fuel, ext))
  {
  }

  /** The flag of loop `n` is not named in its rewritten body. */
  lemma FlagNotInBody(body: Stmt, n: nat)
    requires Avoids(StmtNames(body), FlagPrefix)
    ensures Flag(n) !in StmtNames(DoWhileStmt(body, n + 1).0)
  {
    RewrittenNames(body, n + 1);
    FreshNames.DrawnOutside(FlagPrefix, n, n + 1, DoWhileStmt(body, n + 1).1);
  }

  /** The theorem: wherever the original statement finishes with fuel `f`,
      the rewritten one finishes the same way with `f + Depth(s)`, in a
      store that differs only in the flags; it is stuck exactly where the
      original is. The original may not use the flag names itself. */
  lemma {:induction false} DoWhileExec(s: Stmt, n: nat, st1: Store, st2: Store, f: nat, g: nat, ext: Ext)
    requires Avoids(StmtNames(s), FlagPrefix) && Agree(st1, st2, FlagPrefix)
    requires g >= f + Depth(s)
    ensures Simulates(Exec(s, st1, f, ext), Exec(DoWhileStmt(s, n).0, st2, g, ext), FlagPrefix)
    decreases f, s, 1
  {
    match s
    case ExprStmt(e) =>
      ExprStmtAgree(e, st1, st2, FlagPrefix, f, g, ext);
    case VarDecl(ty, x, init) =>
      VarDeclAgree(ty, x, init, st1, st2, FlagPrefix, f, g, ext);
    case Block(ss) =>
      DoWhileBlockExec(ss, n, st1, st2, f, g, ext);
    case If(c, t, e) =>
      EvalAgree(c, st1, st2, FlagPrefix, ext);
      var t' := DoWhileStmt(t, n);
      var r1, r2 := Eval(c, st1, ext), Eval(c, st2, ext);
      if r1.Some? && r1.value.value.BoolV? {
        if r1.value.value.b {
          DoWhileExec(t, n, r1.value.store, r2.value.store, f, g, ext);
        } else {
          DoWhileExec(e, t'.1, r1.value.store, r2.value.store, f, g, ext);
        }
      }
    case For(init, test, next, body) =>
      var i' := DoWhileStmt(init, n);
      DoWhileExec(init, n, st1, st2, f, g, ext);
      var o1, o2 := Exec(init, st1, f, ext), Exec(i'.0, st2, g, ext);
      if o1.Normal? {
        LoopSim(test, next, body, i'.1, o1.store, o2.store, f, g, ext);
      }
    case While(c, body) =>
      LoopSim(Some(c), None, body, n, st1, st2, f, g, ext);
    case Do(body, c) =>
      ExpandExec(body, c, n, st1, st2, f, g, ext);
    case Break =>
    case Continue =>
  }

  lemma {:induction false} DoWhileSeqExec(s: Stmt, n: nat, st1: Store, st2: Store, f: nat, g: nat, ext: Ext)
    requires Avoids(StmtNames(s), FlagPrefix) && Agree(st1, st2, FlagPrefix)
    requires g >= f + Depth(s)
    ensures Simulates(Exec(s, st1, f, ext), ExecBlock(DoWhileSeq(s, n).stmts, st2, g, ext), FlagPrefix)
    decreases f, s, 2
  {
    if s.Do? {
      ExpandExec(s.body, s.cond, n, st1, st2, f, g, ext);
    } else {
      DoWhileExec(s, n, st1, st2, f, g, ext);
      ExecBlockSingle(DoWhileStmt(s, n).0, st2, g, ext);
    }
  }

  lemma {:induction false} DoWhileBlockExec(ss: seq<Stmt>, n: nat, st1: Store, st2: Store, f: nat, g: nat, ext: Ext)
    requires Avoids(BlockNames(ss), FlagPrefix) && Agree(st1, st2, FlagPrefix)
    requires g >= f + DepthBlock(ss)
    ensures Simulates(ExecBlock(ss, st1, f, ext), ExecBlock(DoWhileBlock(ss, n).stmts, st2, g, ext), FlagPrefix)
    decreases f, ss
  {
    if |ss| > 0 {
      var h := DoWhileSeq(ss[0], n);
      var t := DoWhileBlock(ss[1..], h.next);
      ExecBlockAppend(h.stmts, t.stmts, st2, g, ext);
      DoWhileSeqExec(ss[0], n, st1, st2, f, g, ext);
      var o1, o2 := Exec(ss[0], st1, f, ext), ExecBlock(h.stmts, st2, g, ext);
      if o1.Normal? {
        DoWhileBlockExec(ss[1..], h.next, o1.store, o2.store, f, g, ext);
      }
    }
  }

  lemma {:induction false} LoopSim(test: Option<Expr>, next: Option<Expr>, body: Stmt, m: nat,
                                   st1: Store, st2: Store, f: nat, g: nat, ext: Ext)
    requires Avoids(OptionNames(test), FlagPrefix) && Avoids(OptionNames(next), FlagPrefix)
    requires Avoids(StmtNames(body), FlagPrefix) && Agree(st1, st2, FlagPrefix)
    requires g >= f + Depth(body)
    ensures Simulates(Loop(test, next, body, st1, f, ext), Loop(test, next, DoWhileStmt(body, m).0, st2, g, ext), FlagPrefix)
    decreases f, body, 0
  {
    if f > 0 {
      var b := DoWhileStmt(body, m).0;
      if test.Some? {
        EvalAgree(test.value, st1, st2, FlagPrefix, ext);
      }
      var t1, t2 := Tested(test, st1, ext), Tested(test, st2, ext);
      if t1.Some? && t1.value.value == BoolV(true) {
        DoWhileExec(body, m, t1.value.store, t2.value.store, f - 1, g - 1, ext);
        var o1, o2 := Exec(body, t1.value.store, f - 1, ext), Exec(b, t2.value.store, g - 1, ext);
        if o1.Normal? || o1.Continued? {
          LoopNextSim(test, next, body, m, o1.store, o2.store, f - 1, g - 1, ext);
        }
      }
      LoopStepSim(test, next, body, test, next, b, st1, st2, f, g, FlagPrefix, ext);
    }
  }

  lemma {:induction false} LoopNextSim(test: Option<Expr>, next: Option<Expr>, body: Stmt, m: nat,
                                       st1: Store, st2: Store, f: nat, g: nat, ext: Ext)
    requires Avoids(OptionNames(test), FlagPrefix) && Avoids(OptionNames(next), FlagPrefix)
    requires Avoids(StmtNames(body), FlagPrefix) && Agree(st1, st2, FlagPrefix)
    requires g >= f + Depth(body)
    ensures Simulates(LoopNext(test, next, body, st1, f, ext), LoopNext(test, next, DoWhileStmt(body, m).0, st2, g, ext), FlagPrefix)
    decreases f, body, 1
  {
    var b := DoWhileStmt(body, m).0;
    if next.Some? {
      EvalAgree(next.value, st1, st2, FlagPrefix, ext);
      var r1, r2 := Eval(next.value, st1, ext), Eval(next.value, st2, ext);
      if r1.Some? {
        LoopSim(test, next, body, m, r1.value.store, r2.value.store, f, g, ext);
      }
    } else {
      LoopSim(test, next, body, m, st1, st2, f, g, ext);
    }
    LoopNextStepSim(test, next, body, test, next, b, st1, st2, f, g, FlagPrefix, ext);
  }

  /** A do-while and its expansion: the first pass runs the body without
      testing, as `do` does. */
  lemma {:induction false} ExpandExec(body: Stmt, c: Expr, n: nat, st1: Store, st2: Store, f: nat, g: nat, ext: Ext)
    requires Avoids(StmtNames(Do(body, c)), FlagPrefix) && Agree(st1, st2, FlagPrefix)
    requires g >= f + 1 + Depth(body)
    ensures Simulates(Exec(Do(body, c), st1, f, ext), ExecBlock(ExpandDo(body, c, n).stmts, st2, g, ext), FlagPrefix)
    decreases f, body, 3
  {
    var flag := Flag(n);
    var b := DoWhileStmt(body, n + 1).0;
    var w := SeenOnceLoop(flag, c, b);
    var st2' := st2[flag := BoolV(false)];
    DeclThenLoop(flag, w, st2, g, ext);
    FirstIteration(flag, c, b, st2', g, ext);
    OriginalDo(c, body, st1, f, ext);
    AgreeHidden(st1, st2, FlagPrefix, flag, BoolV(false));
    AgreeHidden(st1, st2', FlagPrefix, flag, BoolV(true));
    BodySim(body, c, n, st1, st2'[flag := BoolV(true)], f, g - 1, ext);
  }

  /** The expansion declares the flag false, then runs the loop. */
  lemma DeclThenLoop(flag: string, w: Stmt, st: Store, fuel: nat, ext: Ext)
    ensures ExecBlock([VarDecl(BoolType, flag, Some(BoolLit(false))), w], st, fuel, ext)
         == Exec(w, st[flag := BoolV(false)], fuel, ext)
  {
    var d := VarDecl(BoolType, flag, Some(BoolLit(false)));
    assert Exec(d, st, fuel, ext) == Normal(st[flag := BoolV(false)]);
    assert [d, w][1..] == [w];
    ExecBlockSingle(w, st[flag := BoolV(false)], fuel, ext);
  }

  /** One run of the body and what follows it, in the do-while and in the
      rewritten loop with its flag set. */
  lemma {:induction false} BodySim(body: Stmt, c: Expr, n: nat, st1: Store, st2: Store, f: nat, h: nat, ext: Ext)
    requires Avoids(StmtNames(Do(body, c)), FlagPrefix) && Agree(st1, st2, FlagPrefix)
    requires Flag(n) in st2 && st2[Flag(n)] == BoolV(true)
    requires h >= f + Depth(body)
    ensures Simulates(AfterBody(Exec(body, st1, f, ext), s => Loop(Some(c), None, body, s, f, ext)),
                      AfterBody(Exec(DoWhileStmt(body, n + 1).0, st2, h, ext),
                                s => Exec(SeenOnceLoop(Flag(n), c, DoWhileStmt(body, n + 1).0), s, h, ext)), FlagPrefix)
    decreases f, body, 2
  {
    var b := DoWhileStmt(body, n + 1).0;
    DoWhileExec(body, n + 1, st1, st2, f, h, ext);
    var o1, o2 := Exec(body, st1, f, ext), Exec(b, st2, h, ext);
    if o1.Normal? || o1.Continued? {
      FlagNotInBody(body, n);
      ExecFrame(b, st2, h, Flag(n), ext);
      SeenOnceSim(body, c, n, o1.store, o2.store, f, h, ext);
    }
  }

  /** Later passes of the rewritten loop, once the flag is set, against the
      tail of the do-while: test, then body. */
  lemma {:induction false} SeenOnceSim(body: Stmt, c: Expr, n: nat, st1: Store, st2: Store, f: nat, h: nat, ext: Ext)
    requires Avoids(StmtNames(Do(body, c)), FlagPrefix) && Agree(st1, st2, FlagPrefix)
    requires Flag(n) in st2 && st2[Flag(n)] == BoolV(true)
    requires h >= f + Depth(body)
    ensures Simulates(Loop(Some(c), None, body, st1, f, ext),
                      Exec(SeenOnceLoop(Flag(n), c, DoWhileStmt(body, n + 1).0), st2, h, ext), FlagPrefix)
    decreases f, body, 1
  {
    if f > 0 {
      var flag := Flag(n);
      var b := DoWhileStmt(body, n + 1).0;
      LaterIteration(flag, c, b, st2, h, ext);
      OriginalIteration(c, body, st1, f, ext);
      EvalAgree(c, st1, st2, FlagPrefix, ext);
      var r1, r2 := Eval(c, st1, ext), Eval(c, st2, ext);
      if r1.Some? && r1.value.value.BoolV? && r1.value.value.b {
        AgreeHidden(r1.value.store, r2.value.store, FlagPrefix, flag, BoolV(true));
        BodySim(body, c, n, r1.value.store, r2.value.store[flag := BoolV(true)], f - 1, h - 1, ext);
      }
    }
  }
}
