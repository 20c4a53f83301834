/** The min/abs workaround, for drivers that miscompile `abs` nested in
    `min`: every `min(abs(x), y)` becomes
        ((t0 = abs(x)) < (t1 = y) ? t0 : t1)
    where `t0` and `t1` are fresh temporaries `minAbsHackVar<n>`, declared
    without initializer at the head of the function. The counter advances
    in the order the calls are met, an outer call before the calls inside
    its arguments. */
module SkslMinAbs {
  import opened Options
  import FreshNames = Names
  import opened SkslIr
  import opened SkslEval
  import opened SkslFacts

  const TempPrefix := "minAbsHackVar"

  function Temp(n: nat): string {
    FreshNames.Fresh(TempPrefix, n)
  }

  /** Rewritten code, the declarations of the temporaries it introduced and
      the counter after it. */
  datatype Lowered<T> = Lowered(code: T, decls: seq<Stmt>, next: nat)

  /** A declaration of a temporary, without initializer. */
  predicate TempDecl(d: Stmt) {
    d.VarDecl? && d.init.None? && TempPrefix <= d.name
  }

  predicate TempDecls(ds: seq<Stmt>) {
    forall i :: 0 <= i < |ds| ==> TempDecl(ds[i])
  }

  predicate Scalar(ty: Type) {
    ty == FloatType || ty == IntType
  }

  /** `min(abs(x), y)` on scalars of one type. */
  predicate IsMinAbs(e: Expr) {
    e.Call? && e.fn == "min" && |e.args| == 2 && Scalar(e.ty)
    && e.args[0].Call? && e.args[0].fn == "abs" && |e.args[0].args| == 1
    && TypeOf(e.args[0]) == e.ty && TypeOf(e.args[1]) == e.ty
  }

  /** The replacement of `min(a, y)`, `a` being the abs call. */
  function Form(t0: string, t1: string, a: Expr, y: Expr, ty: Type): (r: Expr)
    ensures TypeOf(r) == ty
  {
    Ternary(Binary(Assign(t0, a), Less, Assign(t1, y)), Var(t0, ty), Var(t1, ty))
  }

  function MinAbsExpr(e: Expr, n: nat): (r: Lowered<Expr>)
    ensures r.next >= n
    ensures TypeOf(r.code) == TypeOf(e)
    decreases e, 2
  {
    if IsMinAbs(e) then MinAbsRoot(e, n) else MinAbsChildren(e, n)
  }

  /** `min(abs(x), y)`: its arguments rewritten after the two temporaries
      the node itself takes. */
  function MinAbsRoot(e: Expr, n: nat): (r: Lowered<Expr>)
    requires IsMinAbs(e)
    ensures r.next >= n
    ensures TypeOf(r.code) == TypeOf(e)
    decreases e, 1
  {
    var a := MinAbsExpr(e.args[0], n + 2);
    var y := MinAbsExpr(e.args[1], a.next);
    Lowered(Form(Temp(n), Temp(n + 1), a.code, y.code, e.ty),
            [VarDecl(e.ty, Temp(n), None), VarDecl(e.ty, Temp(n + 1), None)] + a.decls + y.decls,
            y.next)
  }

  /** Any other node: its children rewritten in evaluation order. */
  function MinAbsChildren(e: Expr, n: nat): (r: Lowered<Expr>)
    ensures r.next >= n
    ensures TypeOf(r.code) == TypeOf(e)
    decreases e, 1
  {
    match e
    case Neg(a) =>
      var a' := MinAbsExpr(a, n);
      Lowered(Neg(a'.code), a'.decls, a'.next)
    case Not(a) =>
      var a' := MinAbsExpr(a, n);
      Lowered(Not(a'.code), a'.decls, a'.next)
    case Binary(l, op, r) =>
      var l' := MinAbsExpr(l, n);
      var r' := MinAbsExpr(r, l'.next);
      Lowered(Binary(l'.code, op, r'.code), l'.decls + r'.decls, r'.next)
    case Ternary(c, t, f) =>
      var c' := MinAbsExpr(c, n);
      var t' := MinAbsExpr(t, c'.next);
      var f' := MinAbsExpr(f, t'.next);
      Lowered(Ternary(c'.code, t'.code, f'.code), c'.decls + t'.decls + f'.decls, f'.next)
    case Call(fn, args, ty) =>
      var a' := MinAbsArgs(args, n);
      Lowered(Call(fn, a'.code, ty), a'.decls, a'.next)
    case Construct(ty, args) =>
      var a' := MinAbsArgs(args, n);
      Lowered(Construct(ty, a'.code), a'.decls, a'.next)
    case Swizzle(b, mask) =>
      var b' := MinAbsExpr(b, n);
      Lowered(Swizzle(b'.code, mask), b'.decls, b'.next)
    case Assign(x, v) =>
      var v' := MinAbsExpr(v, n);
      Lowered(Assign(x, v'.code), v'.decls, v'.next)
    case _ => Lowered(e, [], n)
  }

  function MinAbsArgs(args: seq<Expr>, n: nat): (r: Lowered<seq<Expr>>)
    ensures r.next >= n
    ensures |r.code| == |args|
    decreases args, 3
  {
    if |args| == 0 then Lowered([], [], n)
    else
      var h := MinAbsExpr(args[0], n);
      var t := MinAbsArgs(args[1..], h.next);
      Lowered([h.code] + t.code, h.decls + t.decls, t.next)
  }

  /* ----- What the rewrite introduces ----- */

  lemma ArgNamesTwo(args: seq<Expr>)
    requires |args| == 2
    ensures ArgNames(args) == Names(args[0]) + Names(args[1])
  {
    var t := args[1..];
    assert t[0] == args[1] && t[1..] == [];
    assert ArgNames(t) == Names(args[1]) + ArgNames([]);
  }

  /** The rewritten expression names what the original names and the
      temporaries drawn from the counter values it consumed. */
  lemma {:induction false} MinAbsNames(e: Expr, n: nat)
    ensures Names(MinAbsExpr(e, n).code) <= Names(e) + FreshNames.Drawn(TempPrefix, n, MinAbsExpr(e, n).next)
    decreases e, 2
  {
    if IsMinAbs(e) {
      MinAbsNames(e.args[0], n + 2);
      MinAbsNames(e.args[1], MinAbsExpr(e.args[0], n + 2).next);
      RootNames(e, n);
    } else {
      ChildrenNames(e, n);
    }
  }

  lemma {:induction false} ChildrenNames(e: Expr, n: nat)
    ensures Names(MinAbsChildren(e, n).code) <= Names(e) + FreshNames.Drawn(TempPrefix, n, MinAbsChildren(e, n).next)
    decreases e, 1
  {
    var m := MinAbsChildren(e, n).next;
    match e
    case Neg(a) => MinAbsNames(a, n);
    case Not(a) => MinAbsNames(a, n);
    case Binary(l, _, r) =>
      var l' := MinAbsExpr(l, n);
      MinAbsNames(l, n);
      MinAbsNames(r, l'.next);
      FreshNames.DrawnGrow(TempPrefix, n, l'.next, n, m);
      FreshNames.DrawnGrow(TempPrefix, l'.next, m, n, m);
    case Ternary(c, t, f) =>
      var c' := MinAbsExpr(c, n);
      var t' := MinAbsExpr(t, c'.next);
      MinAbsNames(c, n);
      MinAbsNames(t, c'.next);
      MinAbsNames(f, t'.next);
      FreshNames.DrawnGrow(TempPrefix, n, c'.next, n, m);
      FreshNames.DrawnGrow(TempPrefix, c'.next, t'.next, n, m);
      FreshNames.DrawnGrow(TempPrefix, t'.next, m, n, m);
    case Call(_, args, _) => MinAbsArgsNames(args, n);
    case Construct(_, args) => MinAbsArgsNames(args, n);
    case Swizzle(b, _) => MinAbsNames(b, n);
    case Assign(_, v) => MinAbsNames(v, n);
    case BoolLit(_) =>
    case IntLit(_) =>
    case FloatLit(_) =>
    case Var(_, _) =>
  }

  lemma FormNames(t0: string, t1: string, a: Expr, y: Expr, ty: Type)
    ensures Names(Form(t0, t1, a, y, ty)) == {t0, t1} + Names(a) + Names(y)
  {
    assert Names(Assign(t0, a)) == {t0} + Names(a);
    assert Names(Assign(t1, y)) == {t1} + Names(y);
    assert Names(Var(t0, ty)) == {t0} && Names(Var(t1, ty)) == {t1};
  }

  /** The names of a rewritten `min(abs(x), y)`, given those of its
      rewritten arguments. */
  lemma RootNames(e: Expr, n: nat)
    requires IsMinAbs(e)
    requires var a := MinAbsExpr(e.args[0], n + 2);
      Names(a.code) <= Names(e.args[0]) + FreshNames.Drawn(TempPrefix, n + 2, a.next)
    requires var a := MinAbsExpr(e.args[0], n + 2); var y := MinAbsExpr(e.args[1], a.next);
      Names(y.code) <= Names(e.args[1]) + FreshNames.Drawn(TempPrefix, a.next, y.next)
    ensures Names(MinAbsRoot(e, n).code) <= Names(e) + FreshNames.Drawn(TempPrefix, n, MinAbsRoot(e, n).next)
  {
    var a := MinAbsExpr(e.args[0], n + 2);
    var y := MinAbsExpr(e.args[1], a.next);
    var m := y.next;
    FreshNames.DrawnGrow(TempPrefix, n + 2, a.next, n, m);
    FreshNames.DrawnGrow(TempPrefix, a.next, m, n, m);
    assert Temp(n) in FreshNames.Drawn(TempPrefix, n, m);
    assert Temp(n + 1) in FreshNames.Drawn(TempPrefix, n, m);
    ArgNamesTwo(e.args);
    FormNames(Temp(n), Temp(n + 1), a.code, y.code, e.ty);
  }

  lemma {:induction false} MinAbsArgsNames(args: seq<Expr>, n: nat)
    ensures ArgNames(MinAbsArgs(args, n).code) <= ArgNames(args) + FreshNames.Drawn(TempPrefix, n, MinAbsArgs(args, n).next)
    decreases args, 2
  {
    if |args| > 0 {
      var h := MinAbsExpr(args[0], n);
      var t := MinAbsArgs(args[1..], h.next);
      var r := MinAbsArgs(args, n);
      MinAbsNames(args[0], n);
      MinAbsArgsNames(args[1..], h.next);
      assert r.code[0] == h.code && r.code[1..] == t.code;
      FreshNames.DrawnGrow(TempPrefix, n, h.next, n, t.next);
      FreshNames.DrawnGrow(TempPrefix, h.next, t.next, n, t.next);
    }
  }

  /** Every declaration the rewrite adds is of a temporary, uninitialized. */
  lemma {:induction false} MinAbsDecls(e: Expr, n: nat)
    ensures TempDecls(MinAbsExpr(e, n).decls)
    decreases e, 2
  {
    if IsMinAbs(e) {
      var a := MinAbsExpr(e.args[0], n + 2);
      MinAbsDecls(e.args[0], n + 2);
      MinAbsDecls(e.args[1], a.next);
      assert TempDecls(MinAbsRoot(e, n).decls);
    } else {
      ChildrenDecls(e, n);
    }
  }

  lemma {:induction false} ChildrenDecls(e: Expr, n: nat)
    ensures TempDecls(MinAbsChildren(e, n).decls)
    decreases e, 1
  {
    match e
    case Neg(a) => MinAbsDecls(a, n);
    case Not(a) => MinAbsDecls(a, n);
    case Binary(l, _, r) =>
      MinAbsDecls(l, n);
      MinAbsDecls(r, MinAbsExpr(l, n).next);
    case Ternary(c, t, f) =>
      var c' := MinAbsExpr(c, n);
      MinAbsDecls(c, n);
      MinAbsDecls(t, c'.next);
      MinAbsDecls(f, MinAbsExpr(t, c'.next).next);
    case Call(_, args, _) => MinAbsArgsDecls(args, n);
    case Construct(_, args) => MinAbsArgsDecls(args, n);
    case Swizzle(b, _) => MinAbsDecls(b, n);
    case Assign(_, v) => MinAbsDecls(v, n);
    case BoolLit(_) =>
    case IntLit(_) =>
    case FloatLit(_) =>
    case Var(_, _) =>
  }

  lemma {:induction false} MinAbsArgsDecls(args: seq<Expr>, n: nat)
    ensures TempDecls(MinAbsArgs(args, n).decls)
    decreases args, 2
  {
    if |args| > 0 {
      MinAbsDecls(args[0], n);
      MinAbsArgsDecls(args[1..], MinAbsExpr(args[0], n).next);
    }
  }

  /* ----- The rewritten expression evaluates as the original ----- */

  /** `a < b` on two scalars. */
  function Smaller(a: Value, b: Value): bool {
    match (a, b)
    case (IntV(i), IntV(j)) => i < j
    case (FloatV(xs), FloatV(ys)) => |xs| == 1 && |ys| == 1 && xs[0] < ys[0]
    case _ => false
  }

  /** On two scalars of one type, `min` is the first when it is smaller and
      the second otherwise, as the conditional the rewrite emits picks. */
  lemma ScalarMin(a: Value, b: Value, ty: Type, ext: Ext)
    requires Scalar(ty) && HasType(a, ty) && HasType(b, ty)
    ensures Intrinsic("min", [a, b], ext) == Some(if Smaller(a, b) then a else b)
    ensures Arith(Less, a, b) == Some(BoolV(Smaller(a, b)))
  {
    if ty == FloatType {
      var p, q := a.xs[0], b.xs[0];
      assert a == FloatV([p]) && b == FloatV([q]);
      var m := seq(1, k requires 0 <= k < 1 => if [q][k] < [p][k] then [q][k] else [p][k]);
      assert m == [if q < p then q else p];
    }
  }

  lemma EvalTyped(e: Expr, st: Store, ext: Ext)
    requires Eval(e, st, ext).Some?
    ensures HasType(Eval(e, st, ext).value.value, TypeOf(e))
  {
  }

  /** `min(a, y)` evaluates `a`, then `y`, and takes the smaller. */
  lemma MinCallEval(a: Expr, y: Expr, ty: Type, st: Store, ext: Ext)
    requires Scalar(ty) && TypeOf(a) == ty && TypeOf(y) == ty
    ensures Eval(Call("min", [a, y], ty), st, ext)
         == (match Eval(a, st, ext)
             case None => None
             case Some(ra) =>
               match Eval(y, ra.store, ext)
               case None => None
               case Some(rb) => Some(Evaluated(if Smaller(ra.value, rb.value) then ra.value else rb.value, rb.store)))
  {
    var args := [a, y];
    assert args[0] == a && args[1..] == [y] && [y][1..] == [];
    var ra := Eval(a, st, ext);
    if ra.Some? {
      var rb := Eval(y, ra.value.store, ext);
      if rb.Some? {
        EvalTyped(a, st, ext);
        EvalTyped(y, ra.value.store, ext);
        CallTwo("min", a, y, ty, st, ext, ra.value.value, ra.value.store, rb.value.value, rb.value.store);
        ScalarMin(ra.value.value, rb.value.value, ty, ext);
      } else {
        assert EvalArgs([y], ra.value.store, ext) == None;
      }
    }
  }

  /** `x = a` evaluates `a` and stores its value in `x`. */
  lemma AssignEval(x: string, a: Expr, st: Store, ext: Ext)
    ensures Eval(Assign(x, a), st, ext)
         == (match Eval(a, st, ext)
             case None => None
             case Some(ra) => Some(Evaluated(ra.value, ra.store[x := ra.value])))
  {
    if Eval(a, st, ext).Some? {
      EvalTyped(a, st, ext);
    }
  }

  /** The test of the replacement: both assignments, then the comparison. */
  lemma FormTestEval(t0: string, t1: string, a: Expr, y: Expr, ty: Type, st: Store, ext: Ext)
    requires Scalar(ty) && TypeOf(a) == ty && TypeOf(y) == ty
    ensures Eval(Binary(Assign(t0, a), Less, Assign(t1, y)), st, ext)
         == (match Eval(a, st, ext)
             case None => None
             case Some(ra) =>
               match Eval(y, ra.store[t0 := ra.value], ext)
               case None => None
               case Some(rb) => Some(Evaluated(BoolV(Smaller(ra.value, rb.value)), rb.store[t1 := rb.value])))
  {
    AssignEval(t0, a, st, ext);
    var ra := Eval(a, st, ext);
    if ra.Some? {
      var s1 := ra.value.store[t0 := ra.value.value];
      AssignEval(t1, y, s1, ext);
      var rb := Eval(y, s1, ext);
      if rb.Some? {
        EvalTyped(a, st, ext);
        EvalTyped(y, s1, ext);
        ScalarMin(ra.value.value, rb.value.value, ty, ext);
      }
    }
  }

  /** The conditional reads back the temporary its test picks. */
  lemma FormPick(t0: string, t1: string, test: Expr, ty: Type, st: Store, ext: Ext, b: bool, s2: Store, va: Value, vb: Value)
    requires TypeOf(test) == BoolType && Eval(test, st, ext) == Some(Evaluated(BoolV(b), s2))
    requires t0 in s2 && s2[t0] == va && t1 in s2 && s2[t1] == vb
    requires HasType(va, ty) && HasType(vb, ty)
    ensures Eval(Ternary(test, Var(t0, ty), Var(t1, ty)), st, ext) == Some(Evaluated(if b then va else vb, s2))
  {
    assert Eval(Var(t0, ty), s2, ext) == Some(Evaluated(va, s2));
    assert Eval(Var(t1, ty), s2, ext) == Some(Evaluated(vb, s2));
  }

  /** The replacement evaluates `a` into `t0`, then `y` into `t1`, and reads
      back the smaller. */
  lemma FormEval(t0: string, t1: string, a: Expr, y: Expr, ty: Type, st: Store, ext: Ext)
    requires t0 != t1 && t0 !in Names(y)
    requires Scalar(ty) && TypeOf(a) == ty && TypeOf(y) == ty
    ensures Eval(Form(t0, t1, a, y, ty), st, ext)
         == (match Eval(a, st, ext)
             case None => None
             case Some(ra) =>
               match Eval(y, ra.store[t0 := ra.value], ext)
               case None => None
               case Some(rb) =>
                 Some(Evaluated(if Smaller(ra.value, rb.value) then ra.value else rb.value, rb.store[t1 := rb.value])))
  {
    var test := Binary(Assign(t0, a), Less, Assign(t1, y));
    FormTestEval(t0, t1, a, y, ty, st, ext);
    var ra := Eval(a, st, ext);
    if ra.Some? {
      var va := ra.value.value;
      var s1 := ra.value.store[t0 := va];
      var rb := Eval(y, s1, ext);
      if rb.Some? {
        var vb := rb.value.value;
        var s2 := rb.value.store[t1 := vb];
        EvalTyped(a, st, ext);
        EvalTyped(y, s1, ext);
        EvalFrame(y, s1, t0, ext);
        FormPick(t0, t1, test, ty, st, ext, Smaller(va, vb), s2, va, vb);
      }
    }
  }

  /** The theorem for expressions: in stores that agree outside the
      temporaries, the rewritten expression has the value of the original and
      leaves agreeing stores, and it is stuck exactly where the original is.
      The original may not use the temporaries' names itself. */
  lemma {:induction false} MinAbsValue(e: Expr, n: nat, st1: Store, st2: Store, ext: Ext)
    requires Avoids(Names(e), TempPrefix) && Agree(st1, st2, TempPrefix)
    ensures SameResult(Eval(e, st1, ext), Eval(MinAbsExpr(e, n).code, st2, ext), TempPrefix)
    decreases e, 2
  {
    if IsMinAbs(e) {
      RootValue(e, n, st1, st2, ext);
    } else {
      ChildrenValue(e, n, st1, st2, ext);
    }
  }

  /** Any other node: its children rewritten in evaluation order. */
  lemma {:induction false} ChildrenValue(e: Expr, n: nat, st1: Store, st2: Store, ext: Ext)
    requires !IsMinAbs(e)
    requires Avoids(Names(e), TempPrefix) && Agree(st1, st2, TempPrefix)
    ensures SameResult(Eval(e, st1, ext), Eval(MinAbsExpr(e, n).code, st2, ext), TempPrefix)
    decreases e, 1
  {
    match e
      case Var(x, ty) =>
        assert x in Names(e);
        VarAgree(x, ty, st1, st2, TempPrefix, ext);
      case Neg(a) => NegValue(a, n, st1, st2, ext);
      case Not(a) => NotValue(a, n, st1, st2, ext);
      case Binary(l, op, r) => BinaryValue(l, op, r, n, st1, st2, ext);
      case Ternary(c, t, f) => TernaryValue(c, t, f, n, st1, st2, ext);
      case Call(fn, args, ty) => CallValue(fn, args, ty, n, st1, st2, ext);
      case Construct(ty, args) => ConstructValue(ty, args, n, st1, st2, ext);
      case Swizzle(b, mask) => SwizzleValue(b, mask, n, st1, st2, ext);
      case Assign(x, a) =>
        assert x in Names(e);
        AssignValue(x, a, n, st1, st2, ext);
      case BoolLit(_) =>
      case IntLit(_) =>
      case FloatLit(_) =>
  }

  lemma {:induction false} NegValue(a: Expr, n: nat, st1: Store, st2: Store, ext: Ext)
    requires Avoids(Names(a), TempPrefix) && Agree(st1, st2, TempPrefix)
    ensures SameResult(Eval(Neg(a), st1, ext), Eval(MinAbsExpr(Neg(a), n).code, st2, ext), TempPrefix)
    decreases Neg(a), 0
  {
    var a' := MinAbsExpr(a, n);
    assert MinAbsExpr(Neg(a), n).code == Neg(a'.code);
    MinAbsValue(a, n, st1, st2, ext);
    NegAgree(a, a'.code, st1, st2, TempPrefix, ext);
  }

  lemma {:induction false} NotValue(a: Expr, n: nat, st1: Store, st2: Store, ext: Ext)
    requires Avoids(Names(a), TempPrefix) && Agree(st1, st2, TempPrefix)
    ensures SameResult(Eval(Not(a), st1, ext), Eval(MinAbsExpr(Not(a), n).code, st2, ext), TempPrefix)
    decreases Not(a), 0
  {
    var a' := MinAbsExpr(a, n);
    assert MinAbsExpr(Not(a), n).code == Not(a'.code);
    MinAbsValue(a, n, st1, st2, ext);
    NotAgree(a, a'.code, st1, st2, TempPrefix, ext);
  }

  lemma {:induction false} CallValue(fn: string, args: seq<Expr>, ty: Type, n: nat, st1: Store, st2: Store, ext: Ext)
    requires !IsMinAbs(Call(fn, args, ty))
    requires Avoids(ArgNames(args), TempPrefix) && Agree(st1, st2, TempPrefix)
    ensures SameResult(Eval(Call(fn, args, ty), st1, ext), Eval(MinAbsExpr(Call(fn, args, ty), n).code, st2, ext), TempPrefix)
    decreases Call(fn, args, ty), 0
  {
    var a' := MinAbsArgs(args, n);
    assert MinAbsExpr(Call(fn, args, ty), n).code == Call(fn, a'.code, ty);
    MinAbsArgsValue(args, n, st1, st2, ext);
    CallAgree(fn, args, a'.code, ty, st1, st2, TempPrefix, ext);
  }

  lemma {:induction false} ConstructValue(ty: Type, args: seq<Expr>, n: nat, st1: Store, st2: Store, ext: Ext)
    requires Avoids(ArgNames(args), TempPrefix) && Agree(st1, st2, TempPrefix)
    ensures SameResult(Eval(Construct(ty, args), st1, ext), Eval(MinAbsExpr(Construct(ty, args), n).code, st2, ext), TempPrefix)
    decreases Construct(ty, args), 0
  {
    var a' := MinAbsArgs(args, n);
    assert MinAbsExpr(Construct(ty, args), n).code == Construct(ty, a'.code);
    MinAbsArgsValue(args, n, st1, st2, ext);
    ConstructAgree(ty, args, a'.code, st1, st2, TempPrefix, ext);
  }

  lemma {:induction false} SwizzleValue(b: Expr, mask: seq<Component>, n: nat, st1: Store, st2: Store, ext: Ext)
    requires Avoids(Names(b), TempPrefix) && Agree(st1, st2, TempPrefix)
    ensures SameResult(Eval(Swizzle(b, mask), st1, ext), Eval(MinAbsExpr(Swizzle(b, mask), n).code, st2, ext), TempPrefix)
    decreases Swizzle(b, mask), 0
  {
    var b' := MinAbsExpr(b, n);
    assert MinAbsExpr(Swizzle(b, mask), n).code == Swizzle(b'.code, mask);
    MinAbsValue(b, n, st1, st2, ext);
    SwizzleAgree(b, b'.code, mask, st1, st2, TempPrefix, ext);
  }

  lemma {:induction false} AssignValue(x: string, a: Expr, n: nat, st1: Store, st2: Store, ext: Ext)
    requires !(TempPrefix <= x)
    requires Avoids(Names(a), TempPrefix) && Agree(st1, st2, TempPrefix)
    ensures SameResult(Eval(Assign(x, a), st1, ext), Eval(MinAbsExpr(Assign(x, a), n).code, st2, ext), TempPrefix)
    decreases Assign(x, a), 0
  {
    var a' := MinAbsExpr(a, n);
    assert MinAbsExpr(Assign(x, a), n).code == Assign(x, a'.code);
    MinAbsValue(a, n, st1, st2, ext);
    AssignAgree(x, a, a'.code, st1, st2, TempPrefix, ext);
  }

  lemma {:induction false} BinaryValue(l: Expr, op: BinOp, r: Expr, n: nat, st1: Store, st2: Store, ext: Ext)
    requires Avoids(Names(l) + Names(r), TempPrefix) && Agree(st1, st2, TempPrefix)
    ensures var l' := MinAbsExpr(l, n); var r' := MinAbsExpr(r, l'.next);
      SameResult(Eval(Binary(l, op, r), st1, ext), Eval(Binary(l'.code, op, r'.code), st2, ext), TempPrefix)
    decreases Binary(l, op, r), 0
  {
    var l' := MinAbsExpr(l, n);
    var r' := MinAbsExpr(r, l'.next);
    MinAbsValue(l, n, st1, st2, ext);
    var r1, r2 := Eval(l, st1, ext), Eval(l'.code, st2, ext);
    if r1.Some? {
      MinAbsValue(r, l'.next, r1.value.store, r2.value.store, ext);
    }
    BinaryAgree(l, op, r, l'.code, r'.code, st1, st2, TempPrefix, ext);
  }

  lemma {:induction false} TernaryValue(c: Expr, t: Expr, f: Expr, n: nat, st1: Store, st2: Store, ext: Ext)
    requires Avoids(Names(c) + Names(t) + Names(f), TempPrefix) && Agree(st1, st2, TempPrefix)
    ensures var c' := MinAbsExpr(c, n); var t' := MinAbsExpr(t, c'.next); var f' := MinAbsExpr(f, t'.next);
      SameResult(Eval(Ternary(c, t, f), st1, ext), Eval(Ternary(c'.code, t'.code, f'.code), st2, ext), TempPrefix)
    decreases Ternary(c, t, f), 0
  {
    var c' := MinAbsExpr(c, n);
    var t' := MinAbsExpr(t, c'.next);
    var f' := MinAbsExpr(f, t'.next);
    MinAbsValue(c, n, st1, st2, ext);
    var r1, r2 := Eval(c, st1, ext), Eval(c'.code, st2, ext);
    if r1.Some? {
      MinAbsValue(t, c'.next, r1.value.store, r2.value.store, ext);
      MinAbsValue(f, t'.next, r1.value.store, r2.value.store, ext);
    }
    TernaryAgree(c, t, f, c'.code, t'.code, f'.code, st1, st2, TempPrefix, ext);
  }

  /** The case of `min(abs(x), y)` itself. */
  lemma {:induction false} RootValue(e: Expr, n: nat, st1: Store, st2: Store, ext: Ext)
    requires IsMinAbs(e)
    requires Avoids(Names(e), TempPrefix) && Agree(st1, st2, TempPrefix)
    ensures SameResult(Eval(e, st1, ext), Eval(MinAbsExpr(e, n).code, st2, ext), TempPrefix)
    decreases e, 1
  {
    var a := MinAbsExpr(e.args[0], n + 2);
    var y := MinAbsExpr(e.args[1], a.next);
    var t0, t1 := Temp(n), Temp(n + 1);
    ArgNamesTwo(e.args);
    FreshNames.FreshInjective(TempPrefix, n, n + 1);
    MinAbsNames(e.args[1], a.next);
    FreshNames.DrawnOutside(TempPrefix, n, a.next, y.next);
    assert t0 !in Names(e.args[1]);
    assert e == Call("min", [e.args[0], e.args[1]], e.ty);
    assert MinAbsExpr(e, n).code == Form(t0, t1, a.code, y.code, e.ty);
    MinAbsValue(e.args[0], n + 2, st1, st2, ext);
    var r1, r2 := Eval(e.args[0], st1, ext), Eval(a.code, st2, ext);
    if r1.Some? {
      var s2 := r2.value.store[t0 := r2.value.value];
      AgreeHidden(r1.value.store, r2.value.store, TempPrefix, t0, r2.value.value);
      MinAbsValue(e.args[1], a.next, r1.value.store, s2, ext);
    }
    RootAgree(t0, t1, e.args[0], e.args[1], a.code, y.code, e.ty, st1, st2, ext);
  }

  /** `min(x, y)` and its replacement over rewritten `x` and `y`, once each
      operand is known to agree with its rewrite. */
  lemma RootAgree(t0: string, t1: string, x: Expr, y: Expr, x2: Expr, y2: Expr, ty: Type, st1: Store, st2: Store, ext: Ext)
    requires t0 != t1 && t0 !in Names(y2) && TempPrefix <= t1
    requires Scalar(ty) && TypeOf(x) == ty && TypeOf(y) == ty && TypeOf(x2) == ty && TypeOf(y2) == ty
    requires SameResult(Eval(x, st1, ext), Eval(x2, st2, ext), TempPrefix)
    requires var r1, r2 := Eval(x, st1, ext), Eval(x2, st2, ext);
      r1.Some? ==> SameResult(Eval(y, r1.value.store, ext), Eval(y2, r2.value.store[t0 := r2.value.value], ext), TempPrefix)
    ensures SameResult(Eval(Call("min", [x, y], ty), st1, ext), Eval(Form(t0, t1, x2, y2, ty), st2, ext), TempPrefix)
  {
    MinCallEval(x, y, ty, st1, ext);
    FormEval(t0, t1, x2, y2, ty, st2, ext);
    var r1, r2 := Eval(x, st1, ext), Eval(x2, st2, ext);
    if r1.Some? {
      var q1, q2 := Eval(y, r1.value.store, ext), Eval(y2, r2.value.store[t0 := r2.value.value], ext);
      if q1.Some? {
        AgreeHidden(q1.value.store, q2.value.store, TempPrefix, t1, q2.value.value);
      }
    }
  }

  lemma {:induction false} MinAbsArgsValue(args: seq<Expr>, n: nat, st1: Store, st2: Store, ext: Ext)
    requires Avoids(ArgNames(args), TempPrefix) && Agree(st1, st2, TempPrefix)
    ensures SameArgs(EvalArgs(args, st1, ext), EvalArgs(MinAbsArgs(args, n).code, st2, ext), TempPrefix)
    decreases args, 3
  {
    if |args| > 0 {
      var h := MinAbsExpr(args[0], n);
      var r := MinAbsArgs(args, n);
      assert r.code[0] == h.code && r.code[1..] == MinAbsArgs(args[1..], h.next).code;
      MinAbsValue(args[0], n, st1, st2, ext);
      var r1, r2 := Eval(args[0], st1, ext), Eval(h.code, st2, ext);
      if r1.Some? {
        MinAbsArgsValue(args[1..], h.next, r1.value.store, r2.value.store, ext);
      }
    }
  }

  /* ----- Statements and function bodies ----- */

  function MinAbsOpt(e: Option<Expr>, n: nat): (r: Lowered<Option<Expr>>)
    ensures r.next >= n
    ensures r.code.Some? <==> e.Some?
  {
    match e
    case None => Lowered(None, [], n)
    case Some(x) =>
      var x' := MinAbsExpr(x, n);
      Lowered(Some(x'.code), x'.decls, x'.next)
  }

  /** Every expression of a statement rewritten, in the order the statement
      is written. */
  function MinAbsStmt(s: Stmt, n: nat): (r: Lowered<Stmt>)
    ensures r.next >= n
    decreases s
  {
    match s
    case ExprStmt(e) =>
      var e' := MinAbsExpr(e, n);
      Lowered(ExprStmt(e'.code), e'.decls, e'.next)
    case VarDecl(ty, x, init) =>
      var i' := MinAbsOpt(init, n);
      Lowered(VarDecl(ty, x, i'.code), i'.decls, i'.next)
    case Block(ss) =>
      var b := MinAbsBlock(ss, n);
      Lowered(Block(b.code), b.decls, b.next)
    case If(c, t, f) =>
      var c' := MinAbsExpr(c, n);
      var t' := MinAbsStmt(t, c'.next);
      var f' := MinAbsStmt(f, t'.next);
      Lowered(If(c'.code, t'.code, f'.code), c'.decls + t'.decls + f'.decls, f'.next)
    case For(init, test, next, body) =>
      var i' := MinAbsStmt(init, n);
      var t' := MinAbsOpt(test, i'.next);
      var n' := MinAbsOpt(next, t'.next);
      var b' := MinAbsStmt(body, n'.next);
      Lowered(For(i'.code, t'.code, n'.code, b'.code), i'.decls + t'.decls + n'.decls + b'.decls, b'.next)
    case While(c, body) =>
      var c' := MinAbsExpr(c, n);
      var b' := MinAbsStmt(body, c'.next);
      Lowered(While(c'.code, b'.code), c'.decls + b'.decls, b'.next)
    case Do(body, c) =>
      var b' := MinAbsStmt(body, n);
      var c' := MinAbsExpr(c, b'.next);
      Lowered(Do(b'.code, c'.code), b'.decls + c'.decls, c'.next)
    case Break => Lowered(s, [], n)
    case Continue => Lowered(s, [], n)
  }

  function MinAbsBlock(ss: seq<Stmt>, n: nat): (r: Lowered<seq<Stmt>>)
    ensures r.next >= n
    ensures |r.code| == |ss|
    decreases ss
  {
    if |ss| == 0 then Lowered([], [], n)
    else
      var h := MinAbsStmt(ss[0], n);
      var t := MinAbsBlock(ss[1..], h.next);
      Lowered([h.code] + t.code, h.decls + t.decls, t.next)
  }

  /** A function body with the workaround applied: the declarations of all
      its temporaries, then its statements rewritten; the counter starts at
      zero. */
  function MinAbsFunction(body: seq<Stmt>): seq<Stmt> {
    var r := MinAbsBlock(body, 0);
    r.decls + r.code
  }

  /** The theorem for statements: with the same fuel, the rewritten
      statement finishes the same way as the original, in a store that
      differs only in the temporaries, and is stuck exactly where the
      original is. */
  lemma {:induction false} MinAbsExec(s: Stmt, n: nat, st1: Store, st2: Store, f: nat, ext: Ext)
    requires Avoids(StmtNames(s), TempPrefix) && Agree(st1, st2, TempPrefix)
    ensures Simulates(Exec(s, st1, f, ext), Exec(MinAbsStmt(s, n).code, st2, f, ext), TempPrefix)
    decreases f, s, 1
  {
    match s
    case ExprStmt(e) =>
      MinAbsValue(e, n, st1, st2, ext);
    case VarDecl(ty, x, init) =>
      assert x in StmtNames(s);
      VarDeclExec(ty, x, init, n, st1, st2, f, ext);
    case Block(ss) =>
      MinAbsBlockExec(ss, n, st1, st2, f, ext);
    case If(c, t, e) =>
      IfExec(c, t, e, n, st1, st2, f, ext);
    case For(init, test, next, body) =>
      ForExec(init, test, next, body, n, st1, st2, f, ext);
    case While(c, body) =>
      var c' := MinAbsExpr(c, n);
      LoopSim(Some(c), None, body, n, c'.next, c'.next, st1, st2, f, ext);
    case Do(body, c) =>
      DoExec(body, c, n, st1, st2, f, ext);
    case Break =>
    case Continue =>
  }

  lemma VarDeclExec(ty: Type, x: string, init: Option<Expr>, n: nat, st1: Store, st2: Store, f: nat, ext: Ext)
    requires !(TempPrefix <= x) && Avoids(OptionNames(init), TempPrefix) && Agree(st1, st2, TempPrefix)
    ensures Simulates(Exec(VarDecl(ty, x, init), st1, f, ext), Exec(MinAbsStmt(VarDecl(ty, x, init), n).code, st2, f, ext), TempPrefix)
  {
    if init.Some? {
      var e' := MinAbsExpr(init.value, n).code;
      assert MinAbsStmt(VarDecl(ty, x, init), n).code == VarDecl(ty, x, Some(e'));
      MinAbsValue(init.value, n, st1, st2, ext);
      var r1, r2 := Eval(init.value, st1, ext), Eval(e', st2, ext);
      if r1.Some? {
        AgreeUpdate(r1.value.store, r2.value.store, TempPrefix, x, r1.value.value);
      }
    } else {
      AgreeRemove(st1, st2, TempPrefix, x);
    }
  }

  lemma {:induction false} IfExec(c: Expr, t: Stmt, e: Stmt, n: nat, st1: Store, st2: Store, f: nat, ext: Ext)
    requires Avoids(StmtNames(If(c, t, e)), TempPrefix) && Agree(st1, st2, TempPrefix)
    ensures Simulates(Exec(If(c, t, e), st1, f, ext), Exec(MinAbsStmt(If(c, t, e), n).code, st2, f, ext), TempPrefix)
    decreases f, If(c, t, e), 0
  {
    var c' := MinAbsExpr(c, n);
    var t' := MinAbsStmt(t, c'.next);
    var e' := MinAbsStmt(e, t'.next);
    assert MinAbsStmt(If(c, t, e), n).code == If(c'.code, t'.code, e'.code);
    MinAbsValue(c, n, st1, st2, ext);
    var r1, r2 := Eval(c, st1, ext), Eval(c'.code, st2, ext);
    if r1.Some? && r1.value.value.BoolV? {
      if r1.value.value.b {
        MinAbsExec(t, c'.next, r1.value.store, r2.value.store, f, ext);
      } else {
        MinAbsExec(e, t'.next, r1.value.store, r2.value.store, f, ext);
      }
    }
  }

  lemma {:induction false} ForExec(init: Stmt, test: Option<Expr>, next: Option<Expr>, body: Stmt, n: nat, st1: Store, st2: Store, f: nat, ext: Ext)
    requires Avoids(StmtNames(For(init, test, next, body)), TempPrefix) && Agree(st1, st2, TempPrefix)
    ensures Simulates(Exec(For(init, test, next, body), st1, f, ext), Exec(MinAbsStmt(For(init, test, next, body), n).code, st2, f, ext), TempPrefix)
    decreases f, For(init, test, next, body), 0
  {
    var i' := MinAbsStmt(init, n);
    var t' := MinAbsOpt(test, i'.next);
    var n' := MinAbsOpt(next, t'.next);
    var b' := MinAbsStmt(body, n'.next);
    assert MinAbsStmt(For(init, test, next, body), n).code == For(i'.code, t'.code, n'.code, b'.code);
    MinAbsExec(init, n, st1, st2, f, ext);
    var o1, o2 := Exec(init, st1, f, ext), Exec(i'.code, st2, f, ext);
    if o1.Normal? {
      LoopSim(test, next, body, i'.next, t'.next, n'.next, o1.store, o2.store, f, ext);
    }
  }

  lemma {:induction false} DoExec(body: Stmt, c: Expr, n: nat, st1: Store, st2: Store, f: nat, ext: Ext)
    requires Avoids(StmtNames(Do(body, c)), TempPrefix) && Agree(st1, st2, TempPrefix)
    ensures Simulates(Exec(Do(body, c), st1, f, ext), Exec(MinAbsStmt(Do(body, c), n).code, st2, f, ext), TempPrefix)
    decreases f, Do(body, c), 0
  {
    var b' := MinAbsStmt(body, n);
    var c' := MinAbsExpr(c, b'.next);
    assert MinAbsStmt(Do(body, c), n).code == Do(b'.code, c'.code);
    MinAbsExec(body, n, st1, st2, f, ext);
    var o1, o2 := Exec(body, st1, f, ext), Exec(b'.code, st2, f, ext);
    if o1.Normal? || o1.Continued? {
      LoopSim(Some(c), None, body, b'.next, b'.next, n, o1.store, o2.store, f, ext);
    }
  }

  lemma {:induction false} MinAbsBlockExec(ss: seq<Stmt>, n: nat, st1: Store, st2: Store, f: nat, ext: Ext)
    requires Avoids(BlockNames(ss), TempPrefix) && Agree(st1, st2, TempPrefix)
    ensures Simulates(ExecBlock(ss, st1, f, ext), ExecBlock(MinAbsBlock(ss, n).code, st2, f, ext), TempPrefix)
    decreases f, ss
  {
    if |ss| > 0 {
      var h := MinAbsStmt(ss[0], n);
      var r := MinAbsBlock(ss, n);
      assert r.code[0] == h.code && r.code[1..] == MinAbsBlock(ss[1..], h.next).code;
      MinAbsExec(ss[0], n, st1, st2, f, ext);
      var o1, o2 := Exec(ss[0], st1, f, ext), Exec(h.code, st2, f, ext);
      if o1.Normal? {
        MinAbsBlockExec(ss[1..], h.next, o1.store, o2.store, f, ext);
      }
    }
  }

  /** A loop whose test, step and body are rewritten from the given counter
      values. */
  lemma {:induction false} LoopSim(test: Option<Expr>, next: Option<Expr>, body: Stmt, nt: nat, nn: nat, nb: nat,
                                   st1: Store, st2: Store, f: nat, ext: Ext)
    requires Avoids(OptionNames(test), TempPrefix) && Avoids(OptionNames(next), TempPrefix)
    requires Avoids(StmtNames(body), TempPrefix) && Agree(st1, st2, TempPrefix)
    ensures Simulates(Loop(test, next, body, st1, f, ext),
                      Loop(MinAbsOpt(test, nt).code, MinAbsOpt(next, nn).code, MinAbsStmt(body, nb).code, st2, f, ext), TempPrefix)
    decreases f, body, 0
  {
    if f > 0 {
      var test', next' := MinAbsOpt(test, nt).code, MinAbsOpt(next, nn).code;
      var b := MinAbsStmt(body, nb).code;
      TestedValue(test, nt, st1, st2, ext);
      var t1, t2 := Tested(test, st1, ext), Tested(test', st2, ext);
      if t1.Some? && t1.value.value == BoolV(true) {
        MinAbsExec(body, nb, t1.value.store, t2.value.store, f - 1, ext);
        var o1, o2 := Exec(body, t1.value.store, f - 1, ext), Exec(b, t2.value.store, f - 1, ext);
        if o1.Normal? || o1.Continued? {
          LoopNextSim(test, next, body, nt, nn, nb, o1.store, o2.store, f - 1, ext);
        }
      }
      LoopStepSim(test, next, body, test', next', b, st1, st2, f, f, TempPrefix, ext);
    }
  }

  lemma TestedValue(test: Option<Expr>, n: nat, st1: Store, st2: Store, ext: Ext)
    requires Avoids(OptionNames(test), TempPrefix) && Agree(st1, st2, TempPrefix)
    ensures SameResult(Tested(test, st1, ext), Tested(MinAbsOpt(test, n).code, st2, ext), TempPrefix)
  {
    if test.Some? {
      assert MinAbsOpt(test, n).code == Some(MinAbsExpr(test.value, n).code);
      MinAbsValue(test.value, n, st1, st2, ext);
    }
  }

  lemma {:induction false} LoopNextSim(test: Option<Expr>, next: Option<Expr>, body: Stmt, nt: nat, nn: nat, nb: nat,
                                       st1: Store, st2: Store, f: nat, ext: Ext)
    requires Avoids(OptionNames(test), TempPrefix) && Avoids(OptionNames(next), TempPrefix)
    requires Avoids(StmtNames(body), TempPrefix) && Agree(st1, st2, TempPrefix)
    ensures Simulates(LoopNext(test, next, body, st1, f, ext),
                      LoopNext(MinAbsOpt(test, nt).code, MinAbsOpt(next, nn).code, MinAbsStmt(body, nb).code, st2, f, ext), TempPrefix)
    decreases f, body, 1
  {
    var test', next' := MinAbsOpt(test, nt).code, MinAbsOpt(next, nn).code;
    var b := MinAbsStmt(body, nb).code;
    if next.Some? {
      var e' := MinAbsExpr(next.value, nn).code;
      assert next' == Some(e');
      MinAbsValue(next.value, nn, st1, st2, ext);
      var r1, r2 := Eval(next.value, st1, ext), Eval(e', st2, ext);
      if r1.Some? {
        LoopSim(test, next, body, nt, nn, nb, r1.value.store, r2.value.store, f, ext);
      }
    } else {
      LoopSim(test, next, body, nt, nn, nb, st1, st2, f, ext);
    }
    LoopNextStepSim(test, next, body, test', next', b, st1, st2, f, f, TempPrefix, ext);
  }

  lemma MinAbsOptDecls(e: Option<Expr>, n: nat)
    ensures TempDecls(MinAbsOpt(e, n).decls)
  {
    if e.Some? {
      MinAbsDecls(e.value, n);
    }
  }

  lemma {:induction false} MinAbsStmtDecls(s: Stmt, n: nat)
    ensures TempDecls(MinAbsStmt(s, n).decls)
    decreases s
  {
    match s
    case ExprStmt(e) => MinAbsDecls(e, n);
    case VarDecl(_, _, init) => MinAbsOptDecls(init, n);
    case Block(ss) => MinAbsBlockDecls(ss, n);
    case If(c, t, f) =>
      var c' := MinAbsExpr(c, n);
      MinAbsDecls(c, n);
      MinAbsStmtDecls(t, c'.next);
      MinAbsStmtDecls(f, MinAbsStmt(t, c'.next).next);
    case For(init, test, next, body) =>
      var i' := MinAbsStmt(init, n);
      var t' := MinAbsOpt(test, i'.next);
      MinAbsStmtDecls(init, n);
      MinAbsOptDecls(test, i'.next);
      MinAbsOptDecls(next, t'.next);
      MinAbsStmtDecls(body, MinAbsOpt(next, t'.next).next);
    case While(c, body) =>
      MinAbsDecls(c, n);
      MinAbsStmtDecls(body, MinAbsExpr(c, n).next);
    case Do(body, c) =>
      MinAbsStmtDecls(body, n);
      MinAbsDecls(c, MinAbsStmt(body, n).next);
    case Break =>
    case Continue =>
  }

  lemma {:induction false} MinAbsBlockDecls(ss: seq<Stmt>, n: nat)
    ensures TempDecls(MinAbsBlock(ss, n).decls)
    decreases ss
  {
    if |ss| > 0 {
      MinAbsStmtDecls(ss[0], n);
      MinAbsBlockDecls(ss[1..], MinAbsStmt(ss[0], n).next);
    }
  }

  /** Declaring temporaries without initializer ends normally and only
      forgets their old values. */
  lemma {:induction false} DeclsRun(ds: seq<Stmt>, st: Store, f: nat, ext: Ext)
    requires TempDecls(ds)
    ensures ExecBlock(ds, st, f, ext).Normal?
    ensures Agree(st, ExecBlock(ds, st, f, ext).store, TempPrefix)
    decreases ds
  {
    if |ds| > 0 {
      var st' := st - {ds[0].name};
      assert Exec(ds[0], st, f, ext) == Normal(st');
      assert TempDecls(ds[1..]) by {
        forall i | 0 <= i < |ds[1..]| ensures TempDecl(ds[1..][i]) {
          assert ds[1..][i] == ds[i + 1];
        }
      }
      DeclsRun(ds[1..], st', f, ext);
    }
  }

  lemma AgreeTransitive(st1: Store, st2: Store, st3: Store, prefix: string)
    requires Agree(st1, st2, prefix) && Agree(st2, st3, prefix)
    ensures Agree(st1, st3, prefix)
  {
  }

  /** The theorem for a function body: the declarations run first and change
      nothing the program can see, then the rewritten statements run as the
      originals. */
  lemma MinAbsFunctionExec(body: seq<Stmt>, st1: Store, st2: Store, f: nat, ext: Ext)
    requires Avoids(BlockNames(body), TempPrefix) && Agree(st1, st2, TempPrefix)
    ensures Simulates(ExecBlock(body, st1, f, ext), ExecBlock(MinAbsFunction(body), st2, f, ext), TempPrefix)
  {
    var r := MinAbsBlock(body, 0);
    MinAbsBlockDecls(body, 0);
    ExecBlockAppend(r.decls, r.code, st2, f, ext);
    DeclsRun(r.decls, st2, f, ext);
    var st3 := ExecBlock(r.decls, st2, f, ext).store;
    AgreeTransitive(st1, st2, st3, TempPrefix);
    MinAbsBlockExec(body, 0, st1, st3, f, ext);
  }
}
