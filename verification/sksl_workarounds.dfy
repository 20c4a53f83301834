/** The expression rewrites the GLSL generator applies when a driver
    workaround is switched on. Each rule rewrites one node; the generator
    applies it to every node of the program (module SkslRewrite). */
module SkslWorkarounds {
  import opened Options
  import opened SkslIr
  import opened SkslEval
  import opened SkslFacts
  import opened SkslRewrite

  /* ----- Unfolding short-circuit operators into conditionals ----- */

  /** `a && b` becomes `a ? b : false` and `a || b` becomes `a ? true : b`. */
  function UnfoldRoot(e: Expr): Expr {
    match e
    case Binary(l, And, r) => Ternary(l, r, BoolLit(false))
    case Binary(l, Or, r) => Ternary(l, BoolLit(true), r)
    case _ => e
  }

  function UnfoldShortCircuit(e: Expr): Expr {
    Everywhere(UnfoldRoot, e)
  }

  /** No `&&` or `||` anywhere in `e`. */
  predicate NoShortCircuit(e: Expr)
    decreases e, 1
  {
    match e
    case Neg(a) => NoShortCircuit(a)
    case Not(a) => NoShortCircuit(a)
    case Binary(l, op, r) => !op.And? && !op.Or? && NoShortCircuit(l) && NoShortCircuit(r)
    case Ternary(c, t, f) => NoShortCircuit(c) && NoShortCircuit(t) && NoShortCircuit(f)
    case Call(_, args, _) => NoShortCircuitArgs(args)
    case Construct(_, args) => NoShortCircuitArgs(args)
    case Swizzle(b, _) => NoShortCircuit(b)
    case Assign(_, v) => NoShortCircuit(v)
    case _ => true
  }

  predicate NoShortCircuitArgs(args: seq<Expr>)
    decreases args, 2
  {
    |args| == 0 || (NoShortCircuit(args[0]) && NoShortCircuitArgs(args[1..]))
  }

  lemma UnfoldAndValue(l: Expr, r: Expr, st: Store, ext: Ext)
    requires Eval(Binary(l, And, r), st, ext).Some?
    ensures Eval(Ternary(l, r, BoolLit(false)), st, ext) == Eval(Binary(l, And, r), st, ext)
  {
    var rl := Eval(l, st, ext).value;
    assert Eval(BoolLit(false), rl.store, ext) == Some(Evaluated(BoolV(false), rl.store));
  }

  lemma UnfoldOrValue(l: Expr, r: Expr, st: Store, ext: Ext)
    requires Eval(Binary(l, Or, r), st, ext).Some?
    ensures Eval(Ternary(l, BoolLit(true), r), st, ext) == Eval(Binary(l, Or, r), st, ext)
  {
    var rl := Eval(l, st, ext).value;
    assert Eval(BoolLit(true), rl.store, ext) == Some(Evaluated(BoolV(true), rl.store));
  }

  lemma UnfoldRootType()
    ensures KeepsType(UnfoldRoot)
  {
  }

  /** The conditional form evaluates exactly like the operator it replaces:
      the right operand only when the left one does not decide the result. */
  lemma UnfoldRootKeeps(ext: Ext)
    ensures KeepsValue(UnfoldRoot, ext) && KeepsType(UnfoldRoot)
  {
    forall e, st | Eval(e, st, ext).Some?
      ensures Eval(UnfoldRoot(e), st, ext) == Eval(e, st, ext)
    {
      if e.Binary? && e.op.And? {
        UnfoldAndValue(e.left, e.right, st, ext);
      } else if e.Binary? && e.op.Or? {
        UnfoldOrValue(e.left, e.right, st, ext);
      }
    }
    UnfoldRootType();
  }

  /** Unfolding keeps the value and the final store of every expression
      whose evaluation is defined. */
  lemma UnfoldShortCircuitValue(e: Expr, st: Store, ext: Ext)
    requires Eval(e, st, ext).Some?
    ensures Eval(UnfoldShortCircuit(e), st, ext) == Eval(e, st, ext)
  {
    UnfoldRootKeeps(ext);
    EverywhereValue(UnfoldRoot, e, st, ext);
  }

  /** After unfolding no short-circuit operator is left. */
  lemma {:induction false} UnfoldLeavesNone(e: Expr)
    ensures NoShortCircuit(UnfoldShortCircuit(e))
    decreases e, 1
  {
    assert UnfoldShortCircuit(e) == UnfoldRoot(Children(UnfoldRoot, e));
    match e
    case Neg(a) => UnfoldLeavesNone(a);
    case Not(a) => UnfoldLeavesNone(a);
    case Binary(l, _, r) => UnfoldLeavesNone(l); UnfoldLeavesNone(r);
    case Ternary(c, t, f) => UnfoldLeavesNone(c); UnfoldLeavesNone(t); UnfoldLeavesNone(f);
    case Call(_, args, _) => UnfoldArgsLeaveNone(args);
    case Construct(_, args) => UnfoldArgsLeaveNone(args);
    case Swizzle(b, _) => UnfoldLeavesNone(b);
    case Assign(_, v) => UnfoldLeavesNone(v);
    case BoolLit(_) =>
    case IntLit(_) =>
    case FloatLit(_) =>
    case Var(_, _) =>
  }

  lemma {:induction false} UnfoldArgsLeaveNone(args: seq<Expr>)
    ensures NoShortCircuitArgs(EverywhereArgs(UnfoldRoot, args))
    decreases args, 2
  {
    if |args| > 0 {
      UnfoldLeavesNone(args[0]);
      UnfoldArgsLeaveNone(args[1..]);
      var r := EverywhereArgs(UnfoldRoot, args);
      assert r[0] == UnfoldShortCircuit(args[0]) && r[1..] == EverywhereArgs(UnfoldRoot, args[1..]);
    }
  }

  /* ----- Negated second argument of atan ----- */

  /** `atan(y, -e)` becomes `atan(y, -1.0 * e)` for a float operand `e`. */
  function AtanRoot(e: Expr): Expr {
    match e
    case Call(fn, args, ty) =>
      if fn == "atan" && |args| == 2 && args[1].Neg? && TypeOf(args[1].operand).Type?
         && TypeOf(args[1].operand).kind == FloatKind then
        Call(fn, [args[0], Binary(FloatLit(-1.0), Mul, args[1].operand)], ty)
      else e
    case _ => e
  }

  function ForceNegatedAtanParam(e: Expr): Expr {
    Everywhere(AtanRoot, e)
  }

  /** Multiplying a float operand by -1.0 gives what negating it gives. */
  lemma TimesMinusOne(x: Expr, st: Store, ext: Ext)
    requires TypeOf(x).Type? && TypeOf(x).kind == FloatKind
    requires Eval(Neg(x), st, ext).Some?
    ensures Eval(Binary(FloatLit(-1.0), Mul, x), st, ext) == Eval(Neg(x), st, ext)
  {
    var rx := Eval(x, st, ext).value;
    var xs := rx.value.xs;
    assert Eval(FloatLit(-1.0), st, ext) == Some(Evaluated(FloatV([-1.0]), st));
    var prod := seq(|xs|, k requires 0 <= k < |xs| => ApplyReal(Mul, Lane([-1.0], k), Lane(xs, k)));
    assert Arith(Mul, FloatV([-1.0]), FloatV(xs)) == Some(FloatV(prod));
    forall k | 0 <= k < |xs|
      ensures prod[k] == -xs[k]
    {
      assert Lane([-1.0], k) == -1.0;
    }
    assert prod == MapReal(x => -x, xs);
  }

  lemma AtanArgsValue(y: Expr, x: Expr, st: Store, ext: Ext)
    requires TypeOf(x).Type? && TypeOf(x).kind == FloatKind
    requires EvalArgs([y, Neg(x)], st, ext).Some?
    ensures EvalArgs([y, Binary(FloatLit(-1.0), Mul, x)], st, ext) == EvalArgs([y, Neg(x)], st, ext)
  {
    var args := [y, Neg(x)];
    assert args[0] == y && args[1..] == [Neg(x)] && [Neg(x)][1..] == [];
    var r0 := Eval(y, st, ext).value;
    assert EvalArgs(args[1..], r0.store, ext).Some?;
    TimesMinusOne(x, r0.store, ext);
    var m := Binary(FloatLit(-1.0), Mul, x);
    var args' := [y, m];
    assert args'[0] == y && args'[1..] == [m] && [m][1..] == [];
  }

  lemma AtanCallValue(y: Expr, x: Expr, ty: Type, st: Store, ext: Ext)
    requires TypeOf(x).Type? && TypeOf(x).kind == FloatKind
    requires Eval(Call("atan", [y, Neg(x)], ty), st, ext).Some?
    ensures Eval(Call("atan", [y, Binary(FloatLit(-1.0), Mul, x)], ty), st, ext) == Eval(Call("atan", [y, Neg(x)], ty), st, ext)
  {
    AtanArgsValue(y, x, st, ext);
  }

  lemma AtanRootKeeps(ext: Ext)
    ensures KeepsValue(AtanRoot, ext) && KeepsType(AtanRoot)
  {
    forall e, st | Eval(e, st, ext).Some?
      ensures Eval(AtanRoot(e), st, ext) == Eval(e, st, ext)
    {
      if AtanRoot(e) != e {
        var y, x := e.args[0], e.args[1].operand;
        assert e == Call("atan", [y, Neg(x)], e.ty);
        AtanCallValue(y, x, e.ty, st, ext);
      }
    }
  }

  /** The rewrite keeps the value of every expression whose evaluation is defined. */
  lemma ForceNegatedAtanParamValue(e: Expr, st: Store, ext: Ext)
    requires Eval(e, st, ext).Some?
    ensures Eval(ForceNegatedAtanParam(e), st, ext) == Eval(e, st, ext)
  {
    AtanRootKeeps(ext);
    EverywhereValue(AtanRoot, e, st, ext);
  }

  /* ----- Integer abs through a helper function ----- */

  const AbsHelper := "_absemulation"

  /** `abs(x)` on an int `x` becomes a call of the helper `_absemulation`,
      whose body is `x * sign(x)`. */
  function AbsIntRoot(e: Expr): Expr {
    match e
    case Call(fn, args, ty) =>
      if fn == "abs" && |args| == 1 && TypeOf(args[0]) == IntType then Call(AbsHelper, args, ty) else e
    case _ => e
  }

  function EmulateAbsInt(e: Expr): Expr {
    Everywhere(AbsIntRoot, e)
  }

  /** `x * sign(x)` is `|x|`. */
  lemma TimesSignIsAbs(i: int)
    ensures i * IntSign(i) == IntAbs(i)
  {
  }

  lemma AbsIntRootKeeps(ext: Ext)
    ensures KeepsValue(AbsIntRoot, ext) && KeepsType(AbsIntRoot)
  {
    forall e, st | Eval(e, st, ext).Some?
      ensures Eval(AbsIntRoot(e), st, ext) == Eval(e, st, ext)
    {
      if AbsIntRoot(e) != e {
        assert EvalArgs(e.args, st, ext).Some?;
        var ra := EvalArgs(e.args, st, ext).value;
        var x := e.args[0];
        assert e.args[1..] == [];
        assert Eval(x, st, ext).Some?;
        assert EvalArgs([], Eval(x, st, ext).value.store, ext).value.values == [];
        assert ra.values == [Eval(x, st, ext).value.value];
        TimesSignIsAbs(ra.values[0].i);
      }
    }
  }

  lemma EmulateAbsIntValue(e: Expr, st: Store, ext: Ext)
    requires Eval(e, st, ext).Some?
    ensures Eval(EmulateAbsInt(e), st, ext) == Eval(e, st, ext)
  {
    AbsIntRootKeeps(ext);
    EverywhereValue(AbsIntRoot, e, st, ext);
  }

  /* ----- Scalar evaluation steps used by the numeric rewrites ----- */

  /** The built-in one-argument float functions the rewrites emit. */
  function UnaryReal(fn: string, v: real): real {
    if fn == "abs" then RealAbs(v) else if fn == "sign" then RealSign(v) else Fract(v)
  }

  lemma CallScalar(fn: string, x: Expr, st: Store, ext: Ext, v: real, st1: Store)
    requires fn == "abs" || fn == "sign" || fn == "fract"
    requires Eval(x, st, ext) == Some(Evaluated(FloatV([v]), st1))
    ensures Eval(Call(fn, [x], FloatType), st, ext) == Some(Evaluated(FloatV([UnaryReal(fn, v)]), st1))
  {
    var args := [x];
    assert args[0] == x && args[1..] == [];
    assert EvalArgs([], st1, ext) == Some(EvaluatedArgs([], st1));
    assert [FloatV([v])] + [] == [FloatV([v])];
    assert EvalArgs(args, st, ext) == Some(EvaluatedArgs([FloatV([v])], st1));
    assert MapReal(RealAbs, [v]) == [RealAbs(v)];
    assert MapReal(RealSign, [v]) == [RealSign(v)];
    assert MapReal(Fract, [v]) == [Fract(v)];
  }

  lemma BinaryScalar(l: Expr, op: BinOp, r: Expr, st: Store, ext: Ext, a: real, st1: Store, b: real, st2: Store)
    requires op.Add? || op.Sub? || op.Mul?
    requires TypeOf(l) == FloatType && TypeOf(r) == FloatType
    requires Eval(l, st, ext) == Some(Evaluated(FloatV([a]), st1))
    requires Eval(r, st1, ext) == Some(Evaluated(FloatV([b]), st2))
    ensures TypeOf(Binary(l, op, r)) == FloatType
    ensures Eval(Binary(l, op, r), st, ext) == Some(Evaluated(FloatV([ApplyReal(op, a, b)]), st2))
  {
    var n := 1;
    var lanes := seq(n, k requires 0 <= k < n => ApplyReal(op, Lane([a], k), Lane([b], k)));
    assert lanes == [ApplyReal(op, a, b)];
    assert Arith(op, FloatV([a]), FloatV([b])) == Some(FloatV(lanes));
  }

  lemma LessScalar(l: Expr, r: Expr, st: Store, ext: Ext, a: real, st1: Store, b: real, st2: Store)
    requires Eval(l, st, ext) == Some(Evaluated(FloatV([a]), st1))
    requires Eval(r, st1, ext) == Some(Evaluated(FloatV([b]), st2))
    ensures Eval(Binary(l, Less, r), st, ext) == Some(Evaluated(BoolV(a < b), st2))
  {
    assert Arith(Less, FloatV([a]), FloatV([b])) == Some(BoolV(a < b));
  }

  /** A conditional whose test evaluates to `b` runs the branch `b` picks. */
  lemma TernaryPick(c: Expr, t: Expr, f: Expr, st: Store, ext: Ext, b: bool, st1: Store)
    requires TypeOf(c) == BoolType && TypeOf(t) == TypeOf(f)
    requires Eval(c, st, ext) == Some(Evaluated(BoolV(b), st1))
    ensures Eval(Ternary(c, t, f), st, ext) == (if b then Eval(t, st1, ext) else Eval(f, st1, ext))
  {
  }

  lemma LiteralScalar(x: real, st: Store, ext: Ext)
    ensures Eval(FloatLit(x), st, ext) == Some(Evaluated(FloatV([x]), st))
  {
  }

  /* ----- fract of negative values ----- */

  /** The rewrite as the generator emits it: `fract(x)` becomes
      `0.5 - sign(x) * (0.5 - fract(abs(x)))`. */
  function FractAsWrittenRoot(e: Expr): Expr {
    match e
    case Call(fn, args, ty) =>
      if fn == "fract" && |args| == 1 then
        var x := args[0];
        Binary(FloatLit(0.5), Sub, Binary(Call("sign", [x], ty), Mul, Binary(FloatLit(0.5), Sub, Call("fract", [Call("abs", [x], ty)], ty))))
      else e
    case _ => e
  }

  /** What the emitted formula computes for a scalar `v`. */
  function FractAsWrittenAt(v: real): real {
    0.5 - RealSign(v) * (0.5 - Fract(RealAbs(v)))
  }

  /** `0.5 - fract(abs(x))` on a pure scalar operand. */
  lemma HalfMinusFractAbs(x: Expr, st: Store, ext: Ext, v: real)
    requires TypeOf(x) == FloatType
    requires Eval(x, st, ext) == Some(Evaluated(FloatV([v]), st))
    ensures Eval(Binary(FloatLit(0.5), Sub, Call("fract", [Call("abs", [x], FloatType)], FloatType)), st, ext)
         == Some(Evaluated(FloatV([0.5 - Fract(RealAbs(v))]), st))
  {
    CallScalar("abs", x, st, ext, v, st);
    var ax := Call("abs", [x], FloatType);
    CallScalar("fract", ax, st, ext, RealAbs(v), st);
    LiteralScalar(0.5, st, ext);
    BinaryScalar(FloatLit(0.5), Sub, Call("fract", [ax], FloatType), st, ext, 0.5, st, Fract(RealAbs(v)), st);
  }

  /** `sign(x) * (0.5 - fract(abs(x)))` on a pure scalar operand. */
  lemma SignTimesHalfMinus(x: Expr, st: Store, ext: Ext, v: real)
    requires TypeOf(x) == FloatType
    requires Eval(x, st, ext) == Some(Evaluated(FloatV([v]), st))
    ensures Eval(Binary(Call("sign", [x], FloatType), Mul, Binary(FloatLit(0.5), Sub, Call("fract", [Call("abs", [x], FloatType)], FloatType))), st, ext)
         == Some(Evaluated(FloatV([ApplyReal(Mul, RealSign(v), 0.5 - Fract(RealAbs(v)))]), st))
    ensures TypeOf(Binary(Call("sign", [x], FloatType), Mul, Binary(FloatLit(0.5), Sub, Call("fract", [Call("abs", [x], FloatType)], FloatType)))) == FloatType
  {
    var d := Binary(FloatLit(0.5), Sub, Call("fract", [Call("abs", [x], FloatType)], FloatType));
    HalfMinusFractAbs(x, st, ext, v);
    CallScalar("sign", x, st, ext, v, st);
    BinaryScalar(Call("sign", [x], FloatType), Mul, d, st, ext, RealSign(v), st, 0.5 - Fract(RealAbs(v)), st);
  }

  lemma FractAsWrittenShape(x: Expr)
    ensures FractAsWrittenRoot(Call("fract", [x], FloatType))
         == Binary(FloatLit(0.5), Sub, Binary(Call("sign", [x], FloatType), Mul, Binary(FloatLit(0.5), Sub, Call("fract", [Call("abs", [x], FloatType)], FloatType))))
  {
  }

  /** `0.5 - m` on a scalar operand that evaluates to `p`. */
  lemma HalfMinus(m: Expr, st: Store, ext: Ext, p: real)
    requires TypeOf(m) == FloatType
    requires Eval(m, st, ext) == Some(Evaluated(FloatV([p]), st))
    ensures Eval(Binary(FloatLit(0.5), Sub, m), st, ext) == Some(Evaluated(FloatV([0.5 - p]), st))
  {
    LiteralScalar(0.5, st, ext);
    BinaryScalar(FloatLit(0.5), Sub, m, st, ext, 0.5, st, p, st);
  }

  lemma FractAsWrittenAtSteps(v: real)
    ensures FractAsWrittenAt(v) == 0.5 - ApplyReal(Mul, RealSign(v), 0.5 - Fract(RealAbs(v)))
  {
  }

  /** The outer `0.5 - m` of the formula, `m` being the signed part. */
  lemma HalfMinusAt(m: Expr, st: Store, ext: Ext, v: real)
    requires TypeOf(m) == FloatType
    requires Eval(m, st, ext) == Some(Evaluated(FloatV([ApplyReal(Mul, RealSign(v), 0.5 - Fract(RealAbs(v)))]), st))
    ensures Eval(Binary(FloatLit(0.5), Sub, m), st, ext) == Some(Evaluated(FloatV([FractAsWrittenAt(v)]), st))
  {
    HalfMinus(m, st, ext, ApplyReal(Mul, RealSign(v), 0.5 - Fract(RealAbs(v))));
    FractAsWrittenAtSteps(v);
  }

  /** On a pure scalar operand the emitted formula evaluates to
      `FractAsWrittenAt` of the operand. */
  lemma FractAsWrittenValue(x: Expr, st: Store, ext: Ext, v: real)
    requires TypeOf(x) == FloatType
    requires Eval(x, st, ext) == Some(Evaluated(FloatV([v]), st))
    ensures Eval(FractAsWrittenRoot(Call("fract", [x], FloatType)), st, ext) == Some(Evaluated(FloatV([FractAsWrittenAt(v)]), st))
  {
    var m := Binary(Call("sign", [x], FloatType), Mul, Binary(FloatLit(0.5), Sub, Call("fract", [Call("abs", [x], FloatType)], FloatType)));
    SignTimesHalfMinus(x, st, ext, v);
    HalfMinusAt(m, st, ext, v);
    FractAsWrittenShape(x);
  }

  /** The emitted formula agrees with fract exactly away from zero and the
      negative whole numbers. */
  lemma FractAsWrittenAgreesExactly(v: real)
    ensures FractAsWrittenAt(v) == Fract(v) <==> !(v <= 0.0 && v == v.Floor as real)
  {
    if v < 0.0 {
      var n := v.Floor;
      var w := -v;
      if v == n as real {
        assert w.Floor == -n;
      } else {
        assert w.Floor == -n - 1;
      }
    }
  }

  /** At the golden input -42.0 the formula gives 1.0 where fract gives 0.0,
      and at 0.0 it gives 0.5. */
  lemma FractAsWrittenCounterexample()
    ensures Fract(-42.0) == 0.0 && FractAsWrittenAt(-42.0) == 1.0
    ensures Fract(0.0) == 0.0 && FractAsWrittenAt(0.0) == 0.5
  {
    assert (-42.0).Floor == -42;
    assert (42.0).Floor == 42;
    assert (0.0).Floor == 0;
  }

  /** The corrected rewrite: for a negative scalar, fract(x) is
      fract(1.0 - fract(-x)); fract only ever sees a non-negative value. */
  function FractRoot(e: Expr): Expr {
    match e
    case Call(fn, args, ty) =>
      if fn == "fract" && |args| == 1 && ty == FloatType && TypeOf(args[0]) == FloatType then
        var x := args[0];
        Ternary(Binary(x, Less, FloatLit(0.0)),
                Call("fract", [Binary(FloatLit(1.0), Sub, Call("fract", [Neg(x)], ty))], ty),
                Call("fract", [x], ty))
      else e
    case _ => e
  }

  /** For a negative value both fract arguments are positive and the result
      is fract of the value. */
  lemma FractOfNegative(v: real)
    requires v < 0.0
    ensures -v > 0.0 && 1.0 - Fract(-v) > 0.0
    ensures Fract(1.0 - Fract(-v)) == Fract(v)
  {
    var n := v.Floor;
    var w := -v;
    if v == n as real {
      assert w.Floor == -n;
      assert (1.0).Floor == 1;
    } else {
      assert w.Floor == -n - 1;
      assert (1.0 - Fract(w)).Floor == 0;
    }
  }

  lemma NegScalar(x: Expr, st: Store, ext: Ext, v: real)
    requires TypeOf(x) == FloatType
    requires Eval(x, st, ext) == Some(Evaluated(FloatV([v]), st))
    ensures Eval(Neg(x), st, ext) == Some(Evaluated(FloatV([-v]), st))
  {
    assert MapReal(y => -y, [v]) == [-v];
  }

  /** `fract(-x)` on a pure scalar operand. */
  lemma FractNegValue(x: Expr, st: Store, ext: Ext, v: real)
    requires TypeOf(x) == FloatType
    requires Eval(x, st, ext) == Some(Evaluated(FloatV([v]), st))
    ensures Eval(Call("fract", [Neg(x)], FloatType), st, ext) == Some(Evaluated(FloatV([Fract(-v)]), st))
  {
    NegScalar(x, st, ext, v);
    CallScalar("fract", Neg(x), st, ext, -v, st);
  }

  /** `1.0 - fract(-x)` on a pure scalar operand. */
  lemma OneMinusFractNeg(x: Expr, st: Store, ext: Ext, v: real)
    requires TypeOf(x) == FloatType
    requires Eval(x, st, ext) == Some(Evaluated(FloatV([v]), st))
    ensures Eval(Binary(FloatLit(1.0), Sub, Call("fract", [Neg(x)], FloatType)), st, ext)
         == Some(Evaluated(FloatV([1.0 - Fract(-v)]), st))
  {
    FractNegValue(x, st, ext, v);
    LiteralScalar(1.0, st, ext);
    BinaryScalar(FloatLit(1.0), Sub, Call("fract", [Neg(x)], FloatType), st, ext, 1.0, st, Fract(-v), st);
  }

  /** `fract(1.0 - fract(-x))` on a pure negative scalar operand. */
  lemma FractOfNegativeValue(x: Expr, st: Store, ext: Ext, v: real)
    requires TypeOf(x) == FloatType && v < 0.0
    requires Eval(x, st, ext) == Some(Evaluated(FloatV([v]), st))
    ensures Eval(Call("fract", [Binary(FloatLit(1.0), Sub, Call("fract", [Neg(x)], FloatType))], FloatType), st, ext)
         == Some(Evaluated(FloatV([Fract(v)]), st))
  {
    OneMinusFractNeg(x, st, ext, v);
    CallScalar("fract", Binary(FloatLit(1.0), Sub, Call("fract", [Neg(x)], FloatType)), st, ext, 1.0 - Fract(-v), st);
    FractOfNegative(v);
  }

  /** The corrected rewrite keeps the value of `fract(x)` for a pure scalar `x`. */
  lemma FractValue(x: Expr, st: Store, ext: Ext, v: real)
    requires TypeOf(x) == FloatType
    requires Eval(x, st, ext) == Some(Evaluated(FloatV([v]), st))
    ensures Eval(FractRoot(Call("fract", [x], FloatType)), st, ext) == Some(Evaluated(FloatV([Fract(v)]), st))
    ensures Eval(Call("fract", [x], FloatType), st, ext) == Some(Evaluated(FloatV([Fract(v)]), st))
  {
    CallScalar("fract", x, st, ext, v, st);
    LiteralScalar(0.0, st, ext);
    var test := Binary(x, Less, FloatLit(0.0));
    LessScalar(x, FloatLit(0.0), st, ext, v, st, 0.0, st);
    var neg := Call("fract", [Binary(FloatLit(1.0), Sub, Call("fract", [Neg(x)], FloatType))], FloatType);
    var r := Ternary(test, neg, Call("fract", [x], FloatType));
    assert FractRoot(Call("fract", [x], FloatType)) == r;
    TernaryPick(test, neg, Call("fract", [x], FloatType), st, ext, v < 0.0, st);
    if v < 0.0 {
      FractOfNegativeValue(x, st, ext, v);
    }
  }

  /* ----- pow through exp2 and log2 ----- */

  /** `pow(b, e)` becomes `exp2(e * log2(b))`; the exponent is now evaluated
      before the base. */
  function PowRoot(e: Expr): Expr {
    match e
    case Call(fn, args, ty) =>
      if fn == "pow" && |args| == 2 then
        Call("exp2", [Binary(args[1], Mul, Call("log2", [args[0]], TypeOf(args[0])))], ty)
      else e
    case _ => e
  }

  function RemovePow(e: Expr): Expr {
    Everywhere(PowRoot, e)
  }

  /** What `exp2(v * log2(u))` gives, with log2 and exp2 as the platform
      defines them. */
  function PowByLogs(ext: Ext, u: real, v: real): Option<Value> {
    match ext("log2", [FloatV([u])])
    case Some(FloatV(ls)) => if |ls| == 1 then ext("exp2", [FloatV([ApplyReal(Mul, v, ls[0])])]) else None
    case _ => None
  }

  /** The platform's scalar pow agrees with exp2 and log2: pow(u, v) is
      exp2(v * log2(u)). This is the identity the workaround relies on. */
  ghost predicate PowIdentity(ext: Ext) {
    forall u: real, v: real :: ext("pow", [FloatV([u]), FloatV([v])]) == PowByLogs(ext, u, v)
  }

  /** A scalar operand that assigns nothing evaluates to one lane and
      leaves the store as it was. */
  lemma PureScalar(a: Expr, st: Store, ext: Ext) returns (u: real)
    requires Pure(a) && TypeOf(a) == FloatType
    requires Eval(a, st, ext).Some?
    ensures Eval(a, st, ext) == Some(Evaluated(FloatV([u]), st))
  {
    EvalPure(a, st, ext);
    var xs := Eval(a, st, ext).value.value.xs;
    u := xs[0];
    assert xs == [u];
  }

  /** The value a result of the platform functions takes at a given type. */
  function Typed(r: Option<Value>, ty: Type, st: Store): Option<Evaluated> {
    match r
    case Some(w) => if HasType(w, ty) then Some(Evaluated(w, st)) else None
    case None => None
  }

  /** A function the model does not define is the platform's. */
  lemma PlatformCall(fn: string, vals: seq<Value>, ext: Ext)
    requires fn == "log2" || fn == "exp2"
    ensures Intrinsic(fn, vals, ext) == ext(fn, vals)
  {
  }

  lemma PowByLogsDefined(ext: Ext, u: real, v: real, l: real)
    requires ext("log2", [FloatV([u])]) == Some(FloatV([l]))
    ensures PowByLogs(ext, u, v) == ext("exp2", [FloatV([ApplyReal(Mul, v, l)])])
  {
    assert [l][0] == l;
  }

  /** `log2(b)` on a scalar operand that evaluates to `u`. */
  lemma LogValue(b: Expr, st: Store, ext: Ext, u: real)
    requires Eval(b, st, ext) == Some(Evaluated(FloatV([u]), st))
    ensures Eval(Call("log2", [b], FloatType), st, ext) == Typed(ext("log2", [FloatV([u])]), FloatType, st)
  {
    CallOne("log2", b, FloatType, st, ext, FloatV([u]), st);
    PlatformCall("log2", [FloatV([u])], ext);
    var r := ext("log2", [FloatV([u])]);
    assert Intrinsic("log2", [FloatV([u])], ext) == r;
    assert Eval(Call("log2", [b], FloatType), st, ext) == (match r
             case Some(v) => if HasType(v, FloatType) then Some(Evaluated(v, st)) else None
             case None => None);
  }

  /** `exp2(x * log2(b))` when the platform's log2 gives one lane `l`. */
  lemma ExpLogDefined(b: Expr, x: Expr, st: Store, ext: Ext, u: real, v: real, l: real)
    requires TypeOf(b) == FloatType && TypeOf(x) == FloatType
    requires Eval(b, st, ext) == Some(Evaluated(FloatV([u]), st))
    requires Eval(x, st, ext) == Some(Evaluated(FloatV([v]), st))
    requires ext("log2", [FloatV([u])]) == Some(FloatV([l]))
    ensures Eval(Call("exp2", [Binary(x, Mul, Call("log2", [b], FloatType))], FloatType), st, ext) == Typed(PowByLogs(ext, u, v), FloatType, st)
  {
    var call := Call("log2", [b], FloatType);
    LogValue(b, st, ext, u);
    assert Eval(call, st, ext) == Some(Evaluated(FloatV([l]), st));
    BinaryScalar(x, Mul, call, st, ext, v, st, l, st);
    PowByLogsDefined(ext, u, v, l);
    CallOne("exp2", Binary(x, Mul, call), FloatType, st, ext, FloatV([ApplyReal(Mul, v, l)]), st);
    PlatformCall("exp2", [FloatV([ApplyReal(Mul, v, l)])], ext);
  }

  /** `exp2(x * log2(b))` when the platform's log2 gives no scalar. */
  lemma ExpLogUndefined(b: Expr, x: Expr, st: Store, ext: Ext, u: real, v: real)
    requires TypeOf(b) == FloatType
    requires Eval(b, st, ext) == Some(Evaluated(FloatV([u]), st))
    requires Eval(x, st, ext) == Some(Evaluated(FloatV([v]), st))
    requires !(ext("log2", [FloatV([u])]).Some? && ext("log2", [FloatV([u])]).value.FloatV? && |ext("log2", [FloatV([u])]).value.xs| == 1)
    ensures Eval(Call("exp2", [Binary(x, Mul, Call("log2", [b], FloatType))], FloatType), st, ext).None?
  {
    var call := Call("log2", [b], FloatType);
    LogValue(b, st, ext, u);
    assert Eval(call, st, ext).None?;
    assert Eval(Binary(x, Mul, call), st, ext).None?;
    var args := [Binary(x, Mul, call)];
    assert args[0] == Binary(x, Mul, call);
    assert EvalArgs(args, st, ext).None?;
  }

  /** `exp2(x * log2(b))` on scalar operands that evaluate to `v` and `u`. */
  lemma ExpLogValue(b: Expr, x: Expr, st: Store, ext: Ext, u: real, v: real)
    requires TypeOf(b) == FloatType && TypeOf(x) == FloatType
    requires Eval(b, st, ext) == Some(Evaluated(FloatV([u]), st))
    requires Eval(x, st, ext) == Some(Evaluated(FloatV([v]), st))
    ensures Eval(PowRoot(Call("pow", [b, x], FloatType)), st, ext) == Typed(PowByLogs(ext, u, v), FloatType, st)
  {
    assert PowRoot(Call("pow", [b, x], FloatType)) == Call("exp2", [Binary(x, Mul, Call("log2", [b], FloatType))], FloatType);
    var lg := ext("log2", [FloatV([u])]);
    if lg.Some? && lg.value.FloatV? && |lg.value.xs| == 1 {
      var l := lg.value.xs[0];
      assert lg.value == FloatV([l]);
      ExpLogDefined(b, x, st, ext, u, v, l);
    } else {
      ExpLogUndefined(b, x, st, ext, u, v);
    }
  }

  /** On scalar operands that assign nothing, the rewritten call has the
      value of `pow`, given the identity. */
  lemma PowValue(b: Expr, x: Expr, st: Store, ext: Ext)
    requires PowIdentity(ext)
    requires Pure(b) && Pure(x) && TypeOf(b) == FloatType && TypeOf(x) == FloatType
    requires Eval(Call("pow", [b, x], FloatType), st, ext).Some?
    ensures Eval(PowRoot(Call("pow", [b, x], FloatType)), st, ext) == Eval(Call("pow", [b, x], FloatType), st, ext)
  {
    var args := [b, x];
    assert args[0] == b && args[1..] == [x];
    assert Eval(b, st, ext).Some?;
    var u := PureScalar(b, st, ext);
    assert EvalArgs(args[1..], st, ext).Some?;
    assert Eval(x, st, ext).Some?;
    var v := PureScalar(x, st, ext);
    CallTwo("pow", b, x, FloatType, st, ext, FloatV([u]), st, FloatV([v]), st);
    assert ext("pow", [FloatV([u]), FloatV([v])]) == PowByLogs(ext, u, v);
    ExpLogValue(b, x, st, ext, u, v);
  }
}
