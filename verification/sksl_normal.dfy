/** Swizzle normal form: every swizzle in an expression rebuilt bottom-up
    by `MakeSwizzle`, so that the GLSL text never holds a swizzle the
    front end would have simplified. */
module SkslNormal {
  import opened Options
  import opened SkslIr
  import opened SkslEval
  import opened SkslFacts
  import opened SkslSwizzle

  /** Rebuilds every swizzle of `e`, innermost first. */
  function Normalize(e: Expr): (r: Expr)
    ensures TypeOf(r) == TypeOf(e)
    decreases e, 1
  {
    match e
    case Neg(a) => Neg(Normalize(a))
    case Not(a) => Not(Normalize(a))
    case Binary(l, op, rt) => Binary(Normalize(l), op, Normalize(rt))
    case Ternary(c, t, f) => Ternary(Normalize(c), Normalize(t), Normalize(f))
    case Call(fn, args, ty) => Call(fn, NormalizeArgs(args), ty)
    case Construct(ty, args) => Construct(ty, NormalizeArgs(args))
    case Swizzle(b, mask) => MakeSwizzle(Normalize(b), mask)
    case Assign(x, v) => Assign(x, Normalize(v))
    case BoolLit(_) => e
    case IntLit(_) => e
    case FloatLit(_) => e
    case Var(_, _) => e
  }

  function NormalizeArgs(args: seq<Expr>): (r: seq<Expr>)
    ensures |r| == |args|
    decreases args, 2
  {
    if |args| == 0 then [] else [Normalize(args[0])] + NormalizeArgs(args[1..])
  }

  /** Every swizzle in `e` is one `MakeSwizzle` leaves as it is. */
  predicate Normal(e: Expr)
    decreases e, 1
  {
    match e
    case Neg(a) => Normal(a)
    case Not(a) => Normal(a)
    case Binary(l, _, r) => Normal(l) && Normal(r)
    case Ternary(c, t, f) => Normal(c) && Normal(t) && Normal(f)
    case Call(_, args, _) => NormalArgs(args)
    case Construct(_, args) => NormalArgs(args)
    case Swizzle(b, mask) => Normal(b) && MakeSwizzle(b, mask) == e
    case Assign(_, v) => Normal(v)
    case _ => true
  }

  predicate NormalArgs(args: seq<Expr>)
    decreases args, 2
  {
    |args| == 0 || (Normal(args[0]) && NormalArgs(args[1..]))
  }

  lemma {:induction false} LiteralArgsNormal(lits: seq<Component>, k: Kind)
    ensures NormalArgs(LiteralArgs(lits, k))
  {
    if |lits| > 0 {
      var args := LiteralArgs(lits, k);
      assert args[1..] == LiteralArgs(lits[1..], k);
      LiteralArgsNormal(lits[1..], k);
    }
  }

  /** The mask that puts lowered components back in place only reads fields. */
  lemma {:induction false} PositionsAreFields(mask: seq<Component>, fieldsSeen: nat, literalsSeen: nat, fieldCount: nat)
    ensures !HasLiteral(Positions(mask, fieldsSeen, literalsSeen, fieldCount))
    ensures |mask| > 0 ==> HasField(Positions(mask, fieldsSeen, literalsSeen, fieldCount))
  {
    if |mask| > 0 {
      var p := Positions(mask, fieldsSeen, literalsSeen, fieldCount);
      if IsLiteral(mask[0]) {
        assert p[1..] == Positions(mask[1..], fieldsSeen, literalsSeen + 1, fieldCount);
        PositionsAreFields(mask[1..], fieldsSeen, literalsSeen + 1, fieldCount);
      } else {
        assert p[1..] == Positions(mask[1..], fieldsSeen + 1, literalsSeen, fieldCount);
        PositionsAreFields(mask[1..], fieldsSeen + 1, literalsSeen, fieldCount);
      }
    }
  }

  /** The literal lowering of a normal core is normal. */
  lemma LowerLiteralsNormal(core: Expr, mask: seq<Component>, k: Kind)
    requires Normal(core)
    requires HasField(mask) && HasLiteral(mask) && |mask| <= 4
    ensures Normal(LowerLiterals(core, mask, k))
  {
    var args := [core] + LiteralArgs(Literals(mask), k);
    assert args[1..] == LiteralArgs(Literals(mask), k);
    LiteralArgsNormal(Literals(mask), k);
    var ctor := Construct(Type(k, |mask|), args);
    assert Normal(ctor);
    var perm := Permutation(mask);
    if !IsIdentity(perm, |mask|) {
      FieldsOfMask(mask);
      LoweringReproduces([], mask);
      PositionsAreFields(mask, 0, 0, |Fields(mask)|);
      assert Typable(ctor, perm);
      assert MakeSwizzle(ctor, perm) == Swizzle(ctor, perm);
    }
  }

  /** `MakeSwizzle` on a normal base gives a normal expression. */
  lemma {:induction false} MakeSwizzleNormal(base: Expr, mask: seq<Component>)
    requires Normal(base)
    ensures Normal(MakeSwizzle(base, mask))
    decreases base, if HasLiteral(mask) then 1 else 0
  {
    if !Typable(base, mask) {
    } else if base.Swizzle? && FieldsWithin(mask, |base.mask|) {
      MakeSwizzleNormal(base.base, Compose(base.mask, mask));
    } else if !HasField(mask) {
    } else if HasLiteral(mask) {
      FieldsOfMask(mask);
      MakeSwizzleNormal(base, Fields(mask));
      LowerLiteralsNormal(MakeSwizzle(base, Fields(mask)), mask, TypeOf(base).kind);
    } else if TypeOf(base).columns == 1 {
      if |mask| != 1 {
        var args := [base];
        assert args[1..] == [];
        assert NormalArgs(args);
      }
    }
  }

  /** `Normalize` produces the normal form. */
  lemma {:induction false} NormalizeIsNormal(e: Expr)
    ensures Normal(Normalize(e))
    decreases e, 1
  {
    match e
    case Neg(a) => NormalizeIsNormal(a);
    case Not(a) => NormalizeIsNormal(a);
    case Binary(l, _, r) => NormalizeIsNormal(l); NormalizeIsNormal(r);
    case Ternary(c, t, f) => NormalizeIsNormal(c); NormalizeIsNormal(t); NormalizeIsNormal(f);
    case Call(_, args, _) => NormalizeArgsAreNormal(args);
    case Construct(_, args) => NormalizeArgsAreNormal(args);
    case Swizzle(b, mask) => NormalizeIsNormal(b); MakeSwizzleNormal(Normalize(b), mask);
    case Assign(_, v) => NormalizeIsNormal(v);
    case BoolLit(_) =>
    case IntLit(_) =>
    case FloatLit(_) =>
    case Var(_, _) =>
  }

  lemma {:induction false} NormalizeArgsAreNormal(args: seq<Expr>)
    ensures NormalArgs(NormalizeArgs(args))
    decreases args, 2
  {
    if |args| > 0 {
      NormalizeIsNormal(args[0]);
      NormalizeArgsAreNormal(args[1..]);
      var r := NormalizeArgs(args);
      assert r[0] == Normalize(args[0]) && r[1..] == NormalizeArgs(args[1..]);
    }
  }

  /** A normal expression is left exactly as it is. */
  lemma {:induction false} NormalIsFixed(e: Expr)
    requires Normal(e)
    ensures Normalize(e) == e
    decreases e, 1
  {
    match e
    case Neg(a) => NormalIsFixed(a);
    case Not(a) => NormalIsFixed(a);
    case Binary(l, _, r) => NormalIsFixed(l); NormalIsFixed(r);
    case Ternary(c, t, f) => NormalIsFixed(c); NormalIsFixed(t); NormalIsFixed(f);
    case Call(_, args, _) => NormalArgsAreFixed(args);
    case Construct(_, args) => NormalArgsAreFixed(args);
    case Swizzle(b, _) => NormalIsFixed(b);
    case Assign(_, v) => NormalIsFixed(v);
    case BoolLit(_) =>
    case IntLit(_) =>
    case FloatLit(_) =>
    case Var(_, _) =>
  }

  lemma {:induction false} NormalArgsAreFixed(args: seq<Expr>)
    requires NormalArgs(args)
    ensures NormalizeArgs(args) == args
    decreases args, 2
  {
    if |args| > 0 {
      NormalIsFixed(args[0]);
      NormalArgsAreFixed(args[1..]);
      assert [args[0]] + args[1..] == args;
    }
  }

  /** Normalizing twice is normalizing once. */
  lemma NormalizeIdempotent(e: Expr)
    ensures Normalize(Normalize(e)) == Normalize(e)
  {
    NormalizeIsNormal(e);
    NormalIsFixed(Normalize(e));
  }

  /** Normalizing keeps the value and the final store of every expression
      that evaluates. */
  lemma {:induction false} NormalizeValue(e: Expr, st: Store, ext: Ext)
    requires Eval(e, st, ext).Some?
    ensures Eval(Normalize(e), st, ext) == Eval(e, st, ext)
    decreases e, 1
  {
    match e
    case Neg(a) => NormalizeValue(a, st, ext);
    case Not(a) => NormalizeValue(a, st, ext);
    case Binary(l, op, r) =>
      NormalizeValue(l, st, ext);
      var rl := Eval(l, st, ext).value;
      if Eval(r, rl.store, ext).Some? {
        NormalizeValue(r, rl.store, ext);
      }
      BinaryEq(l, op, r, Normalize(l), Normalize(r), st, ext);
    case Ternary(c, t, f) =>
      NormalizeValue(c, st, ext);
      var rc := Eval(c, st, ext).value;
      if rc.value.b {
        NormalizeValue(t, rc.store, ext);
      } else {
        NormalizeValue(f, rc.store, ext);
      }
      TernaryEq(c, t, f, Normalize(c), Normalize(t), Normalize(f), st, ext);
    case Call(_, args, _) => NormalizeArgsValue(args, st, ext);
    case Construct(_, args) => NormalizeArgsValue(args, st, ext);
    case Swizzle(b, mask) => NormalizeSwizzleValue(b, mask, st, ext);
    case Assign(_, v) => NormalizeValue(v, st, ext);
    case BoolLit(_) =>
    case IntLit(_) =>
    case FloatLit(_) =>
    case Var(_, _) =>
  }

  lemma {:induction false} NormalizeSwizzleValue(b: Expr, mask: seq<Component>, st: Store, ext: Ext)
    requires Eval(Swizzle(b, mask), st, ext).Some?
    ensures Eval(MakeSwizzle(Normalize(b), mask), st, ext) == Eval(Swizzle(b, mask), st, ext)
    decreases Swizzle(b, mask), 0
  {
    NormalizeValue(b, st, ext);
    assert Eval(Swizzle(Normalize(b), mask), st, ext) == Eval(Swizzle(b, mask), st, ext);
    MakeSwizzleValue(Normalize(b), mask, st, ext);
  }

  lemma {:induction false} NormalizeArgsValue(args: seq<Expr>, st: Store, ext: Ext)
    requires EvalArgs(args, st, ext).Some?
    ensures EvalArgs(NormalizeArgs(args), st, ext) == EvalArgs(args, st, ext)
    decreases args, 2
  {
    if |args| > 0 {
      NormalizeValue(args[0], st, ext);
      NormalizeArgsValue(args[1..], Eval(args[0], st, ext).value.store, ext);
      var r := NormalizeArgs(args);
      assert r[0] == Normalize(args[0]) && r[1..] == NormalizeArgs(args[1..]);
    }
  }
}
