/** Swizzle algebra applied when a swizzle is built: nested masks compose,
    identity masks and one-component swizzles of scalars disappear, a
    repeated `x` of a scalar becomes a splat constructor, and a mask with
    the literal selectors 0/1 becomes a constructor followed by at most one
    reordering swizzle. */
module SkslSwizzle {
  import opened Options
  import opened SkslIr
  import opened SkslEval

  predicate IsLiteral(c: Component) { c.Zero? || c.One? }

  predicate HasLiteral(mask: seq<Component>) {
    |mask| > 0 && (IsLiteral(mask[0]) || HasLiteral(mask[1..]))
  }

  predicate HasField(mask: seq<Component>) {
    |mask| > 0 && (mask[0].Field? || HasField(mask[1..]))
  }

  /** The selectors that read the base, in order. */
  function Fields(mask: seq<Component>): (f: seq<Component>)
    ensures |f| <= |mask|
    ensures forall k :: 0 <= k < |f| ==> f[k].Field? && f[k] in mask
  {
    if |mask| == 0 then []
    else if IsLiteral(mask[0]) then Fields(mask[1..])
    else [mask[0]] + Fields(mask[1..])
  }

  /** The literal selectors, in order. */
  function Literals(mask: seq<Component>): (l: seq<Component>)
    ensures |l| <= |mask|
    ensures forall k :: 0 <= k < |l| ==> IsLiteral(l[k])
  {
    if |mask| == 0 then []
    else if IsLiteral(mask[0]) then [mask[0]] + Literals(mask[1..])
    else Literals(mask[1..])
  }

  /** The constructor argument for a literal selector, in the base's scalar kind. */
  function LiteralArg(c: Component, k: Kind): Expr {
    if k == IntKind then IntLit(if c.One? then 1 else 0)
    else FloatLit(if c.One? then 1.0 else 0.0)
  }

  function LiteralArgs(lits: seq<Component>, k: Kind): (args: seq<Expr>)
    ensures |args| == |lits|
    ensures forall j :: 0 <= j < |lits| ==> args[j] == LiteralArg(lits[j], k)
  {
    if |lits| == 0 then [] else [LiteralArg(lits[0], k)] + LiteralArgs(lits[1..], k)
  }

  /** Where each selector lands in the lowered constructor: the base's
      components first (`fieldsSeen` of them passed), then the literals
      (`literalsSeen` passed) after all `fieldCount` base components. */
  function Positions(mask: seq<Component>, fieldsSeen: nat, literalsSeen: nat, fieldCount: nat): (p: seq<Component>)
    ensures |p| == |mask|
  {
    if |mask| == 0 then []
    else if IsLiteral(mask[0]) then [Field(fieldCount + literalsSeen)] + Positions(mask[1..], fieldsSeen, literalsSeen + 1, fieldCount)
    else [Field(fieldsSeen)] + Positions(mask[1..], fieldsSeen + 1, literalsSeen, fieldCount)
  }

  /** The reordering swizzle that follows the lowered constructor. */
  function Permutation(mask: seq<Component>): (p: seq<Component>)
    ensures |p| == |mask|
  {
    Positions(mask, 0, 0, |Fields(mask)|)
  }

  /** `mask` selects components start, start+1, … in order. */
  predicate IdentityFrom(mask: seq<Component>, start: nat) {
    |mask| == 0 || (mask[0] == Field(start) && IdentityFrom(mask[1..], start + 1))
  }

  /** `mask` is `.x`, `.xy`, `.xyz` or `.xyzw` on a base with exactly that many components. */
  predicate IsIdentity(mask: seq<Component>, n: nat) {
    |mask| == n && IdentityFrom(mask, 0)
  }

  /** The mask selecting `mask` from the result of `inner`. */
  function Compose(inner: seq<Component>, mask: seq<Component>): (r: seq<Component>)
    requires FieldsWithin(mask, |inner|)
    ensures |r| == |mask|
    ensures forall j :: 0 <= j < |mask| ==> r[j] == if mask[j].Field? then inner[mask[j].index] else mask[j]
  {
    if |mask| == 0 then []
    else [if mask[0].Field? then inner[mask[0].index] else mask[0]] + Compose(inner, mask[1..])
  }

  /** A swizzle the front end can type: a valid base type, one to four
      selectors, every field within the base. */
  predicate Typable(base: Expr, mask: seq<Component>) {
    TypeOf(base).Type? && 1 <= |mask| <= 4 && FieldsWithin(mask, TypeOf(base).columns)
  }

  /** Builds `base.mask` the way the front end does. Masks it cannot type and
      masks made only of literals are left as written. */
  function MakeSwizzle(base: Expr, mask: seq<Component>): (r: Expr)
    ensures TypeOf(r) == TypeOf(Swizzle(base, mask))
    decreases base, if HasLiteral(mask) then 1 else 0
  {
    if !Typable(base, mask) then Swizzle(base, mask)
    else
      var t := TypeOf(base);
      assert TypeOf(Swizzle(base, mask)) == Type(t.kind, |mask|);
      if base.Swizzle? && FieldsWithin(mask, |base.mask|) then
        assert TypeOf(base.base).Type? && TypeOf(base.base).kind == t.kind;
        MakeSwizzle(base.base, Compose(base.mask, mask))
      else if !HasField(mask) then Swizzle(base, mask)
      else if HasLiteral(mask) then
        FieldsOfMask(mask);
        LowerLiterals(MakeSwizzle(base, Fields(mask)), mask, t.kind)
      else if t.columns == 1 then
        if |mask| == 1 then base else Construct(Type(t.kind, |mask|), [base])
      else if IsIdentity(mask, t.columns) then base
      else Swizzle(base, mask)
  }

  /** `core` holds the field selectors of `mask`; the literal selectors
      become extra constructor arguments of kind `k`, and a final swizzle
      puts every component back in its place unless they already are. */
  function LowerLiterals(core: Expr, mask: seq<Component>, k: Kind): (r: Expr)
    ensures TypeOf(r) == Type(k, |mask|)
  {
    var ctor := Construct(Type(k, |mask|), [core] + LiteralArgs(Literals(mask), k));
    var perm := Permutation(mask);
    if IsIdentity(perm, |mask|) then ctor else Swizzle(ctor, perm)
  }

  /** The non-literal part of a mask is a mask without literals, as long
      as there are fields and shorter when there are literals. */
  lemma {:induction false} FieldsOfMask(mask: seq<Component>)
    ensures HasField(mask) ==> 1 <= |Fields(mask)|
    ensures HasLiteral(mask) ==> |Fields(mask)| < |mask|
    ensures !HasLiteral(Fields(mask))
    ensures forall n :: FieldsWithin(mask, n) ==> FieldsWithin(Fields(mask), n)
  {
    if |mask| > 0 {
      FieldsOfMask(mask[1..]);
      if !IsLiteral(mask[0]) {
        assert ([mask[0]] + Fields(mask[1..]))[1..] == Fields(mask[1..]);
      }
    }
  }

  lemma {:induction false} FieldsAppend(a: seq<Component>, b: seq<Component>)
    ensures Fields(a + b) == Fields(a) + Fields(b)
    ensures Literals(a + b) == Literals(a) + Literals(b)
  {
    if |a| == 0 {
      assert a + b == b;
    } else {
      assert (a + b)[0] == a[0];
      assert (a + b)[1..] == a[1..] + b;
      FieldsAppend(a[1..], b);
    }
  }

  lemma FieldsSplit(mask: seq<Component>, j: nat)
    requires j <= |mask|
    ensures Fields(mask) == Fields(mask[..j]) + Fields(mask[j..])
    ensures Literals(mask) == Literals(mask[..j]) + Literals(mask[j..])
    ensures |Fields(mask)| + |Literals(mask)| == |mask|
  {
    assert mask == mask[..j] + mask[j..];
    FieldsAppend(mask[..j], mask[j..]);
    FieldsAndLiteralsPartition(mask);
  }

  lemma {:induction false} FieldsAndLiteralsPartition(mask: seq<Component>)
    ensures |Fields(mask)| + |Literals(mask)| == |mask|
  {
    if |mask| > 0 {
      FieldsAndLiteralsPartition(mask[1..]);
    }
  }

  /** Selecting through a composed mask is selecting twice. */
  lemma SelectCompose(xs: seq<real>, inner: seq<Component>, mask: seq<Component>)
    requires FieldsWithin(inner, |xs|) && FieldsWithin(mask, |inner|)
    ensures FieldsWithin(Compose(inner, mask), |xs|)
    ensures Select(xs, Compose(inner, mask)) == Select(Select(xs, inner), mask)
  {
  }

  lemma {:induction false} IdentityFromAt(mask: seq<Component>, start: nat)
    requires IdentityFrom(mask, start)
    ensures forall j :: 0 <= j < |mask| ==> mask[j] == Field(start + j)
  {
    if |mask| > 0 {
      IdentityFromAt(mask[1..], start + 1);
      assert forall j :: 1 <= j < |mask| ==> mask[j] == mask[1..][j - 1];
    }
  }

  /** An identity mask selects the whole base. */
  lemma IdentitySelect(xs: seq<real>, mask: seq<Component>)
    requires IsIdentity(mask, |xs|)
    ensures Select(xs, mask) == xs
  {
    IdentityFromAt(mask, 0);
  }

  /** Selector `j` lands after the fields and literals that precede it. */
  lemma {:induction false} PositionsAt(mask: seq<Component>, fieldsSeen: nat, literalsSeen: nat, fieldCount: nat, j: nat)
    requires j < |mask|
    ensures Positions(mask, fieldsSeen, literalsSeen, fieldCount)[j]
            == if IsLiteral(mask[j]) then Field(fieldCount + literalsSeen + |Literals(mask[..j])|)
               else Field(fieldsSeen + |Fields(mask[..j])|)
  {
    if j > 0 {
      PositionsAt(mask[1..], if IsLiteral(mask[0]) then fieldsSeen else fieldsSeen + 1,
                  if IsLiteral(mask[0]) then literalsSeen + 1 else literalsSeen, fieldCount, j - 1);
      assert mask[1..][..j - 1] == mask[..j][1..];
      assert mask[1..][j - 1] == mask[j];
    }
  }

  /** The selector at `j` is found in `Fields` or `Literals` at the position
      counted by the selectors before it. */
  lemma SplitAt(mask: seq<Component>, j: nat)
    requires j < |mask|
    ensures !IsLiteral(mask[j]) ==> |Fields(mask[..j])| < |Fields(mask)| && Fields(mask)[|Fields(mask[..j])|] == mask[j]
    ensures IsLiteral(mask[j]) ==> |Literals(mask[..j])| < |Literals(mask)| && Literals(mask)[|Literals(mask[..j])|] == mask[j]
  {
    FieldsSplit(mask, j);
    assert mask[j..][0] == mask[j];
  }

  /** The permutation indexes the lowered constructor so that it reproduces
      the original selectors, and every index it uses exists. */
  lemma LoweredAt(xs: seq<real>, mask: seq<Component>, j: nat)
    requires j < |mask|
    ensures Permutation(mask)[j].Field? && Permutation(mask)[j].index < |mask|
    ensures Pick(Select(xs, Fields(mask)) + Select(xs, Literals(mask)), Permutation(mask)[j]) == Pick(xs, mask[j])
  {
    var f, l := Fields(mask), Literals(mask);
    FieldsAndLiteralsPartition(mask);
    PositionsAt(mask, 0, 0, |f|, j);
    SplitAt(mask, j);
    var sf, sl := Select(xs, f), Select(xs, l);
    var w := sf + sl;
    var p := Permutation(mask)[j];
    if IsLiteral(mask[j]) {
      var q := |Literals(mask[..j])|;
      assert p.index == |f| + q;
      assert w[|f| + q] == sl[q];
    } else {
      var q := |Fields(mask[..j])|;
      assert p.index == q;
      assert w[q] == sf[q];
    }
  }

  lemma LoweringReproduces(xs: seq<real>, mask: seq<Component>)
    ensures FieldsWithin(Permutation(mask), |mask|)
    ensures Select(Select(xs, Fields(mask)) + Select(xs, Literals(mask)), Permutation(mask)) == Select(xs, mask)
  {
    var w := Select(xs, Fields(mask)) + Select(xs, Literals(mask));
    var p := Permutation(mask);
    forall j | 0 <= j < |mask|
      ensures p[j].Field? && p[j].index < |mask|
      ensures Pick(w, p[j]) == Pick(xs, mask[j])
    {
      LoweredAt(xs, mask, j);
    }
    FieldsSplit(mask, 0);
    assert Select(w, p) == Select(xs, mask);
  }

  lemma {:induction false} NoLiteralAllFields(mask: seq<Component>)
    requires !HasLiteral(mask)
    ensures forall j :: 0 <= j < |mask| ==> mask[j].Field?
  {
    if |mask| > 0 {
      NoLiteralAllFields(mask[1..]);
      assert forall j :: 1 <= j < |mask| ==> mask[j] == mask[1..][j - 1];
    }
  }

  /** The values of the literal constructor arguments. */
  function LiteralValues(lits: seq<Component>): (vals: seq<Value>)
    ensures |vals| == |lits|
  {
    if |lits| == 0 then [] else [FloatV([Pick([], lits[0])])] + LiteralValues(lits[1..])
  }

  lemma {:induction false} EvalLiteralArgs(lits: seq<Component>, st: Store, ext: Ext)
    ensures EvalArgs(LiteralArgs(lits, FloatKind), st, ext) == Some(EvaluatedArgs(LiteralValues(lits), st))
  {
    if |lits| > 0 {
      var args := LiteralArgs(lits, FloatKind);
      assert args[0] == FloatLit(Pick([], lits[0]));
      assert args[1..] == LiteralArgs(lits[1..], FloatKind);
      EvalLiteralArgs(lits[1..], st, ext);
    }
  }

  lemma {:induction false} FlattenLiterals(xs: seq<real>, lits: seq<Component>)
    requires forall j :: 0 <= j < |lits| ==> IsLiteral(lits[j])
    ensures Flatten(LiteralValues(lits)) == Some(Select(xs, lits))
  {
    if |lits| > 0 {
      FlattenLiterals(xs, lits[1..]);
      var vals := LiteralValues(lits);
      assert vals[1..] == LiteralValues(lits[1..]);
      assert Select(xs, lits) == [Pick([], lits[0])] + Select(xs, lits[1..]);
    }
  }

  /** What a successful evaluation of `base.mask` consists of. */
  lemma SwizzleEvalFacts(base: Expr, mask: seq<Component>, st: Store, ext: Ext)
    requires Eval(Swizzle(base, mask), st, ext).Some?
    ensures Eval(base, st, ext).Some?
    ensures var rb := Eval(base, st, ext).value;
      && rb.value.FloatV?
      && 1 <= |rb.value.xs| <= 4
      && TypeOf(base) == FloatVec(|rb.value.xs|)
      && FieldsWithin(mask, |rb.value.xs|)
      && 1 <= |mask| <= 4
      && Eval(Swizzle(base, mask), st, ext) == Some(Evaluated(FloatV(Select(rb.value.xs, mask)), rb.store))
  {
  }

  /** Evaluating `base.mask` once its base value is known. */
  lemma SwizzleEvalFromBase(base: Expr, mask: seq<Component>, st: Store, ext: Ext, xs: seq<real>, st1: Store)
    requires Eval(base, st, ext) == Some(Evaluated(FloatV(xs), st1))
    requires FieldsWithin(mask, |xs|) && 1 <= |mask| <= 4
    ensures Eval(Swizzle(base, mask), st, ext) == Some(Evaluated(FloatV(Select(xs, mask)), st1))
  {
  }

  /** Collapsing `b0.m0.mask` into one swizzle keeps its value. */
  lemma ComposeValue(base: Expr, mask: seq<Component>, st: Store, ext: Ext)
    requires Eval(Swizzle(base, mask), st, ext).Some?
    requires base.Swizzle? && FieldsWithin(mask, |base.mask|)
    ensures Eval(Swizzle(base.base, Compose(base.mask, mask)), st, ext) == Eval(Swizzle(base, mask), st, ext)
  {
    SwizzleEvalFacts(base, mask, st, ext);
    var rb := Eval(base, st, ext).value;
    var b0, m0 := base.base, base.mask;
    SwizzleEvalFacts(b0, m0, st, ext);
    var ys := Eval(b0, st, ext).value.value.xs;
    SelectCompose(ys, m0, mask);
    SwizzleEvalFromBase(b0, Compose(m0, mask), st, ext, ys, rb.store);
  }

  /** The field-only part of a swizzle evaluates to the selected fields. */
  lemma FieldsValue(base: Expr, mask: seq<Component>, st: Store, ext: Ext)
    requires Eval(Swizzle(base, mask), st, ext).Some?
    requires HasField(mask)
    ensures Eval(Swizzle(base, Fields(mask)), st, ext).Some?
  {
    SwizzleEvalFacts(base, mask, st, ext);
    var rb := Eval(base, st, ext).value;
    FieldsOfMask(mask);
    FieldsAndLiteralsPartition(mask);
    SwizzleEvalFromBase(base, Fields(mask), st, ext, rb.value.xs, rb.store);
  }

  /** The arguments of the lowering constructor: the field-only core, then
      the literals. */
  lemma CoreArgsValue(core: Expr, lits: seq<Component>, st: Store, ext: Ext, ys: seq<real>, st1: Store)
    requires Eval(core, st, ext) == Some(Evaluated(FloatV(ys), st1))
    ensures EvalArgs([core] + LiteralArgs(lits, FloatKind), st, ext) == Some(EvaluatedArgs([FloatV(ys)] + LiteralValues(lits), st1))
  {
    var args := [core] + LiteralArgs(lits, FloatKind);
    assert args[0] == core;
    assert args[1..] == LiteralArgs(lits, FloatKind);
    EvalLiteralArgs(lits, st1, ext);
  }

  /** The lowering constructor puts the selected fields first and the
      literals after them. */
  lemma CoreConstructValue(core: Expr, mask: seq<Component>, st: Store, ext: Ext, xs: seq<real>, st1: Store)
    requires Eval(core, st, ext) == Some(Evaluated(FloatV(Select(xs, Fields(mask))), st1))
    requires 1 <= |mask| <= 4 && HasLiteral(mask)
    ensures Eval(Construct(Type(FloatKind, |mask|), [core] + LiteralArgs(Literals(mask), FloatKind)), st, ext)
         == Some(Evaluated(FloatV(Select(xs, Fields(mask)) + Select(xs, Literals(mask))), st1))
  {
    var f, l := Fields(mask), Literals(mask);
    FieldsOfMask(mask);
    FieldsAndLiteralsPartition(mask);
    CoreArgsValue(core, l, st, ext, Select(xs, f), st1);
    var vals := [FloatV(Select(xs, f))] + LiteralValues(l);
    FlattenLiterals(xs, l);
    assert vals[0] == FloatV(Select(xs, f));
    assert vals[1..] == LiteralValues(l);
    var w := Select(xs, f) + Select(xs, l);
    assert Flatten(vals) == Some(w);
    assert BuildVector(Type(FloatKind, |mask|), vals) == Some(FloatV(w));
  }

  /** The literal lowering of `base.mask` keeps its value, given a `core`
      that evaluates like the field-only swizzle. */
  lemma LowerLiteralsValue(core: Expr, base: Expr, mask: seq<Component>, st: Store, ext: Ext)
    requires Eval(Swizzle(base, mask), st, ext).Some?
    requires HasField(mask) && HasLiteral(mask)
    requires Eval(core, st, ext) == Eval(Swizzle(base, Fields(mask)), st, ext)
    ensures Eval(LowerLiterals(core, mask, FloatKind), st, ext) == Eval(Swizzle(base, mask), st, ext)
  {
    SwizzleEvalFacts(base, mask, st, ext);
    var rb := Eval(base, st, ext).value;
    var xs := rb.value.xs;
    FieldsOfMask(mask);
    SwizzleEvalFromBase(base, Fields(mask), st, ext, xs, rb.store);
    CoreConstructValue(core, mask, st, ext, xs, rb.store);
    var ctor := Construct(Type(FloatKind, |mask|), [core] + LiteralArgs(Literals(mask), FloatKind));
    var w := Select(xs, Fields(mask)) + Select(xs, Literals(mask));
    LoweringReproduces(xs, mask);
    var perm := Permutation(mask);
    if IsIdentity(perm, |mask|) {
      IdentitySelect(w, perm);
    } else {
      SwizzleEvalFromBase(ctor, perm, st, ext, w, rb.store);
    }
  }

  /** Swizzling a scalar: `s.x` is `s` and `s.xx` splats `s`. */
  lemma ScalarValue(base: Expr, mask: seq<Component>, st: Store, ext: Ext)
    requires Eval(Swizzle(base, mask), st, ext).Some?
    requires !HasLiteral(mask) && TypeOf(base).columns == 1
    ensures |mask| == 1 ==> Eval(base, st, ext) == Eval(Swizzle(base, mask), st, ext)
    ensures |mask| != 1 ==> Eval(Construct(TypeOf(Swizzle(base, mask)), [base]), st, ext) == Eval(Swizzle(base, mask), st, ext)
  {
    SwizzleEvalFacts(base, mask, st, ext);
    var rb := Eval(base, st, ext).value;
    var xs := rb.value.xs;
    assert |xs| == 1;
    NoLiteralAllFields(mask);
    assert Select(xs, mask) == seq(|mask|, _ => xs[0]);
    if |mask| == 1 {
      assert Select(xs, mask) == xs;
    } else {
      var args := [base];
      assert args[0] == base && args[1..] == [];
      assert Eval(base, st, ext) == Some(Evaluated(FloatV(xs), rb.store));
      assert EvalArgs([], rb.store, ext) == Some(EvaluatedArgs([], rb.store));
      assert [FloatV(xs)] + [] == [FloatV(xs)];
      assert EvalArgs(args, st, ext) == Some(EvaluatedArgs([FloatV(xs)], rb.store));
      var vals := [FloatV(xs)];
      assert vals[1..] == [];
      assert Flatten(vals) == Some(xs + []);
      assert xs + [] == xs;
    }
  }

  /** Building a swizzle never changes what it evaluates to. */
  lemma {:induction false} MakeSwizzleValue(base: Expr, mask: seq<Component>, st: Store, ext: Ext)
    requires Eval(Swizzle(base, mask), st, ext).Some?
    ensures Eval(MakeSwizzle(base, mask), st, ext) == Eval(Swizzle(base, mask), st, ext)
    decreases base, if HasLiteral(mask) then 1 else 0
  {
    if !Typable(base, mask) {
    } else if base.Swizzle? && FieldsWithin(mask, |base.mask|) {
      ComposeValue(base, mask, st, ext);
      MakeSwizzleValue(base.base, Compose(base.mask, mask), st, ext);
    } else if !HasField(mask) {
    } else if HasLiteral(mask) {
      FieldsOfMask(mask);
      FieldsValue(base, mask, st, ext);
      MakeSwizzleValue(base, Fields(mask), st, ext);
      SwizzleEvalFacts(base, mask, st, ext);
      LowerLiteralsValue(MakeSwizzle(base, Fields(mask)), base, mask, st, ext);
    } else if TypeOf(base).columns == 1 {
      ScalarValue(base, mask, st, ext);
    } else if IsIdentity(mask, TypeOf(base).columns) {
      SwizzleEvalFacts(base, mask, st, ext);
      IdentitySelect(Eval(base, st, ext).value.value.xs, mask);
    }
  }
}
