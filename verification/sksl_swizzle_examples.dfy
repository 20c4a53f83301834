/** The swizzles of the GLSL generator's tests, built by the model. Each
    proof walks through the steps `MakeSwizzle` takes, one lemma per step:
    the facts about the mask, the branch `MakeSwizzle` takes, and the shape
    of the constructor it builds. */
module SkslSwizzleExamples {
  import opened SkslIr
  import opened SkslEval
  import opened SkslSwizzle
  import opened SkslNormal

  const V := Var("v", FloatVec(4))
  const S := Var("x", FloatType)

  /* ----- The branches of MakeSwizzle ----- */

  lemma LiteralsLowered(base: Expr, mask: seq<Component>)
    requires Typable(base, mask) && !base.Swizzle? && HasField(mask) && HasLiteral(mask)
    ensures MakeSwizzle(base, mask) == LowerLiterals(MakeSwizzle(base, Fields(mask)), mask, TypeOf(base).kind)
  {
  }

  lemma FieldsOnly(base: Expr, mask: seq<Component>)
    requires Typable(base, mask) && !base.Swizzle? && HasField(mask) && !HasLiteral(mask) && TypeOf(base).columns > 1
    ensures MakeSwizzle(base, mask) == if IsIdentity(mask, TypeOf(base).columns) then base else Swizzle(base, mask)
  {
  }

  lemma LoweredInPlace(core: Expr, mask: seq<Component>, k: Kind)
    requires IsIdentity(Permutation(mask), |mask|)
    ensures LowerLiterals(core, mask, k) == Construct(Type(k, |mask|), [core] + LiteralArgs(Literals(mask), k))
  {
  }

  lemma LoweredReordered(core: Expr, mask: seq<Component>, k: Kind)
    requires !IsIdentity(Permutation(mask), |mask|)
    ensures LowerLiterals(core, mask, k) == Swizzle(Construct(Type(k, |mask|), [core] + LiteralArgs(Literals(mask), k)), Permutation(mask))
  {
  }

  lemma OneLiteral(core: Expr, c: Component)
    requires IsLiteral(c)
    ensures [core] + LiteralArgs([c], FloatKind) == [core, FloatLit(if c.One? then 1.0 else 0.0)]
  {
  }

  lemma TwoLiterals(core: Expr, c: Component, d: Component)
    requires IsLiteral(c) && IsLiteral(d)
    ensures [core] + LiteralArgs([c, d], FloatKind)
         == [core, FloatLit(if c.One? then 1.0 else 0.0), FloatLit(if d.One? then 1.0 else 0.0)]
  {
    assert [c, d][1..] == [d];
  }

  /* ----- Masks made only of fields ----- */

  lemma WzyxMask()
    ensures var r := [Field(3), Field(2), Field(1), Field(0)];
      !HasLiteral(r) && HasField(r) && FieldsWithin(r, 4) && !IsIdentity(r, 4)
  {
    var r := [Field(3), Field(2), Field(1), Field(0)];
    assert r[1..] == [Field(2), Field(1), Field(0)];
    assert r[1..][1..] == [Field(1), Field(0)];
    assert r[1..][1..][1..] == [Field(0)];
  }

  lemma XyzwMask()
    ensures var p := [Field(0), Field(1), Field(2), Field(3)];
      !HasLiteral(p) && HasField(p) && FieldsWithin(p, 4) && IsIdentity(p, 4)
  {
    var p := [Field(0), Field(1), Field(2), Field(3)];
    assert p[1..] == [Field(1), Field(2), Field(3)];
    assert p[1..][1..] == [Field(2), Field(3)];
    assert p[1..][1..][1..] == [Field(3)];
  }

  lemma XyzMask()
    ensures var f := [Field(0), Field(1), Field(2)];
      !HasLiteral(f) && HasField(f) && FieldsWithin(f, 4) && !IsIdentity(f, 4)
  {
    var f := [Field(0), Field(1), Field(2)];
    assert f[1..] == [Field(1), Field(2)];
    assert f[1..][1..] == [Field(2)];
  }

  /** `base.wzyx` stays a swizzle on every four-component base that is not
      itself a swizzle. */
  lemma WzyxStays(base: Expr)
    requires TypeOf(base) == FloatVec(4) && !base.Swizzle?
    ensures MakeSwizzle(base, [Field(3), Field(2), Field(1), Field(0)]) == Swizzle(base, [Field(3), Field(2), Field(1), Field(0)])
  {
    WzyxMask();
    FieldsOnly(base, [Field(3), Field(2), Field(1), Field(0)]);
  }

  /** `base.xyzw` is the base itself. */
  lemma XyzwIsTheBase(base: Expr)
    requires TypeOf(base) == FloatVec(4) && !base.Swizzle?
    ensures MakeSwizzle(base, [Field(0), Field(1), Field(2), Field(3)]) == base
  {
    XyzwMask();
    FieldsOnly(base, [Field(0), Field(1), Field(2), Field(3)]);
  }

  /** `base.xyz` stays a swizzle on every four-component base. */
  lemma XyzStays(base: Expr)
    requires TypeOf(base) == FloatVec(4) && !base.Swizzle?
    ensures MakeSwizzle(base, [Field(0), Field(1), Field(2)]) == Swizzle(base, [Field(0), Field(1), Field(2)])
  {
    XyzMask();
    FieldsOnly(base, [Field(0), Field(1), Field(2)]);
  }

  /** `v.BRTL` is the plain field swizzle `v.wzyx`. */
  lemma ReversedStaysASwizzle()
    ensures MakeSwizzle(V, [Field(3), Field(2), Field(1), Field(0)]) == Swizzle(V, [Field(3), Field(2), Field(1), Field(0)])
  {
    WzyxStays(V);
  }

  /** `v.xyzw` is `v`. */
  lemma IdentityIsTheBase()
    ensures MakeSwizzle(V, [Field(0), Field(1), Field(2), Field(3)]) == V
  {
    XyzwIsTheBase(V);
  }

  /* ----- v.0y ----- */

  lemma ZyMask()
    ensures var m := [Zero, Field(1)];
      Fields(m) == [Field(1)] && Literals(m) == [Zero] && HasLiteral(m) && HasField(m) && FieldsWithin(m, 4)
      && Permutation(m) == [Field(1), Field(0)] && !IsIdentity(Permutation(m), 2)
  {
    var m := [Zero, Field(1)];
    assert m[1..] == [Field(1)];
  }

  lemma YStays(base: Expr)
    requires TypeOf(base) == FloatVec(4) && !base.Swizzle?
    ensures MakeSwizzle(base, [Field(1)]) == Swizzle(base, [Field(1)])
  {
    assert !HasLiteral([Field(1)]) && HasField([Field(1)]);
    assert !IsIdentity([Field(1)], 4);
    FieldsOnly(base, [Field(1)]);
  }

  lemma ZyStep(base: Expr)
    requires TypeOf(base) == FloatVec(4) && !base.Swizzle?
    ensures MakeSwizzle(base, [Zero, Field(1)]) == LowerLiterals(Swizzle(base, [Field(1)]), [Zero, Field(1)], FloatKind)
  {
    ZyMask();
    YStays(base);
    LiteralsLowered(base, [Zero, Field(1)]);
  }

  lemma ZyShape(core: Expr)
    ensures LowerLiterals(core, [Zero, Field(1)], FloatKind) == Swizzle(Construct(FloatVec(2), [core, FloatLit(0.0)]), [Field(1), Field(0)])
  {
    ZyMask();
    LoweredReordered(core, [Zero, Field(1)], FloatKind);
    OneLiteral(core, Zero);
  }

  /** `v.0y` becomes `vec2(v.y, 0.0).yx`. */
  lemma LeadingLiteral()
    ensures MakeSwizzle(V, [Zero, Field(1)]) == Swizzle(Construct(FloatVec(2), [Swizzle(V, [Field(1)]), FloatLit(0.0)]), [Field(1), Field(0)])
  {
    ZyStep(V);
    ZyShape(Swizzle(V, [Field(1)]));
  }

  /* ----- v.x0z ----- */

  lemma X0zMask()
    ensures var m := [Field(0), Zero, Field(2)];
      Fields(m) == [Field(0), Field(2)] && Literals(m) == [Zero] && HasLiteral(m) && HasField(m) && FieldsWithin(m, 4)
  {
    var m := [Field(0), Zero, Field(2)];
    assert m[1..] == [Zero, Field(2)];
    assert m[1..][1..] == [Field(2)];
  }

  lemma X0zPermutation()
    ensures Permutation([Field(0), Zero, Field(2)]) == [Field(0), Field(2), Field(1)]
    ensures !IsIdentity([Field(0), Field(2), Field(1)], 3)
  {
    var m := [Field(0), Zero, Field(2)];
    assert m[1..] == [Zero, Field(2)];
    assert m[1..][1..] == [Field(2)];
    X0zMask();
  }

  lemma XzStays(base: Expr)
    requires TypeOf(base) == FloatVec(4) && !base.Swizzle?
    ensures MakeSwizzle(base, [Field(0), Field(2)]) == Swizzle(base, [Field(0), Field(2)])
  {
    var f := [Field(0), Field(2)];
    assert f[1..] == [Field(2)];
    assert !HasLiteral(f) && HasField(f) && !IsIdentity(f, 4);
    FieldsOnly(base, f);
  }

  lemma X0zStep(base: Expr)
    requires TypeOf(base) == FloatVec(4) && !base.Swizzle?
    ensures MakeSwizzle(base, [Field(0), Zero, Field(2)]) == LowerLiterals(Swizzle(base, [Field(0), Field(2)]), [Field(0), Zero, Field(2)], FloatKind)
  {
    X0zMask();
    XzStays(base);
    LiteralsLowered(base, [Field(0), Zero, Field(2)]);
  }

  lemma X0zShape(core: Expr)
    ensures LowerLiterals(core, [Field(0), Zero, Field(2)], FloatKind)
         == Swizzle(Construct(FloatVec(3), [core, FloatLit(0.0)]), [Field(0), Field(2), Field(1)])
  {
    X0zMask();
    X0zPermutation();
    LoweredReordered(core, [Field(0), Zero, Field(2)], FloatKind);
    OneLiteral(core, Zero);
  }

  /** `v.x0z` becomes `vec3(v.xz, 0.0).xzy`. */
  lemma MiddleLiteral()
    ensures MakeSwizzle(V, [Field(0), Zero, Field(2)])
         == Swizzle(Construct(FloatVec(3), [Swizzle(V, [Field(0), Field(2)]), FloatLit(0.0)]), [Field(0), Field(2), Field(1)])
  {
    X0zStep(V);
    X0zShape(Swizzle(V, [Field(0), Field(2)]));
  }

  /* ----- v.xyz1 and base.xyz0 ----- */

  lemma XyzLitMask(c: Component)
    requires IsLiteral(c)
    ensures var m := [Field(0), Field(1), Field(2), c];
      Fields(m) == [Field(0), Field(1), Field(2)] && Literals(m) == [c]
      && HasLiteral(m) && HasField(m) && FieldsWithin(m, 4)
  {
    var m := [Field(0), Field(1), Field(2), c];
    assert m[1..] == [Field(1), Field(2), c];
    assert m[1..][1..] == [Field(2), c];
    assert m[1..][1..][1..] == [c];
    assert [c][1..] == [];
    assert Fields([c]) == [] && Literals([c]) == [c] && HasLiteral([c]);
    assert Fields([Field(2), c]) == [Field(2)] && Literals([Field(2), c]) == [c];
    assert Fields([Field(1), Field(2), c]) == [Field(1), Field(2)];
  }

  lemma XyzLitPermutation(c: Component)
    requires IsLiteral(c)
    ensures IsIdentity(Permutation([Field(0), Field(1), Field(2), c]), 4)
  {
    var m := [Field(0), Field(1), Field(2), c];
    assert m[1..] == [Field(1), Field(2), c];
    assert m[1..][1..] == [Field(2), c];
    assert m[1..][1..][1..] == [c];
    XyzLitMask(c);
    assert [c][1..] == [];
    assert Positions([c], 3, 0, 3) == [Field(3)];
    assert Positions([Field(2), c], 2, 0, 3) == [Field(2), Field(3)];
    assert Positions([Field(1), Field(2), c], 1, 0, 3) == [Field(1), Field(2), Field(3)];
    assert Permutation(m) == [Field(0), Field(1), Field(2), Field(3)];
    XyzwMask();
  }

  lemma XyzLitStep(base: Expr, c: Component)
    requires TypeOf(base) == FloatVec(4) && !base.Swizzle? && IsLiteral(c)
    ensures MakeSwizzle(base, [Field(0), Field(1), Field(2), c])
         == LowerLiterals(Swizzle(base, [Field(0), Field(1), Field(2)]), [Field(0), Field(1), Field(2), c], FloatKind)
  {
    XyzLitMask(c);
    XyzStays(base);
    LiteralsLowered(base, [Field(0), Field(1), Field(2), c]);
  }

  lemma XyzLitShape(core: Expr, c: Component)
    requires IsLiteral(c)
    ensures LowerLiterals(core, [Field(0), Field(1), Field(2), c], FloatKind)
         == Construct(FloatVec(4), [core, FloatLit(if c.One? then 1.0 else 0.0)])
  {
    XyzLitMask(c);
    XyzLitPermutation(c);
    LoweredInPlace(core, [Field(0), Field(1), Field(2), c], FloatKind);
    OneLiteral(core, c);
  }

  /** `v.xyz1` becomes `vec4(v.xyz, 1.0)`, with no swizzle after it. */
  lemma TrailingLiteral()
    ensures MakeSwizzle(V, [Field(0), Field(1), Field(2), One])
         == Construct(FloatVec(4), [Swizzle(V, [Field(0), Field(1), Field(2)]), FloatLit(1.0)])
  {
    XyzLitStep(V, One);
    XyzLitShape(Swizzle(V, [Field(0), Field(1), Field(2)]), One);
  }

  /** `base.xyz0` becomes `vec4(base.xyz, 0.0)` on every four-component
      base that is not itself a swizzle. */
  lemma Xyz0Lowered(base: Expr)
    requires TypeOf(base) == FloatVec(4) && !base.Swizzle?
    ensures MakeSwizzle(base, [Field(0), Field(1), Field(2), Zero])
         == Construct(FloatVec(4), [Swizzle(base, [Field(0), Field(1), Field(2)]), FloatLit(0.0)])
  {
    XyzLitStep(base, Zero);
    XyzLitShape(Swizzle(base, [Field(0), Field(1), Field(2)]), Zero);
  }

  /* ----- Scalars ----- */

  /** `x.xx` on a scalar splats it: `vec2(x)`. */
  lemma ScalarSplat(base: Expr)
    requires TypeOf(base) == FloatType && !base.Swizzle?
    ensures MakeSwizzle(base, [Field(0), Field(0)]) == Construct(FloatVec(2), [base])
  {
    var f := [Field(0), Field(0)];
    assert f[1..] == [Field(0)];
    assert !HasLiteral(f) && HasField(f) && FieldsWithin(f, 1);
  }

  lemma Xx01Mask()
    ensures var m := [Field(0), Field(0), Zero, One];
      Fields(m) == [Field(0), Field(0)] && Literals(m) == [Zero, One]
      && HasLiteral(m) && HasField(m) && FieldsWithin(m, 1)
  {
    var m := [Field(0), Field(0), Zero, One];
    assert m[1..] == [Field(0), Zero, One];
    assert m[1..][1..] == [Zero, One];
    assert m[1..][1..][1..] == [One];
  }

  lemma Xx01Permutation()
    ensures IsIdentity(Permutation([Field(0), Field(0), Zero, One]), 4)
  {
    var m := [Field(0), Field(0), Zero, One];
    assert m[1..] == [Field(0), Zero, One];
    assert m[1..][1..] == [Zero, One];
    assert m[1..][1..][1..] == [One];
    Xx01Mask();
    assert Permutation(m) == [Field(0), Field(1), Field(2), Field(3)];
    XyzwMask();
  }

  lemma Xx01Step(base: Expr)
    requires TypeOf(base) == FloatType && !base.Swizzle?
    ensures MakeSwizzle(base, [Field(0), Field(0), Zero, One])
         == LowerLiterals(Construct(FloatVec(2), [base]), [Field(0), Field(0), Zero, One], FloatKind)
  {
    Xx01Mask();
    ScalarSplat(base);
    LiteralsLowered(base, [Field(0), Field(0), Zero, One]);
  }

  lemma Xx01Shape(core: Expr)
    ensures LowerLiterals(core, [Field(0), Field(0), Zero, One], FloatKind)
         == Construct(FloatVec(4), [core, FloatLit(0.0), FloatLit(1.0)])
  {
    Xx01Mask();
    Xx01Permutation();
    LoweredInPlace(core, [Field(0), Field(0), Zero, One], FloatKind);
    TwoLiterals(core, Zero, One);
  }

  /** `x.xx01` on a scalar becomes `vec4(vec2(x), 0.0, 1.0)`. */
  lemma ScalarSplatThenLiterals()
    ensures MakeSwizzle(S, [Field(0), Field(0), Zero, One])
         == Construct(FloatVec(4), [Construct(FloatVec(2), [S]), FloatLit(0.0), FloatLit(1.0)])
  {
    Xx01Step(S);
    Xx01Shape(Construct(FloatVec(2), [S]));
  }

  lemma Zx0xMask()
    ensures var m := [Zero, Field(0), Zero, Field(0)];
      Fields(m) == [Field(0), Field(0)] && Literals(m) == [Zero, Zero]
      && HasLiteral(m) && HasField(m) && FieldsWithin(m, 1)
  {
    var m := [Zero, Field(0), Zero, Field(0)];
    assert m[1..] == [Field(0), Zero, Field(0)];
    assert m[1..][1..] == [Zero, Field(0)];
    assert m[1..][1..][1..] == [Field(0)];
  }

  lemma Zx0xPermutation()
    ensures Permutation([Zero, Field(0), Zero, Field(0)]) == [Field(2), Field(0), Field(3), Field(1)]
    ensures !IsIdentity([Field(2), Field(0), Field(3), Field(1)], 4)
  {
    var m := [Zero, Field(0), Zero, Field(0)];
    assert m[1..] == [Field(0), Zero, Field(0)];
    assert m[1..][1..] == [Zero, Field(0)];
    assert m[1..][1..][1..] == [Field(0)];
    Zx0xMask();
  }

  lemma Zx0xStep(base: Expr)
    requires TypeOf(base) == FloatType && !base.Swizzle?
    ensures MakeSwizzle(base, [Zero, Field(0), Zero, Field(0)])
         == LowerLiterals(Construct(FloatVec(2), [base]), [Zero, Field(0), Zero, Field(0)], FloatKind)
  {
    Zx0xMask();
    ScalarSplat(base);
    LiteralsLowered(base, [Zero, Field(0), Zero, Field(0)]);
  }

  lemma Zx0xShape(core: Expr)
    ensures LowerLiterals(core, [Zero, Field(0), Zero, Field(0)], FloatKind)
         == Swizzle(Construct(FloatVec(4), [core, FloatLit(0.0), FloatLit(0.0)]), [Field(2), Field(0), Field(3), Field(1)])
  {
    Zx0xMask();
    Zx0xPermutation();
    LoweredReordered(core, [Zero, Field(0), Zero, Field(0)], FloatKind);
    TwoLiterals(core, Zero, Zero);
  }

  /** `x.0x0x` on a scalar becomes `vec4(vec2(x), 0.0, 0.0).zxwy`. */
  lemma ScalarInterleaved()
    ensures MakeSwizzle(S, [Zero, Field(0), Zero, Field(0)])
         == Swizzle(Construct(FloatVec(4), [Construct(FloatVec(2), [S]), FloatLit(0.0), FloatLit(0.0)]), [Field(2), Field(0), Field(3), Field(1)])
  {
    Zx0xStep(S);
    Zx0xShape(Construct(FloatVec(2), [S]));
  }

  /** `x.x` on a scalar is the scalar itself. */
  lemma ScalarElided(base: Expr)
    requires TypeOf(base) == FloatType && !base.Swizzle?
    ensures MakeSwizzle(base, [Field(0)]) == base
  {
    assert !HasLiteral([Field(0)]) && HasField([Field(0)]) && FieldsWithin([Field(0)], 1);
  }

  lemma Zx01Mask()
    ensures var m := [Zero, Field(0), Zero, One];
      Fields(m) == [Field(0)] && Literals(m) == [Zero, Zero, One]
      && HasLiteral(m) && HasField(m) && FieldsWithin(m, 1)
  {
    var m := [Zero, Field(0), Zero, One];
    assert m[1..] == [Field(0), Zero, One];
    assert m[1..][1..] == [Zero, One];
    assert m[1..][1..][1..] == [One];
  }

  lemma Zx01Permutation()
    ensures Permutation([Zero, Field(0), Zero, One]) == [Field(1), Field(0), Field(2), Field(3)]
    ensures !IsIdentity([Field(1), Field(0), Field(2), Field(3)], 4)
  {
    var m := [Zero, Field(0), Zero, One];
    assert m[1..] == [Field(0), Zero, One];
    assert m[1..][1..] == [Zero, One];
    assert m[1..][1..][1..] == [One];
    Zx01Mask();
  }

  lemma Zx01Step(base: Expr)
    requires TypeOf(base) == FloatType && !base.Swizzle?
    ensures MakeSwizzle(base, [Zero, Field(0), Zero, One])
         == LowerLiterals(base, [Zero, Field(0), Zero, One], FloatKind)
  {
    Zx01Mask();
    ScalarElided(base);
    LiteralsLowered(base, [Zero, Field(0), Zero, One]);
  }

  lemma Zx01Shape(core: Expr)
    ensures LowerLiterals(core, [Zero, Field(0), Zero, One], FloatKind)
         == Swizzle(Construct(FloatVec(4), [core, FloatLit(0.0), FloatLit(0.0), FloatLit(1.0)]), [Field(1), Field(0), Field(2), Field(3)])
  {
    Zx01Mask();
    Zx01Permutation();
    LoweredReordered(core, [Zero, Field(0), Zero, One], FloatKind);
    ZeroZeroOne(core);
  }

  lemma ZeroZeroOne(core: Expr)
    ensures [core] + LiteralArgs([Zero, Zero, One], FloatKind) == [core, FloatLit(0.0), FloatLit(0.0), FloatLit(1.0)]
  {
    var lits := [Zero, Zero, One];
    assert lits[1..] == [Zero, One];
    TwoLiterals(core, Zero, One);
  }

  /** `x.0x01` on a scalar drops the single `x` and lowers the rest:
      `vec4(x, 0.0, 0.0, 1.0).yxzw`. */
  lemma ScalarLeadingLiteral()
    ensures MakeSwizzle(S, [Zero, Field(0), Zero, One])
         == Swizzle(Construct(FloatVec(4), [S, FloatLit(0.0), FloatLit(0.0), FloatLit(1.0)]), [Field(1), Field(0), Field(2), Field(3)])
  {
    Zx01Step(S);
    Zx01Shape(S);
  }

  /* ----- Nested swizzles ----- */

  lemma SplatNormal()
    ensures Normalize(Construct(FloatVec(4), [S])) == Construct(FloatVec(4), [S])
  {
    assert [S][1..] == [];
    assert NormalizeArgs([S]) == [S];
  }

  lemma NormalizeSwizzle(base: Expr, mask: seq<Component>)
    ensures Normalize(Swizzle(base, mask)) == MakeSwizzle(Normalize(base), mask)
  {
  }

  lemma InnerXyz0Normal()
    ensures Normalize(Swizzle(Construct(FloatVec(4), [S]), [Field(0), Field(1), Field(2), Zero]))
         == Construct(FloatVec(4), [Swizzle(Construct(FloatVec(4), [S]), [Field(0), Field(1), Field(2)]), FloatLit(0.0)])
  {
    NormalizeSwizzle(Construct(FloatVec(4), [S]), [Field(0), Field(1), Field(2), Zero]);
    SplatNormal();
    Xyz0Lowered(Construct(FloatVec(4), [S]));
  }

  /** `half4(v).rgb0.abgr` becomes `vec4(vec4(v).xyz, 0.0).wzyx`: the inner
      swizzle is built first, so the outer one has a constructor for base
      and nothing to merge with. */
  lemma NestedBuiltInnermostFirst()
    ensures Normalize(Swizzle(Swizzle(Construct(FloatVec(4), [S]), [Field(0), Field(1), Field(2), Zero]), [Field(3), Field(2), Field(1), Field(0)]))
         == Swizzle(Construct(FloatVec(4), [Swizzle(Construct(FloatVec(4), [S]), [Field(0), Field(1), Field(2)]), FloatLit(0.0)]), [Field(3), Field(2), Field(1), Field(0)])
  {
    var c := Construct(FloatVec(4), [S]);
    var inner := [Field(0), Field(1), Field(2), Zero];
    var r := [Field(3), Field(2), Field(1), Field(0)];
    var lowered := Construct(FloatVec(4), [Swizzle(c, [Field(0), Field(1), Field(2)]), FloatLit(0.0)]);
    assert Normalize(Swizzle(Swizzle(c, inner), r)) == MakeSwizzle(lowered, r) by {
      NormalizeSwizzle(Swizzle(c, inner), r);
      InnerXyz0Normal();
    }
    assert TypeOf(lowered) == FloatVec(4);
    WzyxStays(lowered);
  }

  lemma WzyxComposedWithItself()
    ensures var r := [Field(3), Field(2), Field(1), Field(0)];
      FieldsWithin(r, 4) && Compose(r, r) == [Field(0), Field(1), Field(2), Field(3)]
  {
    var r := [Field(3), Field(2), Field(1), Field(0)];
    assert r[1..] == [Field(2), Field(1), Field(0)];
    assert r[1..][1..] == [Field(1), Field(0)];
    assert r[1..][1..][1..] == [Field(0)];
  }

  lemma SwizzlesMerge(base: Expr, inner: seq<Component>, mask: seq<Component>)
    requires Typable(Swizzle(base, inner), mask) && FieldsWithin(mask, |inner|)
    ensures MakeSwizzle(Swizzle(base, inner), mask) == MakeSwizzle(base, Compose(inner, mask))
  {
  }

  lemma ReversedTwiceMerges(c: Expr)
    requires TypeOf(c) == FloatVec(4) && !c.Swizzle?
    ensures var r := [Field(3), Field(2), Field(1), Field(0)];
      MakeSwizzle(Swizzle(c, r), r) == MakeSwizzle(c, [Field(0), Field(1), Field(2), Field(3)])
  {
    var r := [Field(3), Field(2), Field(1), Field(0)];
    WzyxComposedWithItself();
    WzyxMask();
    SwizzlesMerge(c, r, r);
  }

  lemma SplatType()
    ensures TypeOf(Construct(FloatVec(4), [S])) == FloatVec(4)
  {
  }

  /** The inner `half4(v).abgr` is already in normal form. */
  lemma InnerWzyxNormal()
    ensures var r := [Field(3), Field(2), Field(1), Field(0)];
      Normalize(Swizzle(Construct(FloatVec(4), [S]), r)) == Swizzle(Construct(FloatVec(4), [S]), r)
  {
    var c := Construct(FloatVec(4), [S]);
    NormalizeSwizzle(c, [Field(3), Field(2), Field(1), Field(0)]);
    SplatNormal();
    WzyxStays(c);
  }

  /** `half4(v).abgr.abgr` merges into `.xyzw` and is `vec4(v)`. */
  lemma ReversedTwiceIsTheBase()
    ensures Normalize(Swizzle(Swizzle(Construct(FloatVec(4), [S]), [Field(3), Field(2), Field(1), Field(0)]), [Field(3), Field(2), Field(1), Field(0)]))
         == Construct(FloatVec(4), [S])
  {
    var c := Construct(FloatVec(4), [S]);
    var r := [Field(3), Field(2), Field(1), Field(0)];
    SplatType();
    assert Normalize(Swizzle(Swizzle(c, r), r)) == MakeSwizzle(Swizzle(c, r), r) by {
      InnerWzyxNormal();
      NormalizeSwizzle(Swizzle(c, r), r);
    }
    assert MakeSwizzle(Swizzle(c, r), r) == MakeSwizzle(c, [Field(0), Field(1), Field(2), Field(3)]) by {
      ReversedTwiceMerges(c);
    }
    XyzwIsTheBase(c);
  }
}
