/** The expressions and statements of the GLSL generator's tests for the
    one-node rewrites and the texture lookups, rewritten by the model into
    what the expected GLSL shows. */
module SkslRuleExamples {
  import opened Options
  import opened SkslIr
  import opened SkslRewrite
  import opened SkslWorkarounds
  import opened SkslHelpers
  import opened SkslAndTrue
  import opened SkslTexture

  const X := Var("x", BoolType)
  const Y := Var("y", BoolType)
  const I := Var("i", IntType)
  const J := Var("j", IntType)
  const F := Var("f", FloatType)

  /** `(x && y) || (x || y)` becomes `(x ? y : false) ? true : (x ? true : y)`. */
  lemma UnfoldCombo()
    ensures UnfoldShortCircuit(Binary(Binary(X, And, Y), Or, Binary(X, Or, Y)))
         == Ternary(Ternary(X, Y, BoolLit(false)), BoolLit(true), Ternary(X, BoolLit(true), Y))
  {
    assert UnfoldShortCircuit(X) == X && UnfoldShortCircuit(Y) == Y;
    assert UnfoldShortCircuit(Binary(X, And, Y)) == Ternary(X, Y, BoolLit(false));
    assert UnfoldShortCircuit(Binary(X, Or, Y)) == Ternary(X, BoolLit(true), Y);
  }

  /** `(i + j == 3) && y` becomes `i + j == 3 ? y : false`: only the
      logical operator is touched. */
  lemma UnfoldPrecedence()
    ensures UnfoldShortCircuit(Binary(Binary(Binary(I, Add, J), Equal, IntLit(3)), And, Y))
         == Ternary(Binary(Binary(I, Add, J), Equal, IntLit(3)), Y, BoolLit(false))
  {
    assert UnfoldShortCircuit(I) == I && UnfoldShortCircuit(J) == J && UnfoldShortCircuit(Y) == Y;
    assert UnfoldShortCircuit(IntLit(3)) == IntLit(3);
    assert UnfoldShortCircuit(Binary(I, Add, J)) == Binary(I, Add, J);
    assert UnfoldShortCircuit(Binary(Binary(I, Add, J), Equal, IntLit(3))) == Binary(Binary(I, Add, J), Equal, IntLit(3));
  }

  /** The loop test `andXY && orXY && combo && prec` groups to the left and
      unfolds into three nested conditionals. */
  lemma UnfoldLoopTest()
    ensures var a, o, c, p := Var("andXY", BoolType), Var("orXY", BoolType), Var("combo", BoolType), Var("prec", BoolType);
      UnfoldShortCircuit(Binary(Binary(Binary(a, And, o), And, c), And, p))
      == Ternary(Ternary(Ternary(a, o, BoolLit(false)), c, BoolLit(false)), p, BoolLit(false))
  {
    var a, o, c, p := Var("andXY", BoolType), Var("orXY", BoolType), Var("combo", BoolType), Var("prec", BoolType);
    assert UnfoldShortCircuit(a) == a && UnfoldShortCircuit(o) == o;
    assert UnfoldShortCircuit(c) == c && UnfoldShortCircuit(p) == p;
    assert UnfoldShortCircuit(Binary(a, And, o)) == Ternary(a, o, BoolLit(false));
    assert UnfoldShortCircuit(Binary(Binary(a, And, o), And, c)) == Ternary(Ternary(a, o, BoolLit(false)), c, BoolLit(false));
  }

  /** `atan(x.x, -x.y)` becomes `atan(x.x, -1.0 * x.y)`. */
  lemma NegatedAtan()
    ensures var v := Var("x", FloatVec(2));
      ForceNegatedAtanParam(Call("atan", [Swizzle(v, [Field(0)]), Neg(Swizzle(v, [Field(1)]))], FloatType))
      == Call("atan", [Swizzle(v, [Field(0)]), Binary(FloatLit(-1.0), Mul, Swizzle(v, [Field(1)]))], FloatType)
  {
    var v := Var("x", FloatVec(2));
    var x, y := Swizzle(v, [Field(0)]), Swizzle(v, [Field(1)]);
    assert ForceNegatedAtanParam(v) == v;
    assert ForceNegatedAtanParam(x) == x && ForceNegatedAtanParam(y) == y;
    assert ForceNegatedAtanParam(Neg(y)) == Neg(y);
    assert [x, Neg(y)][1..] == [Neg(y)] && [Neg(y)][1..] == [];
    assert EverywhereArgs(AtanRoot, [x, Neg(y)]) == [x, Neg(y)];
    assert TypeOf(y) == FloatType;
  }

  /** `abs(f) + float(abs(i))`: the float `abs` stays, the int one calls
      the helper. */
  const AbsSum := Binary(Call("abs", [F], FloatType), Add, Construct(FloatType, [Call("abs", [I], IntType)]))

  lemma AbsIntOfUniform()
    ensures EmulateAbsInt(AbsSum)
         == Binary(Call("abs", [F], FloatType), Add, Construct(FloatType, [Call(AbsHelper, [I], IntType)]))
  {
    assert EmulateAbsInt(F) == F && EmulateAbsInt(I) == I;
    assert [F][1..] == [] && [I][1..] == [];
    assert EverywhereArgs(AbsIntRoot, [F]) == [F];
    assert EverywhereArgs(AbsIntRoot, [I]) == [I];
    assert Children(AbsIntRoot, Call("abs", [F], FloatType)) == Call("abs", [F], FloatType);
    assert EmulateAbsInt(Call("abs", [F], FloatType)) == Call("abs", [F], FloatType);
    assert Children(AbsIntRoot, Call("abs", [I], IntType)) == Call("abs", [I], IntType);
    assert EmulateAbsInt(Call("abs", [I], IntType)) == Call(AbsHelper, [I], IntType);
    var h := [Call("abs", [I], IntType)];
    assert h[1..] == [];
    assert EverywhereArgs(AbsIntRoot, h) == [Call(AbsHelper, [I], IntType)];
    assert Children(AbsIntRoot, Construct(FloatType, h)) == Construct(FloatType, [Call(AbsHelper, [I], IntType)]);
    assert EmulateAbsInt(Construct(FloatType, h)) == Construct(FloatType, [Call(AbsHelper, [I], IntType)]);
    assert Children(AbsIntRoot, AbsSum)
        == Binary(Call("abs", [F], FloatType), Add, Construct(FloatType, [Call(AbsHelper, [I], IntType)]));
  }

  /** The program `float output = abs(f) + abs(i); ...` gets the helper
      written once ahead of it. */
  lemma AbsIntHelperWritten()
    ensures ProgramHelpers([VarDecl(FloatType, "output", Some(AbsSum))]) == [AbsHelper]
  {
    var body := [VarDecl(FloatType, "output", Some(AbsSum))];
    assert body[1..] == [];
    assert BlockExprs(body) == [AbsSum];
    var es := BlockExprs(body);
    assert IsAbsInt(Call("abs", [I], IntType));
    assert ArgsUseAbsInt([Call("abs", [I], IntType)]);
    assert UsesAbsInt(Construct(FloatType, [Call("abs", [I], IntType)]));
    assert UsesAbsInt(es[0]);
    ProgramHelpersOnce(body);
  }

  /** `pow(x + 1.0, y + 2.0)` becomes `exp2((y + 2.0) * log2(x + 1.0))`. */
  lemma PowOfSums()
    ensures var x, y := Var("x", FloatType), Var("y", FloatType);
      RemovePow(Call("pow", [Binary(x, Add, FloatLit(1.0)), Binary(y, Add, FloatLit(2.0))], FloatType))
      == Call("exp2", [Binary(Binary(y, Add, FloatLit(2.0)), Mul, Call("log2", [Binary(x, Add, FloatLit(1.0))], FloatType))], FloatType)
  {
    var x, y := Var("x", FloatType), Var("y", FloatType);
    var b, e := Binary(x, Add, FloatLit(1.0)), Binary(y, Add, FloatLit(2.0));
    assert RemovePow(x) == x && RemovePow(y) == y;
    assert RemovePow(FloatLit(1.0)) == FloatLit(1.0) && RemovePow(FloatLit(2.0)) == FloatLit(2.0);
    assert RemovePow(b) == b && RemovePow(e) == e;
    assert [b, e][1..] == [e] && [e][1..] == [];
    assert EverywhereArgs(PowRoot, [b, e]) == [b, e];
    assert Children(PowRoot, Call("pow", [b, e], FloatType)) == Call("pow", [b, e], FloatType);
    assert TypeOf(b) == FloatType;
  }

  /** `fract(-42.0)` as the generator emits it under the workaround:
      `0.5 - sign(-42.0) * (0.5 - fract(abs(-42.0)))`. */
  lemma FractAsWrittenOfConstant()
    ensures var v := FloatLit(-42.0);
      Everywhere(FractAsWrittenRoot, Call("fract", [v], FloatType))
      == Binary(FloatLit(0.5), Sub, Binary(Call("sign", [v], FloatType), Mul,
                Binary(FloatLit(0.5), Sub, Call("fract", [Call("abs", [v], FloatType)], FloatType))))
  {
    var v := FloatLit(-42.0);
    assert [v][1..] == [];
    assert EverywhereArgs(FractAsWrittenRoot, [v]) == [v];
  }

  /** `for (int i = 0; i < 4 || c < 10; ++i) c += 1;` gets the test
      `(i < 4 || c < 10) && true`. */
  lemma AndTrueLoop()
    ensures var c := Var("c", IntType);
      var test := Binary(Binary(I, Less, IntLit(4)), Or, Binary(c, Less, IntLit(10)));
      var init := VarDecl(IntType, "i", Some(IntLit(0)));
      var next := Assign("i", Binary(I, Add, IntLit(1)));
      var body := Block([ExprStmt(Assign("c", Binary(c, Add, IntLit(1))))]);
      AddAndTrue(For(init, Some(test), Some(next), body))
      == For(init, Some(Binary(test, And, BoolLit(true))), Some(next), body)
  {
    var c := Var("c", IntType);
    var stmts := [ExprStmt(Assign("c", Binary(c, Add, IntLit(1))))];
    assert stmts[1..] == [];
    assert AddAndTrueBlock(stmts) == stmts;
  }

  /* ----- Texture lookups ----- */

  const One := Var("one", Type(Sampler1DKind, 1))
  const Two := Var("two", Type(Sampler2DKind, 1))
  const Rect := Var("test", Type(Sampler2DRectKind, 1))

  function Sample(sampler: Expr, coords: Expr): Expr {
    Call("sample", [sampler, coords], FloatVec(4))
  }

  function Lookup(fn: string, args: seq<Expr>): Expr {
    Call(fn, args, FloatVec(4))
  }

  const Vec2 := Construct(FloatVec(2), [FloatLit(0.0)])
  const Vec3 := Construct(FloatVec(3), [FloatLit(0.0)])

  /** A sample call whose sampler and coordinate count are classified
      becomes the lookup the dialect names. */
  lemma SampleLowered(d: Dialect, sharpen: bool, sampler: Expr, coords: Expr, s: Sampler, l: Lookup)
    requires TypeOf(sampler).Type? && SamplerOf(TypeOf(sampler).kind) == Some(s)
    requires TypeOf(coords).Type? && Classify(s, TypeOf(coords).columns) == Some(l)
    ensures TextureRoot(d, sharpen, Sample(sampler, coords)) == Lookup(TextureFunction(d, s, l), LookupArgs(sampler, coords, sharpen))
  {
    var args := [sampler, coords];
    assert args[0] == sampler && args[1] == coords;
  }

  lemma Modern1D()
    ensures TextureRoot(Modern, false, Sample(One, FloatLit(0.0))) == Lookup("texture", [One, FloatLit(0.0)])
  {
    SampleLowered(Modern, false, One, FloatLit(0.0), Sampler1D, Direct);
    assert TextureFunction(Modern, Sampler1D, Direct) == "texture";
  }

  lemma Modern2D()
    ensures TextureRoot(Modern, false, Sample(Two, Vec2)) == Lookup("texture", [Two, Vec2])
  {
    SampleLowered(Modern, false, Two, Vec2, Sampler2D, Direct);
    assert TextureFunction(Modern, Sampler2D, Direct) == "texture";
  }

  lemma Modern1DProj()
    ensures TextureRoot(Modern, false, Sample(One, Vec2)) == Lookup("textureProj", [One, Vec2])
  {
    SampleLowered(Modern, false, One, Vec2, Sampler1D, Projective);
    assert TextureFunction(Modern, Sampler1D, Projective) == "textureProj";
  }

  lemma Modern2DProj()
    ensures TextureRoot(Modern, false, Sample(Two, Vec3)) == Lookup("textureProj", [Two, Vec3])
  {
    SampleLowered(Modern, false, Two, Vec3, Sampler2D, Projective);
    assert TextureFunction(Modern, Sampler2D, Projective) == "textureProj";
  }

  /** With one overloaded function, a 1D sampler with one coordinate and a
      2D sampler with two are direct lookups, one more coordinate makes
      them projective. */
  lemma ModernLookups()
    ensures TextureRoot(Modern, false, Sample(One, FloatLit(0.0))) == Lookup("texture", [One, FloatLit(0.0)])
    ensures TextureRoot(Modern, false, Sample(Two, Vec2)) == Lookup("texture", [Two, Vec2])
    ensures TextureRoot(Modern, false, Sample(One, Vec2)) == Lookup("textureProj", [One, Vec2])
    ensures TextureRoot(Modern, false, Sample(Two, Vec3)) == Lookup("textureProj", [Two, Vec3])
  {
    Modern1D();
    Modern2D();
    Modern1DProj();
    Modern2DProj();
  }

  lemma Legacy1D()
    ensures TextureRoot(Legacy, false, Sample(One, FloatLit(0.0))) == Lookup("texture1D", [One, FloatLit(0.0)])
  {
    SampleLowered(Legacy, false, One, FloatLit(0.0), Sampler1D, Direct);
    assert TextureFunction(Legacy, Sampler1D, Direct) == "texture1D";
  }

  lemma Legacy2D()
    ensures TextureRoot(Legacy, false, Sample(Two, Vec2)) == Lookup("texture2D", [Two, Vec2])
  {
    SampleLowered(Legacy, false, Two, Vec2, Sampler2D, Direct);
    assert TextureFunction(Legacy, Sampler2D, Direct) == "texture2D";
  }

  lemma Legacy1DProj()
    ensures TextureRoot(Legacy, false, Sample(One, Vec2)) == Lookup("texture1DProj", [One, Vec2])
  {
    SampleLowered(Legacy, false, One, Vec2, Sampler1D, Projective);
    assert TextureFunction(Legacy, Sampler1D, Projective) == "texture1DProj";
  }

  lemma Legacy2DProj()
    ensures TextureRoot(Legacy, false, Sample(Two, Vec3)) == Lookup("texture2DProj", [Two, Vec3])
  {
    SampleLowered(Legacy, false, Two, Vec3, Sampler2D, Projective);
    assert TextureFunction(Legacy, Sampler2D, Projective) == "texture2DProj";
  }

  /** A legacy dialect names the dimension in every lookup. */
  lemma LegacyLookups()
    ensures TextureRoot(Legacy, false, Sample(One, FloatLit(0.0))) == Lookup("texture1D", [One, FloatLit(0.0)])
    ensures TextureRoot(Legacy, false, Sample(Two, Vec2)) == Lookup("texture2D", [Two, Vec2])
    ensures TextureRoot(Legacy, false, Sample(One, Vec2)) == Lookup("texture1DProj", [One, Vec2])
    ensures TextureRoot(Legacy, false, Sample(Two, Vec3)) == Lookup("texture2DProj", [Two, Vec3])
  {
    Legacy1D();
    Legacy2D();
    Legacy1DProj();
    Legacy2DProj();
  }

  lemma SharpModern1D()
    ensures TextureRoot(Modern, true, Sample(One, FloatLit(0.0))) == Lookup("texture", [One, FloatLit(0.0), FloatLit(-0.5)])
  {
    SampleLowered(Modern, true, One, FloatLit(0.0), Sampler1D, Direct);
    assert TextureFunction(Modern, Sampler1D, Direct) == "texture";
  }

  lemma SharpModern2DProj()
    ensures TextureRoot(Modern, true, Sample(Two, Vec3)) == Lookup("textureProj", [Two, Vec3, FloatLit(-0.5)])
  {
    SampleLowered(Modern, true, Two, Vec3, Sampler2D, Projective);
    assert TextureFunction(Modern, Sampler2D, Projective) == "textureProj";
  }

  lemma SharpLegacy1DProj()
    ensures TextureRoot(Legacy, true, Sample(One, Vec2)) == Lookup("texture1DProj", [One, Vec2, FloatLit(-0.5)])
  {
    SampleLowered(Legacy, true, One, Vec2, Sampler1D, Projective);
    assert TextureFunction(Legacy, Sampler1D, Projective) == "texture1DProj";
  }

  lemma SharpLegacy2D()
    ensures TextureRoot(Legacy, true, Sample(Two, Vec2)) == Lookup("texture2D", [Two, Vec2, FloatLit(-0.5)])
  {
    SampleLowered(Legacy, true, Two, Vec2, Sampler2D, Direct);
    assert TextureFunction(Legacy, Sampler2D, Direct) == "texture2D";
  }

  /** Sharpening adds the bias -0.5 to every lookup, in both dialects. */
  lemma SharpenedLookups()
    ensures TextureRoot(Modern, true, Sample(One, FloatLit(0.0))) == Lookup("texture", [One, FloatLit(0.0), FloatLit(-0.5)])
    ensures TextureRoot(Modern, true, Sample(Two, Vec3)) == Lookup("textureProj", [Two, Vec3, FloatLit(-0.5)])
    ensures TextureRoot(Legacy, true, Sample(One, Vec2)) == Lookup("texture1DProj", [One, Vec2, FloatLit(-0.5)])
    ensures TextureRoot(Legacy, true, Sample(Two, Vec2)) == Lookup("texture2D", [Two, Vec2, FloatLit(-0.5)])
  {
    SharpModern1D();
    SharpModern2DProj();
    SharpLegacy1DProj();
    SharpLegacy2D();
  }

  /** A rectangle sampler is looked up with `texture` whether it gets two
      coordinates or three. */
  lemma RectangleLookups()
    ensures TextureRoot(Modern, false, Sample(Rect, Construct(FloatVec(2), [FloatLit(0.5)])))
         == Lookup("texture", [Rect, Construct(FloatVec(2), [FloatLit(0.5)])])
    ensures TextureRoot(Modern, false, Sample(Rect, Construct(FloatVec(3), [FloatLit(0.5)])))
         == Lookup("texture", [Rect, Construct(FloatVec(3), [FloatLit(0.5)])])
  {
  }
}
