/** The programs of the GLSL generator's workaround tests, rewritten by the
    model into the shape the expected GLSL shows. */
module SkslWorkaroundExamples {
  import opened Options
  import opened SkslIr
  import opened SkslDoWhile
  import opened SkslMinAbs
  import opened SkslCaps
  import SkslRewrite
  import SkslWorkarounds
  import SkslRuleExamples

  const I := Var("i", IntType)
  const Incr := ExprStmt(Assign("i", Binary(I, Add, IntLit(1))))
  const Decl := VarDecl(IntType, "i", Some(IntLit(0)))
  const InnerDo := Do(Block([Incr]), BoolLit(true))
  const OuterDo := Do(Block([Incr, InnerDo]), Binary(I, Less, IntLit(10)))

  /** Two nested do-while loops: the outer one takes flag 0 and its
      declaration and loop replace it in the function body; the inner one
      takes flag 1 inside the outer loop's body. */
  lemma NestedDoWhile()
    ensures DoWhileStmt(Block([Decl, OuterDo]), 0)
         == (Block([Decl,
                    VarDecl(BoolType, "_tmpLoopSeenOnce0", Some(BoolLit(false))),
                    SeenOnceLoop("_tmpLoopSeenOnce0", Binary(I, Less, IntLit(10)),
                                 Block([Incr,
                                        VarDecl(BoolType, "_tmpLoopSeenOnce1", Some(BoolLit(false))),
                                        SeenOnceLoop("_tmpLoopSeenOnce1", BoolLit(true), Block([Incr]))]))]),
             2)
  {
    assert Flag(0) == "_tmpLoopSeenOnce0" && Flag(1) == "_tmpLoopSeenOnce1";
    assert [Incr][1..] == [];
    assert DoWhileBlock([Incr], 2) == Expanded([Incr], 2);
    assert DoWhileStmt(Block([Incr]), 2) == (Block([Incr]), 2);
    var innerX := ExpandDo(Block([Incr]), BoolLit(true), 1);
    assert innerX == Expanded([VarDecl(BoolType, Flag(1), Some(BoolLit(false))),
                               SeenOnceLoop(Flag(1), BoolLit(true), Block([Incr]))], 2);
    assert [Incr, InnerDo][1..] == [InnerDo];
    assert DoWhileBlock([InnerDo], 1) == innerX;
    assert DoWhileBlock([Incr, InnerDo], 1) == Expanded([Incr] + innerX.stmts, 2);
    assert DoWhileStmt(Block([Incr, InnerDo]), 1) == (Block([Incr] + innerX.stmts), 2);
    var outerX := ExpandDo(Block([Incr, InnerDo]), Binary(I, Less, IntLit(10)), 0);
    assert outerX == Expanded([VarDecl(BoolType, Flag(0), Some(BoolLit(false))),
                               SeenOnceLoop(Flag(0), Binary(I, Less, IntLit(10)), Block([Incr] + innerX.stmts))], 2);
    assert [Decl, OuterDo][1..] == [OuterDo];
    assert DoWhileStmt(Decl, 0) == (Decl, 0);
    assert DoWhileBlock([OuterDo], 0) == outerX;
    assert DoWhileBlock([Decl, OuterDo], 0) == Expanded([Decl] + outerX.stmts, 2);
    assert [Incr] + innerX.stmts == [Incr, innerX.stmts[0], innerX.stmts[1]];
    assert [Decl] + outerX.stmts == [Decl, outerX.stmts[0], outerX.stmts[1]];
  }

  /** `min(abs(-5.0), 6.0)` takes temporaries 0 and 1, both floats. */
  lemma MinAbsOfConstants()
    ensures MinAbsExpr(Call("min", [Call("abs", [FloatLit(-5.0)], FloatType), FloatLit(6.0)], FloatType), 0)
         == Lowered(Ternary(Binary(Assign("minAbsHackVar0", Call("abs", [FloatLit(-5.0)], FloatType)), Less,
                                   Assign("minAbsHackVar1", FloatLit(6.0))),
                            Var("minAbsHackVar0", FloatType), Var("minAbsHackVar1", FloatType)),
                    [VarDecl(FloatType, "minAbsHackVar0", None), VarDecl(FloatType, "minAbsHackVar1", None)],
                    2)
  {
    var a := Call("abs", [FloatLit(-5.0)], FloatType);
    assert Temp(0) == "minAbsHackVar0" && Temp(1) == "minAbsHackVar1";
    assert [FloatLit(-5.0)][1..] == [];
    assert MinAbsExpr(FloatLit(-5.0), 2) == Lowered(FloatLit(-5.0), [], 2);
    assert MinAbsArgs([], 2) == Lowered([], [], 2);
    assert [FloatLit(-5.0)] + [] == [FloatLit(-5.0)];
    var noDecls: seq<Stmt> := [];
    assert noDecls + noDecls == noDecls;
    assert MinAbsArgs([FloatLit(-5.0)], 2) == Lowered([FloatLit(-5.0)], [], 2);
    assert MinAbsExpr(a, 2) == Lowered(a, [], 2);
    assert MinAbsExpr(FloatLit(6.0), 2) == Lowered(FloatLit(6.0), [], 2);
  }

  /** The function body of the same test written under the capabilities
      that cannot use min and abs together: the two float temporaries are
      declared first, then the statement. Under the default capabilities
      the body is written unchanged. */
  lemma MinAbsBody()
    ensures var e := Call("min", [Call("abs", [FloatLit(-5.0)], FloatType), FloatLit(6.0)], FloatType);
      LowerBody(Default.(canUseMinAndAbsTogether := false), [ExprStmt(e)])
      == [VarDecl(FloatType, "minAbsHackVar0", None), VarDecl(FloatType, "minAbsHackVar1", None),
          ExprStmt(Ternary(Binary(Assign("minAbsHackVar0", Call("abs", [FloatLit(-5.0)], FloatType)), Less,
                                  Assign("minAbsHackVar1", FloatLit(6.0))),
                           Var("minAbsHackVar0", FloatType), Var("minAbsHackVar1", FloatType)))]
      && LowerBody(Default, [ExprStmt(e)]) == [ExprStmt(e)]
  {
    var e := Call("min", [Call("abs", [FloatLit(-5.0)], FloatType), FloatLit(6.0)], FloatType);
    var caps := Default.(canUseMinAndAbsTogether := false);
    var body := [ExprStmt(e)];
    assert ExprRules(caps, body) == body;
    MinAbsOfConstants();
    var x := MinAbsExpr(e, 0);
    assert MinAbsStmt(ExprStmt(e), 0) == Lowered(ExprStmt(x.code), x.decls, 2);
    assert body[1..] == [];
    assert MinAbsBlock([], 2) == Lowered([], [], 2);
    assert x.decls + [] == x.decls && [ExprStmt(x.code)] + [] == [ExprStmt(x.code)];
    assert MinAbsBlock(body, 0) == Lowered([ExprStmt(x.code)], x.decls, 2);
    DefaultWritesBodyAsIs(body);
  }

  /** `fract(-42.0)` on a driver whose fract is wrong for negative values is
      written as the golden formula; under the default capabilities it is
      written unchanged. */
  lemma FractNegativeBody()
    ensures var v := FloatLit(-42.0);
      var body := [ExprStmt(Call("fract", [v], FloatType))];
      LowerBody(Default.(canUseFractForNegativeValues := false), body)
      == [ExprStmt(Binary(FloatLit(0.5), Sub, Binary(Call("sign", [v], FloatType), Mul,
                   Binary(FloatLit(0.5), Sub, Call("fract", [Call("abs", [v], FloatType)], FloatType)))))]
      && LowerBody(Default, body) == body
  {
    var v := FloatLit(-42.0);
    var body := [ExprStmt(Call("fract", [v], FloatType))];
    var written := Binary(FloatLit(0.5), Sub, Binary(Call("sign", [v], FloatType), Mul,
                          Binary(FloatLit(0.5), Sub, Call("fract", [Call("abs", [v], FloatType)], FloatType))));
    SkslRuleExamples.FractAsWrittenOfConstant();
    assert body[1..] == [];
    assert SkslRewrite.InBlock(SkslWorkarounds.FractAsWrittenRoot, body) == [ExprStmt(written)];
    assert ExprRules(Default.(canUseFractForNegativeValues := false), body) == [ExprStmt(written)];
    DefaultWritesBodyAsIs(body);
  }
}
