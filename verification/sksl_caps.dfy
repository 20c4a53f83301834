/** The driver workarounds a set of shader capabilities switches on, and
    the function body the GLSL generator writes under them. Every
    workaround is off by default; the default capabilities leave the body
    as it was written. */
module SkslCaps {
  import opened Options
  import opened SkslIr
  import opened SkslEval
  import opened SkslRewrite
  import opened SkslWorkarounds
  import opened SkslHelpers
  import opened SkslAndTrue
  import SkslDoWhile
  import SkslMinAbs

  datatype Caps = Caps(
    unfoldShortCircuitAsTernary: bool,
    mustForceNegatedAtanParamToFloat: bool,
    emulateAbsIntFunction: bool,
    canUseFractForNegativeValues: bool,
    removePowWithConstantExponent: bool,
    addAndTrueToLoopCondition: bool,
    rewriteDoWhileLoops: bool,
    canUseMinAndAbsTogether: bool)

  /** The capabilities of a driver that needs no workaround. */
  const Default := Caps(false, false, false, true, false, false, false, true)

  /** The rewrites of single nodes, each applied to every expression of the
      body when its workaround is on. */
  function ExprRules(caps: Caps, body: seq<Stmt>): (r: seq<Stmt>)
    ensures |r| == |body|
  {
    var b1 := if caps.unfoldShortCircuitAsTernary then InBlock(UnfoldRoot, body) else body;
    var b2 := if caps.mustForceNegatedAtanParamToFloat then InBlock(AtanRoot, b1) else b1;
    var b3 := if caps.emulateAbsIntFunction then InBlock(AbsIntRoot, b2) else b2;
    var b4 := if !caps.canUseFractForNegativeValues then InBlock(FractAsWrittenRoot, b3) else b3;
    if caps.removePowWithConstantExponent then InBlock(PowRoot, b4) else b4
  }

  /** The body the generator writes: the node rewrites, then `&& true` on
      every `for` test, then the do-while expansion, then the min/abs
      temporaries. Only the last two add statements. */
  function LowerBody(caps: Caps, body: seq<Stmt>): (r: seq<Stmt>)
    ensures caps == Default ==> r == body
    ensures caps.canUseMinAndAbsTogether && !caps.rewriteDoWhileLoops ==> |r| == |body|
  {
    var b1 := ExprRules(caps, body);
    var b2 := if caps.addAndTrueToLoopCondition then AddAndTrueBlock(b1) else b1;
    var b3 := if caps.rewriteDoWhileLoops then SkslDoWhile.DoWhileBlock(b2, 0).stmts else b2;
    if !caps.canUseMinAndAbsTogether then SkslMinAbs.MinAbsFunction(b3) else b3
  }

  /** The helper functions written ahead of the program: the integer abs
      helper, when that workaround is on and the body needs it. */
  function Helpers(caps: Caps, body: seq<Stmt>): (r: seq<string>)
    ensures NoDuplicates(r) && |r| <= 1
    ensures r == [AbsHelper] <==> caps.emulateAbsIntFunction && exists i :: 0 <= i < |BlockExprs(body)| && UsesAbsInt(BlockExprs(body)[i])
  {
    ProgramHelpersOnce(body);
    if caps.emulateAbsIntFunction then ProgramHelpers(body) else []
  }

  /** Without workarounds the body is written as it stands and no helper is
      written. */
  lemma DefaultWritesBodyAsIs(body: seq<Stmt>)
    ensures LowerBody(Default, body) == body && Helpers(Default, body) == []
  {
  }

  /** The workarounds that only change how each node is spelled: a body
      written with any of them on runs exactly as the original, unless the
      original gets stuck. */
  predicate SpellingOnly(caps: Caps) {
    caps.canUseFractForNegativeValues && !caps.removePowWithConstantExponent
    && !caps.rewriteDoWhileLoops && caps.canUseMinAndAbsTogether
  }

  lemma {:induction false} InBlockIf(on: bool, rule: Expr -> Expr, body: seq<Stmt>, st: Store, fuel: nat, ext: Ext)
    requires KeepsValue(rule, ext) && KeepsType(rule)
    requires !ExecBlock(body, st, fuel, ext).Stuck?
    ensures ExecBlock(if on then InBlock(rule, body) else body, st, fuel, ext) == ExecBlock(body, st, fuel, ext)
  {
    if on {
      InBlockExec(rule, body, st, fuel, ext);
    }
  }

  lemma {:induction false} SpellingKeepsBehaviour(caps: Caps, body: seq<Stmt>, st: Store, fuel: nat, ext: Ext)
    requires SpellingOnly(caps)
    requires !ExecBlock(body, st, fuel, ext).Stuck?
    ensures ExecBlock(LowerBody(caps, body), st, fuel, ext) == ExecBlock(body, st, fuel, ext)
  {
    UnfoldRootKeeps(ext);
    AtanRootKeeps(ext);
    AbsIntRootKeeps(ext);
    var b1 := if caps.unfoldShortCircuitAsTernary then InBlock(UnfoldRoot, body) else body;
    InBlockIf(caps.unfoldShortCircuitAsTernary, UnfoldRoot, body, st, fuel, ext);
    var b2 := if caps.mustForceNegatedAtanParamToFloat then InBlock(AtanRoot, b1) else b1;
    InBlockIf(caps.mustForceNegatedAtanParamToFloat, AtanRoot, b1, st, fuel, ext);
    var b3 := if caps.emulateAbsIntFunction then InBlock(AbsIntRoot, b2) else b2;
    InBlockIf(caps.emulateAbsIntFunction, AbsIntRoot, b2, st, fuel, ext);
    assert ExprRules(caps, body) == b3;
    AddAndTrueBlockExec(b3, st, fuel, ext);
  }
}
