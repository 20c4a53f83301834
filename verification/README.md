# Skia: GLSL workaround rewrites, SkFixed arithmetic, arithmetic image filter

This project models three parts of Skia and proves properties of the model.

**The SkSL-to-GLSL rewrite rules.** These are the rules that the golden tests in
`tests/SkSLGLSLTest.cpp` pin down. The model has a small SkSL IR: typed
expressions, and statements with blocks, `if`, `for`, `while`, `do`, `break`
and `continue`. The rules are:

- swizzle construction: composition, identity elision, scalar splats, and
  lowering of the literal selectors `0`/`1`;
- short-circuit unfolding;
- `&& true` on loop tests;
- the do-while expansion with `_tmpLoopSeenOnce<n>` flags;
- the `fract`, negated-`atan`, `pow`, `min(abs(..), ..)` and integer-`abs`
  workarounds;
- texture-lookup dispatch.

Each rule is a function on the IR. It is checked against the golden lines by
lemmas that rebuild those lines exactly. A reference interpreter
(`SkslEval.Eval`, `Exec`, `Loop`) gives the IR a meaning:

- expressions are type-checked node by node and evaluated left to right over a
  store;
- statements run with a fuel bound;
- built-in functions whose meaning is floating point (`sqrt`, `pow`, `exp2`,
  `log2`, `atan`, texture lookups) are a parameter `ext`, a fixed but
  arbitrary function.

Against this semantics the model proves, rule by rule, what each rewrite
keeps:

- Short-circuit unfolding, the negated-`atan` operand, the integer-`abs`
  helper, swizzle construction and the swizzle normal form keep the value and
  the final store of every expression whose evaluation is defined.
- `&& true` leaves every statement's outcome unchanged, fuel for fuel.
- The `pow` rewrite keeps the value only when the platform's `pow(b, e)` is
  `exp2(e * log2(b))` and the operands assign nothing. The rewrite evaluates
  the exponent first.
- The `fract` rewrite as the golden writes it does NOT keep the value: it is
  wrong at 0 and at the negative whole numbers (see Findings). A corrected
  rewrite is proved to give `fract(v)`.
- The min/abs and do-while rules add fresh temporaries. For these the model
  proves a simulation: the rewritten program ends the same way, in a store
  that agrees with the original everywhere except on the fresh names. This
  holds for programs that name no variable starting with `minAbsHackVar` or
  `_tmpLoopSeenOnce`.
- Texture dispatch is shown by its shape and lookup names only. The lookups
  are uninterpreted, so there is no value to compare.
- Fresh names are numbered by a counter threaded through the walk, in the
  order the goldens show.

**16.16 / 2.30 fixed point** (`include/corecg/SkFixed.h`). The model covers:

- conversions, floor, round and ceiling, the average, the portable square, the
  signed fraction and the nearly-zero test;
- the debug assertions, which become preconditions;
- `<<` as a multiplication by a power of two, arithmetic `>>` as floor
  division, and the `uint32_t` wrap-around of the square made explicit.

**The arithmetic image filter** (`src/effects/SkArithmeticImageFilter.cpp`).
The model covers:

- the factory's classification of the coefficients into Src, Dst, Clear or
  the arithmetic filter;
- the forward bounds rule, a method that updates its local rectangle as the
  source does;
- the static pixmap `intersect` helper, a method on a `Pixmap` class whose
  fields it narrows in place;
- `affectsTransparentBlack`, as the predicate `AffectsTransparentBlack`.

The float tests `SkScalarIsFinite`, `SkScalarNearlyZero` and
`SkScalarNearlyEqual(k, 1)` enter as booleans. `SkIRect` join and intersect
are defined here on half-open integer rectangles.

Two rewrites reach beyond what their capability names suggest, or stop short
of it. The model follows the goldens:

- The capability `removePowWithConstantExponent` suggests constant exponents
  only. Yet line 1153 rewrites `pow(x + 1.0, y + 2.0)`, so the model rewrites
  every two-argument `pow`.
- The capability `addAndTrueToLoopCondition` suggests every loop, but the
  golden (line 1023) shows only a `for` test. The model adds `&& true` to
  `for` tests and leaves `while` and `do` tests alone.

## Model

| member | source | states |
|---|---|---|
| Fixed.IntToFixed | include/corecg/SkFixed.h:59-68 | n << 16 for n in the debug range [-32768, 32767]; floor, ceiling and round of the result all give n back |
| Fixed.FixedToFract | include/corecg/SkFixed.h:73-81 | x << 14 in the debug range; SkFractToFixed of the result gives x back |
| Fixed.FractToFixed | include/corecg/SkFixed.h:93 | the result r is floor(x / 2^14): r * 2^14 <= x < (r + 1) * 2^14 |
| Fixed.FixedFloor | include/corecg/SkFixed.h:98 | r * 2^16 <= x < (r + 1) * 2^16, and r fits in 16 bits |
| Fixed.FixedRound | include/corecg/SkFixed.h:96 | the nearest whole number, halves rounding up: r * 2^16 - 2^15 <= x < r * 2^16 + 2^15, when x + SK_FixedHalf does not overflow |
| Fixed.FixedCeil | include/corecg/SkFixed.h:97 | the smallest whole number not below x: (r - 1) * 2^16 < x <= r * 2^16, when x + SK_Fixed1 - 1 does not overflow |
| Fixed.RoundingOrder | include/corecg/SkFixed.h:96-98 | floor <= round <= ceiling <= floor + 1, and ceiling equals floor exactly when x is a whole number |
| Fixed.FixedAve | include/corecg/SkFixed.h:100 | 2r <= a + b < 2r + 2 (the mean rounded down), and r lies between min(a, b) and max(a, b) |
| Fixed.FixedSquarePortable | include/corecg/SkFixed.h:104-110 | the result is floor(\|v\|^2 / 2^16) whenever that fits in 31 bits, every partial product and sum being taken modulo 2^32 |
| Fixed.SquareSplit | include/corecg/SkFixed.h:106-109 | the three partial terms ah*a + al*ah + (al*al >> 16) add up to floor(a^2 / 2^16), and none of the uint32_t steps wraps when the total fits in 31 bits |
| Fixed.FixedSquareSymmetric | include/corecg/SkFixed.h:104-110 | the square of -v equals the square of v |
| Fixed.FixedNearlyZero | include/corecg/SkFixed.h:141-145 | for a positive tolerance, true exactly when -tolerance < x < tolerance |
| Fixed.DefaultToleranceIsSixteen | include/corecg/SkFixed.h:139-141 | SK_FixedNearlyZero is 16; with it, 15 and -15 are nearly zero and 16 and -16 are not |
| Fixed.FixedFraction | include/corecg/SkFixed.h:85-89 | the result has the low 16 bits of x, lies in [-2^16, 2^16), and is negative exactly when x is |
| Fixed.FixedFractionOfNegativeWhole | include/corecg/SkFixed.h:85-89 | as written, the fraction of -2.0 and of -1.0 is -1.0 |
| Fixed.SignedFraction | include/corecg/SkFixed.h:83-84 | the documented signed fraction: strictly between -1.0 and 1.0, the same low 16 bits as x, never negative for non-negative x, negative for negative x that is not whole |
| Fixed.FixedFractionVersusSignedFraction | include/corecg/SkFixed.h:83-89 | SkFixedFraction equals the signed fraction except at negative whole numbers, where it gives -1.0 instead of 0 |
| Fixed.ConstantsAreNearest | include/corecg/SkFixed.h:34-37 | SK_FixedPI, SK_FixedSqrt2, SK_FixedTanPIOver8 and SK_FixedRoot2Over2 are the 16.16 numbers nearest to pi, sqrt(2), tan(pi/8) and sqrt(2)/2 |
| Rects.Join | src/effects/SkArithmeticImageFilter.cpp:227-236 | join: an empty argument changes nothing, an empty receiver takes the argument, otherwise the bounding box; every pixel of either rectangle is in the result |
| Rects.Intersect | src/effects/SkArithmeticImageFilter.cpp:253-257 | intersect: a pixel is in the result exactly when it is in both rectangles; no result exactly when they share no pixel |
| Rects.IntersectFailsIffDisjoint | src/effects/SkArithmeticImageFilter.cpp:254-256 | intersect fails if and only if the two rectangles share no pixel |
| ArithmeticFilter.Make | src/effects/SkArithmeticImageFilter.cpp:442-472 | null exactly when a coefficient is not finite; otherwise Src when the coefficients are nearly (0,1,0,0), else Dst when nearly (0,0,1,0), else Clear when nearly (0,0,0,0), else the arithmetic filter with the coefficients, the flag and inputs [background, foreground]; the crop is passed on in every case |
| ArithmeticFilter.MakeBlendsIffStandard | src/effects/SkArithmeticImageFilter.cpp:452-471 | a blend filter comes back exactly when the coefficients are finite and nearly one of the three standard sets; the arithmetic filter keeps every coefficient, the flag and the crop |
| ArithmeticFilter.StandardModesAreTheFormula | src/effects/SkArithmeticImageFilter.cpp:220-221 | at exactly (0,1,0,0), (0,0,1,0) and (0,0,0,0) the formula k1*i1*i2 + k2*i1 + k3*i2 + k4 is what Src (the foreground), Dst (the background) and Clear (0) compute |
| ArithmeticFilter.OnFilterBoundsForward | src/effects/SkArithmeticImageFilter.cpp:211-262 | forward bounds, with input 0 as i2 and input 1 as i1: a non-zero k4 (affectsTransparentBlack) or non-zero k2 and k3 give the union; only k2 gives i1; only k3 gives i2; only k1 gives the intersection, or SkIRect::MakeEmpty() when the two are disjoint; all zero gives empty; the result is always inside the union |
| ArithmeticFilter.PixmapWindows | src/effects/SkArithmeticImageFilter.cpp:131-137 | the windows exist exactly when [0,w)x[0,h) overlaps the source placed at (dx, dy); the window holds exactly the pixels in both, and is not empty |
| ArithmeticFilter.PixmapWindowsAlign | src/effects/SkArithmeticImageFilter.cpp:138-143 | source offset (max(0,-dx), max(0,-dy)) plus (dx, dy) is the overlap's corner, and each window lies inside its pixmap |
| ArithmeticFilter.IntersectPixmaps | src/effects/SkArithmeticImageFilter.cpp:131-145 | returns false and changes nothing when the two do not overlap; otherwise both pixmaps shrink to the overlap's size and their origins move to the overlap in each |
| Names.FreshInjective | tests/SkSLGLSLTest.cpp:125-126 | numbered names with one prefix are distinct for distinct numbers |
| SkslSwizzle.Compose | tests/SkSLGLSLTest.cpp:1260-1267 | the composed mask picks, for each outer selector, the inner selector it names; literals stay literals |
| SkslSwizzle.SelectCompose | tests/SkSLGLSLTest.cpp:1260-1267 | selecting with the composed mask is selecting with the inner mask and then the outer one |
| SkslSwizzle.IdentitySelect | tests/SkSLGLSLTest.cpp:1222 | an identity mask selects the whole vector unchanged |
| SkslSwizzle.LoweringReproduces | tests/SkSLGLSLTest.cpp:1211-1236 | the field components followed by the literals, reindexed by the permutation, give back exactly what the original mask selects |
| SkslSwizzle.LowerLiterals | tests/SkSLGLSLTest.cpp:1211-1236 | the constructor (plus its permuting swizzle) has the scalar kind of the base and one component per selector |
| SkslSwizzle.LowerLiteralsValue | tests/SkSLGLSLTest.cpp:1211-1236 | the lowered constructor evaluates to the value of the swizzle with literals |
| SkslSwizzle.ComposeValue | tests/SkSLGLSLTest.cpp:1260-1267 | a swizzle of a swizzle evaluates like the single composed swizzle |
| SkslSwizzle.ScalarValue | tests/SkSLGLSLTest.cpp:1273-1316 | on a scalar, a one-selector swizzle evaluates like the scalar and a longer one like the splat constructor |
| SkslSwizzle.MakeSwizzle | tests/SkSLGLSLTest.cpp:1160-1316 | the swizzle as built has the type of the swizzle as written |
| SkslSwizzle.MakeSwizzleValue | tests/SkSLGLSLTest.cpp:1160-1316 | the swizzle as built evaluates to the same value and store as the swizzle as written |
| SkslNormal.Normalize | tests/SkSLGLSLTest.cpp:1242-1271 | rebuilding every swizzle innermost first keeps the type of the expression |
| SkslNormal.NormalizeIsNormal | tests/SkSLGLSLTest.cpp:1242-1271 | the result holds no swizzle that building it again would change |
| SkslNormal.NormalIsFixed | tests/SkSLGLSLTest.cpp:1242-1271 | an expression already in normal form is left as it is |
| SkslNormal.NormalizeIdempotent | tests/SkSLGLSLTest.cpp:1242-1271 | normalizing twice is normalizing once |
| SkslNormal.NormalizeValue | tests/SkSLGLSLTest.cpp:1242-1271 | the normalized expression evaluates to the same value and store |
| SkslSwizzleExamples.LiteralsLowered | tests/SkSLGLSLTest.cpp:1211-1236 | a mask with fields and literals on a non-swizzle base is its field part lowered with the literals |
| SkslSwizzleExamples.FieldsOnly | tests/SkSLGLSLTest.cpp:1222-1223 | a mask of fields on a vector is dropped when it is the identity and kept otherwise |
| SkslSwizzleExamples.ReversedStaysASwizzle | tests/SkSLGLSLTest.cpp:1169 | `.wzyx` on a vector stays as written |
| SkslSwizzleExamples.IdentityIsTheBase | tests/SkSLGLSLTest.cpp:1222 | `v.xyzw` is `v` |
| SkslSwizzleExamples.LeadingLiteral | tests/SkSLGLSLTest.cpp:1214 | `v.0y` is `vec2(v.y, 0.0).yx` |
| SkslSwizzleExamples.MiddleLiteral | tests/SkSLGLSLTest.cpp:1217 | `v.x0z` is `vec3(v.xz, 0.0).xzy` |
| SkslSwizzleExamples.TrailingLiteral | tests/SkSLGLSLTest.cpp:1223 | `v.xyz1` is `vec4(v.xyz, 1.0)` with no reordering swizzle |
| SkslSwizzleExamples.ScalarSplat | tests/SkSLGLSLTest.cpp:1284 | `x.xx` on a scalar is `vec2(x)` |
| SkslSwizzleExamples.ScalarSplatThenLiterals | tests/SkSLGLSLTest.cpp:1294 | `x.xx01` on a scalar is `vec4(vec2(x), 0.0, 1.0)` |
| SkslSwizzleExamples.ScalarElided | tests/SkSLGLSLTest.cpp:1304 | `x.x` on a scalar is `x` |
| SkslSwizzleExamples.ScalarLeadingLiteral | tests/SkSLGLSLTest.cpp:1304 | `x.0x01` on a scalar is `vec4(x, 0.0, 0.0, 1.0).yxzw` |
| SkslSwizzleExamples.ScalarInterleaved | tests/SkSLGLSLTest.cpp:1314 | `x.0x0x` on a scalar is `vec4(vec2(x), 0.0, 0.0).zxwy` |
| SkslSwizzleExamples.InnerXyz0Normal | tests/SkSLGLSLTest.cpp:1261 | `vec4(v).rgb0` is `vec4(vec4(v).xyz, 0.0)` |
| SkslSwizzleExamples.NestedBuiltInnermostFirst | tests/SkSLGLSLTest.cpp:1261 | `vec4(v).rgb0.abgr` is `vec4(vec4(v).xyz, 0.0).wzyx` |
| SkslSwizzleExamples.WzyxComposedWithItself | tests/SkSLGLSLTest.cpp:1265 | `.wzyx` composed with itself is the identity mask |
| SkslSwizzleExamples.SwizzlesMerge | tests/SkSLGLSLTest.cpp:1260-1267 | a swizzle of a plain field swizzle is built as the composed swizzle of the base |
| SkslSwizzleExamples.ReversedTwiceIsTheBase | tests/SkSLGLSLTest.cpp:1265 | `vec4(v).abgr.abgr` is `vec4(v)` |
| SkslWorkarounds.UnfoldAndValue | tests/SkSLGLSLTest.cpp:1055 | `a ? b : false` evaluates like `a && b` |
| SkslWorkarounds.UnfoldOrValue | tests/SkSLGLSLTest.cpp:1056 | `a ? true : b` evaluates like `a \|\| b` |
| SkslWorkarounds.UnfoldShortCircuitValue | tests/SkSLGLSLTest.cpp:1055-1059 | unfolding every `&&` and `\|\|` keeps the value and final store of an expression |
| SkslWorkarounds.UnfoldLeavesNone | tests/SkSLGLSLTest.cpp:1055-1059 | after unfolding no `&&` or `\|\|` is left anywhere |
| SkslRuleExamples.UnfoldCombo | tests/SkSLGLSLTest.cpp:1057 | `(x && y) \|\| (x \|\| y)` becomes `(x ? y : false) ? true : (x ? true : y)` |
| SkslRuleExamples.UnfoldPrecedence | tests/SkSLGLSLTest.cpp:1058 | `(i + j == 3) && y` becomes `i + j == 3 ? y : false` |
| SkslRuleExamples.UnfoldLoopTest | tests/SkSLGLSLTest.cpp:1059 | the left-nested `andXY && orXY && combo && prec` becomes `((andXY ? orXY : false) ? combo : false) ? prec : false` |
| SkslWorkarounds.TimesMinusOne | tests/SkSLGLSLTest.cpp:172 | `-1.0 * e` evaluates like `-e` for a float operand |
| SkslWorkarounds.AtanCallValue | tests/SkSLGLSLTest.cpp:172 | `atan(y, -1.0 * x)` evaluates like `atan(y, -x)` |
| SkslWorkarounds.ForceNegatedAtanParamValue | tests/SkSLGLSLTest.cpp:163-172 | the negated-atan rewrite keeps the value of every expression |
| SkslRuleExamples.NegatedAtan | tests/SkSLGLSLTest.cpp:172 | `atan(x.x, -x.y)` becomes `atan(x.x, -1.0 * x.y)` |
| SkslWorkarounds.TimesSignIsAbs | tests/SkSLGLSLTest.cpp:1079 | `x * sign(x)` is `\|x\|` for every int |
| SkslWorkarounds.EmulateAbsIntValue | tests/SkSLGLSLTest.cpp:1085 | redirecting int `abs` to the helper keeps the value of every expression |
| SkslHelpers.HelpersOnce | tests/SkSLGLSLTest.cpp:1078-1080 | generating an expression writes `_absemulation` at most once, and only when some node calls `abs` on an int |
| SkslHelpers.ProgramHelpersOnce | tests/SkSLGLSLTest.cpp:1078-1080 | a program gets the helper exactly when one of its expressions calls int `abs`, and never twice |
| SkslHelpers.EmulateLeavesNone | tests/SkSLGLSLTest.cpp:1085 | after the rewrite no int `abs` call is left |
| SkslRuleExamples.AbsIntOfUniform | tests/SkSLGLSLTest.cpp:1085 | `abs(f) + abs(i)` becomes `abs(f) + float(_absemulation(i))`; float `abs` is untouched |
| SkslRuleExamples.AbsIntHelperWritten | tests/SkSLGLSLTest.cpp:1078-1080 | that program gets the helper `_absemulation` once |
| SkslWorkarounds.FractAsWrittenShape | tests/SkSLGLSLTest.cpp:148 | `fract(x)` is rewritten to `0.5 - sign(x) * (0.5 - fract(abs(x)))` |
| SkslWorkarounds.FractAsWrittenValue | tests/SkSLGLSLTest.cpp:148 | on a scalar operand the emitted formula evaluates to 0.5 - sign(v) * (0.5 - fract(\|v\|)) |
| SkslWorkarounds.FractAsWrittenAgreesExactly | tests/SkSLGLSLTest.cpp:148 | the emitted formula equals fract(v) exactly when v is not a whole number <= 0 |
| SkslWorkarounds.FractAsWrittenCounterexample | tests/SkSLGLSLTest.cpp:142-148 | at the golden input -42.0 the formula gives 1.0 where fract gives 0.0; at 0.0 it gives 0.5 |
| SkslRuleExamples.FractAsWrittenOfConstant | tests/SkSLGLSLTest.cpp:148 | `fract(-42.0)` becomes the golden formula |
| SkslWorkarounds.FractOfNegative | tests/SkSLGLSLTest.cpp:148 | for v < 0, fract(1 - fract(-v)) is fract(v), and fract only sees positive arguments |
| SkslWorkarounds.FractValue | tests/SkSLGLSLTest.cpp:148 | the corrected rewrite evaluates to fract(v) on every scalar operand |
| SkslWorkarounds.ExpLogValue | tests/SkSLGLSLTest.cpp:1153 | `exp2(e * log2(b))` evaluates to what the platform's exp2 and log2 give for the operand values |
| SkslWorkarounds.PowValue | tests/SkSLGLSLTest.cpp:1153 | when the platform's pow is exp2(e * log2(b)), the rewrite keeps the value of `pow(b, e)` for operands that assign nothing |
| SkslRuleExamples.PowOfSums | tests/SkSLGLSLTest.cpp:1153 | `pow(x + 1.0, y + 2.0)` becomes `exp2((y + 2.0) * log2(x + 1.0))` |
| SkslRewrite.EverywhereType | tests/SkSLGLSLTest.cpp:1055-1059 | a rule that keeps types, applied at every node, keeps the type of the expression |
| SkslRewrite.EverywhereValue | tests/SkSLGLSLTest.cpp:1055-1059 | a rule that keeps the value of each node, applied at every node, keeps the value and final store of the whole expression |
| SkslRewrite.InStmtExec | tests/SkSLGLSLTest.cpp:1054-1063 | such a rule applied to every expression of a statement leaves its outcome unchanged |
| SkslRewrite.InBlockExec | tests/SkSLGLSLTest.cpp:1054-1063 | the same for a block of statements |
| SkslAndTrue.AndTrueValue | tests/SkSLGLSLTest.cpp:1023 | `C && true` evaluates like `C` whenever C gives a bool |
| SkslAndTrue.AddAndTrueExec | tests/SkSLGLSLTest.cpp:1023 | a statement with `&& true` on its `for` tests runs exactly as the original, fuel for fuel |
| SkslAndTrue.AddAndTrueBlockExec | tests/SkSLGLSLTest.cpp:1023 | the same for a block |
| SkslAndTrue.StripUndoesAddAndTrue | tests/SkSLGLSLTest.cpp:1015-1025 | dropping the trailing `&& true` gives back the original statement: nothing else changes |
| SkslRuleExamples.AndTrueLoop | tests/SkSLGLSLTest.cpp:1015-1025 | the golden loop's test becomes `(i < 4 \|\| c < 10) && true`, and its initializer, step and body are unchanged |
| SkslDoWhile.CountFlags | tests/SkSLGLSLTest.cpp:1109-1119 | the expansion takes one counter value per do-while in the statement |
| SkslDoWhile.RewrittenNames | tests/SkSLGLSLTest.cpp:1109-1132 | the expansion names only the statement's own variables and the flags it drew |
| SkslDoWhile.GuardFirstPass | tests/SkSLGLSLTest.cpp:1111-1115 | on the first pass the flag is false and the condition is not evaluated |
| SkslDoWhile.GuardLaterPass | tests/SkSLGLSLTest.cpp:1111-1115 | on later passes the guard breaks exactly when the condition is false |
| SkslDoWhile.FirstIteration | tests/SkSLGLSLTest.cpp:1110-1118 | the first iteration sets the flag and runs the body without testing the condition |
| SkslDoWhile.LaterIteration | tests/SkSLGLSLTest.cpp:1110-1118 | a later iteration tests the condition, then runs the body |
| SkslDoWhile.SeenOnceSim | tests/SkSLGLSLTest.cpp:1110-1132 | once the flag is set, the rewritten loop simulates `while (c) body`; for a program naming no variable that starts with `_tmpLoopSeenOnce`, and stores agreeing outside that prefix |
| SkslDoWhile.ExpandExec | tests/SkSLGLSLTest.cpp:1109-1132 | the flag declaration followed by the loop simulates the do-while; for a program naming no variable that starts with `_tmpLoopSeenOnce`, and stores agreeing outside that prefix |
| SkslDoWhile.DoWhileExec | tests/SkSLGLSLTest.cpp:1109-1132 | any statement rewritten simulates the original: the same outcome, stores agreeing outside the flags; for a program naming no variable that starts with `_tmpLoopSeenOnce`, and stores agreeing outside that prefix |
| SkslDoWhile.DoWhileBlockExec | tests/SkSLGLSLTest.cpp:1109-1132 | the same for a block; for a program naming no variable that starts with `_tmpLoopSeenOnce`, and stores agreeing outside that prefix |
| SkslWorkaroundExamples.NestedDoWhile | tests/SkSLGLSLTest.cpp:1108-1132 | the golden's nested do-while loops become flag 0 outside and flag 1 inside, as the golden shows |
| SkslMinAbs.MinAbsExpr | tests/SkSLGLSLTest.cpp:125-128 | the rewritten expression has the type of the original, and the counter only moves forward |
| SkslMinAbs.MinAbsNames | tests/SkSLGLSLTest.cpp:125-128 | the rewritten expression names only the original's variables and the temporaries it drew |
| SkslMinAbs.MinAbsDecls | tests/SkSLGLSLTest.cpp:125-126 | every introduced declaration is a temporary declared without initializer |
| SkslMinAbs.FormEval | tests/SkSLGLSLTest.cpp:127-128 | `(t0 = a) < (t1 = y) ? t0 : t1` evaluates a, then y, once each, and gives the smaller |
| SkslMinAbs.RootAgree | tests/SkSLGLSLTest.cpp:127-128 | that form evaluates like `min(a, y)` up to the temporaries |
| SkslMinAbs.MinAbsValue | tests/SkSLGLSLTest.cpp:125-128 | the rewritten expression gives the same value as the original, in a store that agrees outside the temporaries; for a program naming no variable that starts with `minAbsHackVar`, and stores agreeing outside that prefix |
| SkslMinAbs.MinAbsExec | tests/SkSLGLSLTest.cpp:124-129 | a rewritten statement simulates the original; for a program naming no variable that starts with `minAbsHackVar`, and stores agreeing outside that prefix |
| SkslMinAbs.DeclsRun | tests/SkSLGLSLTest.cpp:125-126 | the temporaries' declarations always run and change nothing outside the temporaries |
| SkslMinAbs.MinAbsFunctionExec | tests/SkSLGLSLTest.cpp:124-129 | a function body with its temporaries declared at its head simulates the original body; for a program naming no variable that starts with `minAbsHackVar`, and stores agreeing outside that prefix |
| SkslWorkaroundExamples.MinAbsOfConstants | tests/SkSLGLSLTest.cpp:125-128 | `min(abs(-5.0), 6.0)` becomes the golden ternary with `minAbsHackVar0` and `minAbsHackVar1` and their two declarations |
| SkslWorkaroundExamples.MinAbsBody | tests/SkSLGLSLTest.cpp:103-129 | with the workaround the body gets the two declarations first; with the default capabilities it is unchanged |
| SkslCaps.LowerBody | tests/SkSLGLSLTest.cpp:103-1158 | the body the generator writes, composing the golden rewrites in order; the default capabilities give the body back, and without the do-while and min/abs workarounds no statement is added |
| SkslWorkaroundExamples.FractNegativeBody | tests/SkSLGLSLTest.cpp:132-153 | with fract unusable for negative values, `fract(-42.0)` is written as the golden formula `0.5 - sign(-42.0) * (0.5 - fract(abs(-42.0)))`; under the defaults it is written as is |
| SkslCaps.Helpers | tests/SkSLGLSLTest.cpp:1077-1080 | at most one helper, written exactly when the workaround is on and the body calls int `abs` |
| SkslCaps.DefaultWritesBodyAsIs | tests/SkSLGLSLTest.cpp:138-143 | with no workaround the body is emitted as written and no helper is written |
| SkslCaps.SpellingKeepsBehaviour | tests/SkSLGLSLTest.cpp:1031-1090 | with only the respelling workarounds on (unfolding, atan, int abs, `&& true`), the body runs exactly as the original |
| SkslTexture.Classify | tests/SkSLGLSLTest.cpp:312-315 | a lookup exists exactly for dimension or dimension + 1 coordinates; it is projective exactly for one extra coordinate on a non-rectangle sampler |
| SkslTexture.LookupArgs | tests/SkSLGLSLTest.cpp:363-366 | the sampler and coordinates come first, and sharpening appends exactly the bias -0.5 |
| SkslTexture.TextureRootShape | tests/SkSLGLSLTest.cpp:312-315 | a dispatched `sample` keeps its type, sampler and coordinates, and calls the function the dialect gives for the sampler and lookup kind |
| SkslTexture.LegacyNamesDistinct | tests/SkSLGLSLTest.cpp:333-336 | legacy lookup names differ for every sampler and lookup kind |
| SkslTexture.ModernNamesByLookup | tests/SkSLGLSLTest.cpp:312-315 | modern lookup names depend only on direct versus projective |
| SkslRuleExamples.SampleLowered | tests/SkSLGLSLTest.cpp:312-336 | a `sample` call becomes the named lookup with the dispatched arguments |
| SkslRuleExamples.ModernLookups | tests/SkSLGLSLTest.cpp:312-315 | `texture`, `texture`, `textureProj`, `textureProj` for the four golden calls |
| SkslRuleExamples.LegacyLookups | tests/SkSLGLSLTest.cpp:333-336 | `texture1D`, `texture2D`, `texture1DProj`, `texture2DProj` for the four golden calls |
| SkslRuleExamples.SharpenedLookups | tests/SkSLGLSLTest.cpp:363-391 | with sharpening the same names, each with a trailing `-0.5` |
| SkslRuleExamples.RectangleLookups | tests/SkSLGLSLTest.cpp:579-591 | a rectangle sampler uses `texture` for two and three coordinates |

## Left out

- The golden-test driver (compiling SkSL text and comparing strings) and the printer: the rules are stated on the IR, without whitespace or parentheses.
- The generator itself: SkSLGLSLCodeGenerator is not part of this model, so each rule follows its golden output.
- The front end's constant folding, the caps and cast tests, vector-literal negation, `discard` and the ternary-lvalue tests: their output comes from an optimizer that is not part of this model.
- The floating-point meaning of `sqrt`, `pow`, `exp2`, `log2`, `atan` and the texture lookups: these are the parameter `ext`. Float values are exact reals.
- SkslWorkarounds.PowValue: holds only for operands that assign nothing. The rewrite evaluates the exponent before the base, so an operand with a side effect can change the result.
- SkslWorkarounds.FractValue: proved for scalar float operands that assign nothing. The corrected rewrite evaluates its operand more than once; vector lanes are not covered.
- SkslWorkarounds.ExpLogValue: scalar operands only.
- SkslDoWhile.DoWhileExec: the rewritten program is given more fuel than the original (the nesting depth of do-while loops more). The simulation relates outcomes, not step counts. When the original runs out of fuel, any outcome of the rewritten program is accepted, so the lemma does not say that a diverging do-while still diverges after the rewrite.
- SkslDoWhile.DoWhileStmt: a do-while written directly as the branch of an `if` or the body of a loop becomes a block of its own, because no golden shows that case.
- SkslMinAbs.MinAbsExpr: only `min(abs(x), y)` with both arguments of the same scalar type is rewritten, as the golden shows; other `min`/`abs` shapes are left alone.
- The numbered counters: each workaround numbers its own temporaries from 0. The generator's sharing of counters between workarounds is not shown.
- Assignments in the IR target plain variables. Swizzle or indexed l-values, `switch`, `return`, `discard` and geometry-shader statements are not part of the IR.
- SkslCaps.LowerBody: texture dispatch and swizzle normal form are separate functions (SkslTexture.TextureRoot, SkslNormal.Normalize), not steps of the workaround pipeline.
- SkslTexture.TextureRoot: the sharpen bias on a rectangle sampler is not shown by any golden. The model appends it as for the other samplers.
- SkFixed.h float conversions, the ARM and BREW assembly overrides, and the functions that are only declared there (multiply, divide, square root, trigonometry, exp, log).
- Fixed.Abs: SkAbs32 (declared in SkTypes.h, which is not part of this model) is taken as the exact absolute value. For -2^31 that is 2^31, which is what the `uint32_t` in SkFixedSquare_portable holds after the conversion.
- Fixed.FixedNearlyZero: with the exact absolute value, -2^31 is not nearly zero. A wrapping SkAbs32 would give -2^31, which is below every tolerance, so the code would answer true there.
- The filter's pixel loops (`arith_span`, `arith_transparent`), onFilterImage, the GPU path, drawForeground, serialization, toString, onMakeColorSpace and the reverse direction of onFilterBounds: these are float SIMD, canvas or base-class code.
- ArithmeticFilter.IntersectPixmaps: a pixmap is its size and origin in pixel memory. Image info, row bytes and addresses are not modelled beyond that.
- Rects: rectangle corners and sizes are unbounded integers. The int32 sums SkIRect forms (dx + width, dy + height) can overflow in the code, and that overflow is not modelled.

## Findings

| source | as written | input that shows it | evidently intended | confidence | as-written member | corrected member |
|---|---|---|---|---|---|---|
| include/corecg/SkFixed.h:83-89 | `x & 0xFFFF \| (x >> 31 << 16)` | x = -2.0 (-131072) gives -1.0 (-65536) | the signed fraction of a whole number is 0 | medium, not executed | Fixed.FixedFractionOfNegativeWhole | Fixed.SignedFraction |
| tests/SkSLGLSLTest.cpp:148 | `fract(x)` becomes `0.5 - sign(x) * (0.5 - fract(abs(x)))` | x = -42.0 (the golden's own input) gives 1.0 where fract gives 0.0; x = 0.0 gives 0.5 | fract(x) for every x | high, not executed | SkslWorkarounds.FractAsWrittenCounterexample | SkslWorkarounds.FractValue |
