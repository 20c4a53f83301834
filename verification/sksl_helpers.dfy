/** The helper functions the generator writes ahead of a program: the
    integer-abs helper `_absemulation` is written once, before the first
    function, when some expression of the program calls `abs` on an int,
    and not at all otherwise. */
module SkslHelpers {
  import opened Options
  import opened SkslIr
  import opened SkslRewrite
  import opened SkslWorkarounds

  predicate IsAbsInt(e: Expr) {
    AbsIntRoot(e) != e
  }

  /** Some node of `e` calls `abs` on an int. */
  predicate UsesAbsInt(e: Expr)
    decreases e, 1
  {
    IsAbsInt(e) || ChildUsesAbsInt(e)
  }

  /** Some node below the root of `e` calls `abs` on an int. */
  predicate ChildUsesAbsInt(e: Expr)
    decreases e, 0
  {
    match e
    case Neg(a) => UsesAbsInt(a)
    case Not(a) => UsesAbsInt(a)
    case Binary(l, _, r) => UsesAbsInt(l) || UsesAbsInt(r)
    case Ternary(c, t, f) => UsesAbsInt(c) || UsesAbsInt(t) || UsesAbsInt(f)
    case Call(_, args, _) => ArgsUseAbsInt(args)
    case Construct(_, args) => ArgsUseAbsInt(args)
    case Swizzle(b, _) => UsesAbsInt(b)
    case Assign(_, v) => UsesAbsInt(v)
    case _ => false
  }

  predicate ArgsUseAbsInt(args: seq<Expr>)
    decreases args, 2
  {
    |args| > 0 && (UsesAbsInt(args[0]) || ArgsUseAbsInt(args[1..]))
  }

  predicate NoDuplicates(s: seq<string>) {
    forall i, j :: 0 <= i < j < |s| ==> s[i] != s[j]
  }

  /** Records that the program needs helper `name`; a helper already
      written is not written again. */
  function NoteHelper(written: seq<string>, name: string): seq<string> {
    if name in written then written else written + [name]
  }

  /** The helpers written after generating `e`, a call before its
      arguments. */
  function HelpersFor(e: Expr, written: seq<string>): seq<string>
    decreases e, 1
  {
    var w := if IsAbsInt(e) then NoteHelper(written, AbsHelper) else written;
    match e
    case Neg(a) => HelpersFor(a, w)
    case Not(a) => HelpersFor(a, w)
    case Binary(l, _, r) => HelpersFor(r, HelpersFor(l, w))
    case Ternary(c, t, f) => HelpersFor(f, HelpersFor(t, HelpersFor(c, w)))
    case Call(_, args, _) => HelpersForArgs(args, w)
    case Construct(_, args) => HelpersForArgs(args, w)
    case Swizzle(b, _) => HelpersFor(b, w)
    case Assign(_, v) => HelpersFor(v, w)
    case _ => w
  }

  function HelpersForArgs(args: seq<Expr>, written: seq<string>): seq<string>
    decreases args, 2
  {
    if |args| == 0 then written else HelpersForArgs(args[1..], HelpersFor(args[0], written))
  }

  /** What writing one helper note does to the list. */
  lemma NoteHelperSpec(written: seq<string>, name: string)
    ensures var r := NoteHelper(written, name);
      (r == written || (name !in written && r == written + [name])) && (forall x :: x in r <==> x in written || x == name)
      && (NoDuplicates(written) ==> NoDuplicates(r))
  {
  }

  /** The helper list grows only at its end, never repeats a helper, and
      ends up holding `_absemulation` exactly when it held it before or the
      expression calls `abs` on an int. */
  lemma {:induction false} HelpersOnce(e: Expr, written: seq<string>)
    ensures var r := HelpersFor(e, written);
      (r == written || (AbsHelper !in written && r == written + [AbsHelper]))
      && (NoDuplicates(written) ==> NoDuplicates(r))
      && (forall x :: x in r <==> x in written || (x == AbsHelper && UsesAbsInt(e)))
    decreases e, 1
  {
    var w := if IsAbsInt(e) then NoteHelper(written, AbsHelper) else written;
    NoteHelperSpec(written, AbsHelper);
    match e
    case Neg(a) => HelpersOnce(a, w);
    case Not(a) => HelpersOnce(a, w);
    case Binary(l, _, r) =>
      HelpersOnce(l, w);
      HelpersOnce(r, HelpersFor(l, w));
    case Ternary(c, t, f) =>
      HelpersOnce(c, w);
      HelpersOnce(t, HelpersFor(c, w));
      HelpersOnce(f, HelpersFor(t, HelpersFor(c, w)));
    case Call(_, args, _) => HelpersOnceArgs(args, w);
    case Construct(_, args) => HelpersOnceArgs(args, w);
    case Swizzle(b, _) => HelpersOnce(b, w);
    case Assign(_, v) => HelpersOnce(v, w);
    case BoolLit(_) =>
    case IntLit(_) =>
    case FloatLit(_) =>
    case Var(_, _) =>
  }

  lemma {:induction false} HelpersOnceArgs(args: seq<Expr>, written: seq<string>)
    ensures var r := HelpersForArgs(args, written);
      (r == written || (AbsHelper !in written && r == written + [AbsHelper]))
      && (NoDuplicates(written) ==> NoDuplicates(r))
      && (forall x :: x in r <==> x in written || (x == AbsHelper && ArgsUseAbsInt(args)))
    decreases args, 2
  {
    if |args| > 0 {
      HelpersOnce(args[0], written);
      HelpersOnceArgs(args[1..], HelpersFor(args[0], written));
    }
  }

  /* ----- A whole function body ----- */

  function OptExprs(e: Option<Expr>): seq<Expr> {
    match e
    case None => []
    case Some(x) => [x]
  }

  /** The expressions of a statement, in the order they are written. */
  function StmtExprs(s: Stmt): seq<Expr>
    decreases s
  {
    match s
    case ExprStmt(e) => [e]
    case VarDecl(_, _, init) => OptExprs(init)
    case Block(ss) => BlockExprs(ss)
    case If(c, t, f) => [c] + StmtExprs(t) + StmtExprs(f)
    case For(init, test, next, body) => StmtExprs(init) + OptExprs(test) + OptExprs(next) + StmtExprs(body)
    case While(c, body) => [c] + StmtExprs(body)
    case Do(body, c) => StmtExprs(body) + [c]
    case Break => []
    case Continue => []
  }

  function BlockExprs(ss: seq<Stmt>): seq<Expr>
    decreases ss
  {
    if |ss| == 0 then [] else StmtExprs(ss[0]) + BlockExprs(ss[1..])
  }

  function HelpersForExprs(es: seq<Expr>, written: seq<string>): seq<string> {
    if |es| == 0 then written else HelpersForExprs(es[1..], HelpersFor(es[0], written))
  }

  /** The helpers written ahead of a program whose only function has body
      `body`. */
  function ProgramHelpers(body: seq<Stmt>): seq<string> {
    HelpersForExprs(BlockExprs(body), [])
  }

  lemma {:induction false} HelpersOnceExprs(es: seq<Expr>, written: seq<string>)
    ensures var r := HelpersForExprs(es, written);
      (r == written || (AbsHelper !in written && r == written + [AbsHelper]))
      && (NoDuplicates(written) ==> NoDuplicates(r))
      && (forall x :: x in r <==> x in written || (x == AbsHelper && exists i :: 0 <= i < |es| && UsesAbsInt(es[i])))
    decreases es
  {
    if |es| > 0 {
      HelpersOnce(es[0], written);
      HelpersOnceExprs(es[1..], HelpersFor(es[0], written));
      if exists i :: 0 <= i < |es| && UsesAbsInt(es[i]) {
        var i :| 0 <= i < |es| && UsesAbsInt(es[i]);
        if i > 0 {
          assert es[1..][i - 1] == es[i];
        }
      }
      if exists i :: 0 <= i < |es[1..]| && UsesAbsInt(es[1..][i]) {
        var i :| 0 <= i < |es[1..]| && UsesAbsInt(es[1..][i]);
        assert es[i + 1] == es[1..][i];
      }
    }
  }

  /** The program's helpers: `_absemulation` once when some expression
      calls `abs` on an int, nothing otherwise. */
  lemma ProgramHelpersOnce(body: seq<Stmt>)
    ensures NoDuplicates(ProgramHelpers(body)) && |ProgramHelpers(body)| <= 1
    ensures ProgramHelpers(body) == [AbsHelper] <==> exists i :: 0 <= i < |BlockExprs(body)| && UsesAbsInt(BlockExprs(body)[i])
  {
    var r := ProgramHelpers(body);
    HelpersOnceExprs(BlockExprs(body), []);
    assert [] + [AbsHelper] == [AbsHelper];
    assert AbsHelper in r <==> r == [AbsHelper];
  }

  /** After the rewrite no node calls `abs` on an int any more. */
  lemma {:induction false} EmulateLeavesNone(e: Expr)
    ensures !UsesAbsInt(EmulateAbsInt(e))
    decreases e, 1
  {
    ChildrenLeaveNone(e);
    var c := Children(AbsIntRoot, e);
    assert EmulateAbsInt(e) == AbsIntRoot(c);
    if IsAbsInt(c) {
      assert AbsIntRoot(c) == Call(AbsHelper, c.args, c.ty);
    }
  }

  lemma {:induction false} ChildrenLeaveNone(e: Expr)
    ensures !ChildUsesAbsInt(Children(AbsIntRoot, e))
    decreases e, 0
  {
    match e
    case Neg(a) => EmulateLeavesNone(a);
    case Not(a) => EmulateLeavesNone(a);
    case Binary(l, _, r) => EmulateLeavesNone(l); EmulateLeavesNone(r);
    case Ternary(c, t, f) => EmulateLeavesNone(c); EmulateLeavesNone(t); EmulateLeavesNone(f);
    case Call(_, args, _) => ArgsLeaveNone(args);
    case Construct(_, args) => ArgsLeaveNone(args);
    case Swizzle(b, _) => EmulateLeavesNone(b);
    case Assign(_, v) => EmulateLeavesNone(v);
    case BoolLit(_) =>
    case IntLit(_) =>
    case FloatLit(_) =>
    case Var(_, _) =>
  }

  lemma {:induction false} ArgsLeaveNone(args: seq<Expr>)
    ensures !ArgsUseAbsInt(EverywhereArgs(AbsIntRoot, args))
    decreases args, 2
  {
    if |args| > 0 {
      var r := EverywhereArgs(AbsIntRoot, args);
      assert r[0] == Everywhere(AbsIntRoot, args[0]) && r[1..] == EverywhereArgs(AbsIntRoot, args[1..]);
      EmulateLeavesNone(args[0]);
      ArgsLeaveNone(args[1..]);
    }
  }
}
