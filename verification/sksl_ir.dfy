/** The part of the SkSL intermediate representation that the GLSL rewrite
    rules read and produce: typed expressions and structured statements. */
module SkslIr {
  import opened Options

  datatype Kind = FloatKind | IntKind | BoolKind | Sampler1DKind | Sampler2DKind | Sampler2DRectKind

  /** A scalar or vector type (`columns` components), or the type of an
      expression the type checker would reject. */
  datatype Type = Type(kind: Kind, columns: nat) | Invalid

  const BoolType := Type(BoolKind, 1)
  const IntType := Type(IntKind, 1)
  const FloatType := Type(FloatKind, 1)

  function FloatVec(n: nat): Type { Type(FloatKind, n) }

  /** One selector of a swizzle mask: a component of the base (x=0 … w=3) or
      one of the literal selectors `0` and `1`. */
  datatype Component = Field(index: nat) | Zero | One

  datatype BinOp = Add | Sub | Mul | Less | Equal | And | Or

  datatype Expr =
    | BoolLit(b: bool)
    | IntLit(i: int)
    | FloatLit(x: real)
    | Var(name: string, ty: Type)
    | Neg(operand: Expr)
    | Not(operand: Expr)
    | Binary(left: Expr, op: BinOp, right: Expr)
    | Ternary(test: Expr, ifTrue: Expr, ifFalse: Expr)
    | Call(fn: string, args: seq<Expr>, ty: Type)
    | Construct(ty: Type, args: seq<Expr>)
    | Swizzle(base: Expr, mask: seq<Component>)
    | Assign(target: string, value: Expr)

  datatype Stmt =
    | ExprStmt(expr: Expr)
    | VarDecl(declType: Type, name: string, init: Option<Expr>)
    | Block(stmts: seq<Stmt>)
    | If(cond: Expr, thenS: Stmt, elseS: Stmt)
    | For(forInit: Stmt, forTest: Option<Expr>, next: Option<Expr>, body: Stmt)
    | While(cond: Expr, body: Stmt)
    | Do(body: Stmt, cond: Expr)
    | Break
    | Continue

  /** The statement a missing `else` stands for. */
  const Skip := Block([])

  /** The static type of an expression, `Invalid` where the type checker
      would reject it. Logical operators need boolean operands and a
      conditional needs a boolean test and branches of one type. */
  function TypeOf(e: Expr): Type {
    match e
    case BoolLit(_) => BoolType
    case IntLit(_) => IntType
    case FloatLit(_) => FloatType
    case Var(_, ty) => ty
    case Neg(a) => TypeOf(a)
    case Not(_) => BoolType
    case Binary(l, op, r) => BinaryType(op, TypeOf(l), TypeOf(r))
    case Ternary(c, t, f) =>
      if TypeOf(c) == BoolType && TypeOf(t) == TypeOf(f) then TypeOf(t) else Invalid
    case Call(_, _, ty) => ty
    case Construct(ty, _) => ty
    case Swizzle(b, mask) =>
      (match TypeOf(b)
       case Type(k, _) => Type(k, |mask|)
       case Invalid => Invalid)
    case Assign(_, v) => TypeOf(v)
  }

  /** The type of a binary node with operands of types `lt` and `rt`: a
      scalar operand is widened to the other operand's vector. */
  function BinaryType(op: BinOp, lt: Type, rt: Type): Type {
    if op.And? || op.Or? then
      (if lt == BoolType && rt == BoolType then BoolType else Invalid)
    else if op.Less? || op.Equal? then BoolType
    else
      (match (lt, rt)
       case (Type(_, cl), Type(_, cr)) => if cl >= cr then lt else rt
       case _ => Invalid)
  }

  /** Every variable an expression reads or assigns. */
  function Names(e: Expr): set<string> {
    match e
    case BoolLit(_) => {}
    case IntLit(_) => {}
    case FloatLit(_) => {}
    case Var(x, _) => {x}
    case Neg(a) => Names(a)
    case Not(a) => Names(a)
    case Binary(l, _, r) => Names(l) + Names(r)
    case Ternary(c, t, f) => Names(c) + Names(t) + Names(f)
    case Call(_, args, _) => ArgNames(args)
    case Construct(_, args) => ArgNames(args)
    case Swizzle(b, _) => Names(b)
    case Assign(x, v) => {x} + Names(v)
  }

  function ArgNames(args: seq<Expr>): set<string> {
    if |args| == 0 then {} else Names(args[0]) + ArgNames(args[1..])
  }

  function OptionNames(e: Option<Expr>): set<string> {
    match e
    case None => {}
    case Some(x) => Names(x)
  }

  /** Every variable a statement reads, assigns or declares. */
  function StmtNames(s: Stmt): set<string> {
    match s
    case ExprStmt(e) => Names(e)
    case VarDecl(_, x, init) => {x} + OptionNames(init)
    case Block(ss) => BlockNames(ss)
    case If(c, t, f) => Names(c) + StmtNames(t) + StmtNames(f)
    case For(init, test, next, body) => StmtNames(init) + OptionNames(test) + OptionNames(next) + StmtNames(body)
    case While(c, body) => Names(c) + StmtNames(body)
    case Do(body, c) => StmtNames(body) + Names(c)
    case Break => {}
    case Continue => {}
  }

  function BlockNames(ss: seq<Stmt>): set<string> {
    if |ss| == 0 then {} else StmtNames(ss[0]) + BlockNames(ss[1..])
  }

  /** An expression that assigns nothing. */
  predicate Pure(e: Expr) {
    match e
    case Neg(a) => Pure(a)
    case Not(a) => Pure(a)
    case Binary(l, _, r) => Pure(l) && Pure(r)
    case Ternary(c, t, f) => Pure(c) && Pure(t) && Pure(f)
    case Call(_, args, _) => PureArgs(args)
    case Construct(_, args) => PureArgs(args)
    case Swizzle(b, _) => Pure(b)
    case Assign(_, _) => false
    case _ => true
  }

  predicate PureArgs(args: seq<Expr>) {
    |args| == 0 || (Pure(args[0]) && PureArgs(args[1..]))
  }

  /** No name in `names` begins with `prefix`. */
  predicate Avoids(names: set<string>, prefix: string) {
    forall x :: x in names ==> !(prefix <= x)
  }
}
