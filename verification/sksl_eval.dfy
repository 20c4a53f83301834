/** A reference semantics for the IR: expressions evaluate left to right over
    a store of variables, statements run with a fuel bound on loop
    iterations. It is the yardstick the rewrite rules are proved against. */
module SkslEval {
  import opened Options
  import opened SkslIr

  datatype Value = BoolV(b: bool) | IntV(i: int) | FloatV(xs: seq<real>)

  type Store = map<string, Value>

  /** The built-in functions whose meaning the model leaves open (sqrt, atan,
      pow, exp2, log2, texture lookups): a fixed but arbitrary function. */
  type Ext = (string, seq<Value>) -> Option<Value>

  datatype Evaluated = Evaluated(value: Value, store: Store)
  datatype EvaluatedArgs = EvaluatedArgs(values: seq<Value>, store: Store)

  predicate HasType(v: Value, t: Type) {
    match v
    case BoolV(_) => t == BoolType
    case IntV(_) => t == IntType
    case FloatV(xs) => 1 <= |xs| <= 4 && t == FloatVec(|xs|)
  }

  function RealAbs(x: real): real { if x < 0.0 then -x else x }
  function RealSign(x: real): real { if x < 0.0 then -1.0 else if x == 0.0 then 0.0 else 1.0 }
  function IntAbs(x: int): int { if x < 0 then -x else x }
  function IntSign(x: int): int { if x < 0 then -1 else if x == 0 then 0 else 1 }

  /** GLSL's fract: x - floor(x). */
  function Fract(x: real): real { x - x.Floor as real }

  function MapReal(f: real -> real, xs: seq<real>): (ys: seq<real>)
    ensures |ys| == |xs|
    ensures forall k :: 0 <= k < |xs| ==> ys[k] == f(xs[k])
  {
    seq(|xs|, k requires 0 <= k < |xs| => f(xs[k]))
  }

  /** Lane `k` of an operand, a scalar operand standing for every lane. */
  function Lane(xs: seq<real>, k: nat): real
    requires |xs| == 1 || k < |xs|
  {
    if |xs| == 1 then xs[0] else xs[k]
  }

  function ApplyReal(op: BinOp, a: real, b: real): real {
    match op
    case Add => a + b
    case Sub => a - b
    case _ => a * b
  }

  function Arith(op: BinOp, a: Value, b: Value): Option<Value> {
    match (a, b)
    case (IntV(x), IntV(y)) =>
      (match op
       case Add => Some(IntV(x + y))
       case Sub => Some(IntV(x - y))
       case Mul => Some(IntV(x * y))
       case Less => Some(BoolV(x < y))
       case Equal => Some(BoolV(x == y))
       case _ => None)
    case (FloatV(xs), FloatV(ys)) =>
      if op.Less? then
        (if |xs| == 1 && |ys| == 1 then Some(BoolV(xs[0] < ys[0])) else None)
      else if op.Equal? then Some(BoolV(xs == ys))
      else if (op.Add? || op.Sub? || op.Mul?) && 1 <= |xs| && 1 <= |ys|
              && (|xs| == |ys| || |xs| == 1 || |ys| == 1) then
        var n := if |xs| >= |ys| then |xs| else |ys|;
        Some(FloatV(seq(n, k requires 0 <= k < n => ApplyReal(op, Lane(xs, k), Lane(ys, k)))))
      else None
    case (BoolV(x), BoolV(y)) => if op.Equal? then Some(BoolV(x == y)) else None
    case _ => None
  }

  function Negate(v: Value): Option<Value> {
    match v
    case IntV(i) => Some(IntV(-i))
    case FloatV(xs) => Some(FloatV(MapReal(x => -x, xs)))
    case BoolV(_) => None
  }

  /** The value of one selector applied to the base's components. */
  function Pick(xs: seq<real>, c: Component): real {
    match c
    case Field(i) => if i < |xs| then xs[i] else 0.0
    case Zero => 0.0
    case One => 1.0
  }

  function Select(xs: seq<real>, mask: seq<Component>): (ys: seq<real>)
    ensures |ys| == |mask|
    ensures forall j :: 0 <= j < |mask| ==> ys[j] == Pick(xs, mask[j])
  {
    seq(|mask|, j requires 0 <= j < |mask| => Pick(xs, mask[j]))
  }

  /** Every field selector names a component the base has. */
  predicate FieldsWithin(mask: seq<Component>, n: nat)
    ensures FieldsWithin(mask, n) <==> forall j :: 0 <= j < |mask| && mask[j].Field? ==> mask[j].index < n
  {
    |mask| == 0 || ((mask[0].Field? ==> mask[0].index < n) && FieldsWithin(mask[1..], n))
  }

  /** The components a vector constructor receives, integers converted. */
  function Flatten(vals: seq<Value>): Option<seq<real>> {
    if |vals| == 0 then Some([])
    else
      var rest :- Flatten(vals[1..]);
      match vals[0]
      case FloatV(xs) => Some(xs + rest)
      case IntV(i) => Some([i as real] + rest)
      case BoolV(_) => None
  }

  /** A float vector constructor: one scalar argument is splatted, otherwise
      the arguments' components must fill the vector exactly. */
  function BuildVector(ty: Type, vals: seq<Value>): Option<Value> {
    if !ty.Type? || ty.kind != FloatKind || !(1 <= ty.columns <= 4) then None
    else
      var flat :- Flatten(vals);
      if |vals| == 1 && |flat| == 1 then Some(FloatV(seq(ty.columns, _ => flat[0])))
      else if |flat| == ty.columns then Some(FloatV(flat))
      else None
  }

  /** Built-in functions with a fixed meaning; all others go to `ext`.
      `_absemulation` is the helper the generator adds to a program in place
      of integer `abs`, whose body is `x * sign(x)`. */
  function Intrinsic(fn: string, vals: seq<Value>, ext: Ext): Option<Value> {
    if fn == "abs" && |vals| == 1 then
      (match vals[0]
       case IntV(i) => Some(IntV(IntAbs(i)))
       case FloatV(xs) => Some(FloatV(MapReal(RealAbs, xs)))
       case _ => None)
    else if fn == "sign" && |vals| == 1 then
      (match vals[0]
       case IntV(i) => Some(IntV(IntSign(i)))
       case FloatV(xs) => Some(FloatV(MapReal(RealSign, xs)))
       case _ => None)
    else if fn == "fract" && |vals| == 1 then
      (match vals[0]
       case FloatV(xs) => Some(FloatV(MapReal(Fract, xs)))
       case _ => None)
    else if fn == "min" && |vals| == 2 then
      (match (vals[0], vals[1])
       case (IntV(a), IntV(b)) => Some(IntV(if b < a then b else a))
       case (FloatV(xs), FloatV(ys)) =>
         if |xs| == |ys| then Some(FloatV(seq(|xs|, k requires 0 <= k < |xs| => if ys[k] < xs[k] then ys[k] else xs[k])))
         else None
       case _ => None)
    else if fn == "_absemulation" && |vals| == 1 then
      (match vals[0]
       case IntV(i) => Some(IntV(i * IntSign(i)))
       case _ => None)
    else ext(fn, vals)
  }

  /** Evaluates `e` in `st`: its value and the store after its assignments,
      or None when evaluation gets stuck on a value of the wrong shape. Every
      value must have the expression's static type. */
  function Eval(e: Expr, st: Store, ext: Ext): Option<Evaluated>
    decreases e, 1
  {
    var raw :=
      match e
      case BoolLit(b) => Some(Evaluated(BoolV(b), st))
      case IntLit(i) => Some(Evaluated(IntV(i), st))
      case FloatLit(x) => Some(Evaluated(FloatV([x]), st))
      case Var(x, _) => if x in st then Some(Evaluated(st[x], st)) else None
      case Neg(a) =>
        (var ra :- Eval(a, st, ext);
         var v :- Negate(ra.value);
         Some(Evaluated(v, ra.store)))
      case Not(a) =>
        (var ra :- Eval(a, st, ext);
         if ra.value.BoolV? then Some(Evaluated(BoolV(!ra.value.b), ra.store)) else None)
      case Binary(l, op, r) =>
        (var rl :- Eval(l, st, ext);
         if op.And? || op.Or? then
           if !rl.value.BoolV? then None
           else if op.And? && !rl.value.b then Some(rl)
           else if op.Or? && rl.value.b then Some(rl)
           else Eval(r, rl.store, ext)
         else
           var rr :- Eval(r, rl.store, ext);
           var v :- Arith(op, rl.value, rr.value);
           Some(Evaluated(v, rr.store)))
      case Ternary(c, t, f) =>
        (var rc :- Eval(c, st, ext);
         if !rc.value.BoolV? then None
         else if rc.value.b then Eval(t, rc.store, ext)
         else Eval(f, rc.store, ext))
      case Call(fn, args, _) =>
        (var ra :- EvalArgs(args, st, ext);
         var v :- Intrinsic(fn, ra.values, ext);
         Some(Evaluated(v, ra.store)))
      case Construct(ty, args) =>
        (var ra :- EvalArgs(args, st, ext);
         var v :- BuildVector(ty, ra.values);
         Some(Evaluated(v, ra.store)))
      case Swizzle(b, mask) =>
        (var rb :- Eval(b, st, ext);
         if rb.value.FloatV? && FieldsWithin(mask, |rb.value.xs|) then
           Some(Evaluated(FloatV(Select(rb.value.xs, mask)), rb.store))
         else None)
      case Assign(x, a) =>
        (var ra :- Eval(a, st, ext);
         Some(Evaluated(ra.value, ra.store[x := ra.value])));
    if raw.Some? && HasType(raw.value.value, TypeOf(e)) then raw else None
  }

  /** Evaluates call or constructor arguments left to right. */
  function EvalArgs(args: seq<Expr>, st: Store, ext: Ext): Option<EvaluatedArgs>
    decreases args, 2
  {
    if |args| == 0 then Some(EvaluatedArgs([], st))
    else
      var r0 :- Eval(args[0], st, ext);
      var rest :- EvalArgs(args[1..], r0.store, ext);
      Some(EvaluatedArgs([r0.value] + rest.values, rest.store))
  }

  /** How a statement finishes: normally, by `break`, by `continue`, stuck
      on an ill-shaped value, or out of loop fuel. */
  datatype Outcome = Normal(store: Store) | Broke(store: Store) | Continued(store: Store) | Stuck | OutOfFuel

  /** Runs a statement; `fuel` bounds the iterations of every loop. A
      declaration without initializer leaves the variable undefined. */
  function Exec(s: Stmt, st: Store, fuel: nat, ext: Ext): Outcome
    decreases fuel, s
  {
    match s
    case ExprStmt(e) =>
      (match Eval(e, st, ext)
       case None => Stuck
       case Some(r) => Normal(r.store))
    case VarDecl(ty, x, init) =>
      (match init
       case None => Normal(st - {x})
       case Some(e) =>
         match Eval(e, st, ext)
         case None => Stuck
         case Some(r) => if HasType(r.value, ty) then Normal(r.store[x := r.value]) else Stuck)
    case Block(ss) => ExecBlock(ss, st, fuel, ext)
    case If(c, t, f) =>
      (match Eval(c, st, ext)
       case None => Stuck
       case Some(r) =>
         if !r.value.BoolV? then Stuck
         else if r.value.b then Exec(t, r.store, fuel, ext)
         else Exec(f, r.store, fuel, ext))
    case For(init, test, next, body) =>
      (match Exec(init, st, fuel, ext)
       case Normal(st1) => Loop(test, next, body, st1, fuel, ext)
       case o => o)
    case While(c, body) => Loop(Some(c), None, body, st, fuel, ext)
    case Do(body, c) =>
      (match Exec(body, st, fuel, ext)
       case Normal(st1) => Loop(Some(c), None, body, st1, fuel, ext)
       case Continued(st1) => Loop(Some(c), None, body, st1, fuel, ext)
       case Broke(st1) => Normal(st1)
       case o => o)
    case Break => Broke(st)
    case Continue => Continued(st)
  }

  function ExecBlock(ss: seq<Stmt>, st: Store, fuel: nat, ext: Ext): Outcome
    decreases fuel, ss
  {
    if |ss| == 0 then Normal(st)
    else
      match Exec(ss[0], st, fuel, ext)
      case Normal(st1) => ExecBlock(ss[1..], st1, fuel, ext)
      case o => o
  }

  /** The loop shared by `for`, `while` and the tail of `do`: test (absent
      means true), body with one unit of fuel less, then the step. */
  function Loop(test: Option<Expr>, next: Option<Expr>, body: Stmt, st: Store, fuel: nat, ext: Ext): Outcome
    decreases fuel, body, 0
  {
    if fuel == 0 then OutOfFuel
    else
      var tested := if test.None? then Some(Evaluated(BoolV(true), st)) else Eval(test.value, st, ext);
      match tested
      case None => Stuck
      case Some(r) =>
        if !r.value.BoolV? then Stuck
        else if !r.value.b then Normal(r.store)
        else
          match Exec(body, r.store, fuel - 1, ext)
          case Broke(st1) => Normal(st1)
          case Normal(st1) => LoopNext(test, next, body, st1, fuel - 1, ext)
          case Continued(st1) => LoopNext(test, next, body, st1, fuel - 1, ext)
          case o => o
  }

  function LoopNext(test: Option<Expr>, next: Option<Expr>, body: Stmt, st: Store, fuel: nat, ext: Ext): Outcome
    decreases fuel, body, 1
  {
    match next
    case None => Loop(test, next, body, st, fuel, ext)
    case Some(e) =>
      match Eval(e, st, ext)
      case None => Stuck
      case Some(r) => Loop(test, next, body, r.store, fuel, ext)
  }
}
