/** The expression templates of gmpxx.h over variables of any one number type: operator
    functions build a tree, and eval writes its value into a target that may itself
    occur in the tree. */
module Gmpxx {

  /** An mpz_class object, or one of another number type. */
  class Number<T(0)> {
    var value: T

    constructor ()
    {
    }
  }

  /** An expression: a variable, a built-in number, or an operator node.  The
      operators are arbitrary; their mpz and mpq functions allow all operands to coincide. */
  datatype Expr<!T(0)> =
    | Var(v: Number<T>)
    | Builtin(n: T)
    | Unary(f: T -> T, arg: Expr<T>)
    | Binary(g: (T, T) -> T, left: Expr<T>, right: Expr<T>)

  /** Whether there is a specialisation of __gmp_expr: two built-in operands never
      make an expression object. */
  predicate WellFormed<T(0)>(e: Expr<T>) {
    match e
    case Var(v) => true
    case Builtin(n) => true
    case Unary(f, a) => WellFormed(a)
    case Binary(g, l, r) => WellFormed(l) && WellFormed(r) && !(l.Builtin? && r.Builtin?)
  }

  predicate Compound<T(0)>(e: Expr<T>) {
    e.Unary? || e.Binary?
  }

  function Vars<T(0)>(e: Expr<T>): set<Number<T>> {
    match e
    case Var(v) => {v}
    case Builtin(n) => {}
    case Unary(f, a) => Vars(a)
    case Binary(g, l, r) => Vars(l) + Vars(r)
  }

  /** A tree only mentions objects that exist, so a new object is not among them. */
  lemma VarsAllocated<T(0)>(e: Expr<T>)
    ensures forall v :: v in Vars(e) ==> allocated(v)
  {
    match e
    case Var(v) =>
    case Builtin(n) =>
    case Unary(f, a) => VarsAllocated(a);
    case Binary(g, l, r) => VarsAllocated(l); VarsAllocated(r);
  }

  /** The value of the expression in the current store. */
  ghost function Denote<T(0)>(e: Expr<T>): T
    reads Vars(e)
  {
    match e
    case Var(v) => v.value
    case Builtin(n) => n
    case Unary(f, a) => f(Denote(a))
    case Binary(g, l, r) => g(Denote(l), Denote(r))
  }

  /** __gmp_set_expr: evaluate into a target, for leaves too. */
  method SetExpr<T(0)>(p: Number<T>, e: Expr<T>)
    requires WellFormed(e)
    modifies p
    ensures p.value == old(Denote(e))
    ensures e.Var? ==> p.value == old(e.v.value)
    ensures e.Builtin? ==> p.value == e.n
    decreases e, 2
  {
    match e
    case Var(v) => p.value := v.value;
    case Builtin(n) => p.value := n;
    case Unary(_, _) => Eval(e, p);
    case Binary(_, _, _) => Eval(e, p);
  }

  /** __gmp_temp: a new object holding the value of an expression. */
  method Temp<T(0)>(e: Expr<T>) returns (t: Number<T>)
    requires WellFormed(e)
    ensures fresh(t) && t.value == old(Denote(e))
    decreases e, 3
  {
    VarsAllocated(e);
    t := new Number();
    SetExpr(t, e);
  }

  /** eval of every specialisation.  However the target occurs in the tree, it ends
      with the value the expression had before, and no other object changes. */
  method Eval<T(0)>(e: Expr<T>, p: Number<T>)
    requires WellFormed(e) && Compound(e)
    modifies p
    ensures p.value == old(Denote(e))
    ensures e.Unary? ==> p.value == e.f(old(Denote(e.arg)))
    ensures e.Binary? ==> p.value == e.g(old(Denote(e.left)), old(Denote(e.right)))
    ensures e.Binary? && e.left.Var? && e.right.Var? ==>
      p.value == e.g(old(e.left.v.value), old(e.right.v.value))
    ensures e.Binary? && e.left.Var? && e.right.Builtin? ==> p.value == e.g(old(e.left.v.value), e.right.n)
    ensures e.Binary? && e.left.Builtin? && e.right.Var? ==> p.value == e.g(e.left.n, old(e.right.v.value))
    decreases e, 1
  {
    match e
    case Unary(f, a) => EvalUnary(f, a, p);
    case Binary(g, l, r) =>
      if Compound(l) && Compound(r) {
        EvalBothCompound(e, p);
      } else if Compound(r) {
        EvalRightCompound(g, l, r, p);
      } else if Compound(l) {
        EvalLeftCompound(g, l, r, p);
      } else {
        EvalSimple(g, l, r, p);
      }
  }

  method EvalUnary<T(0)>(f: T -> T, a: Expr<T>, p: Number<T>)
    requires WellFormed(a)
    modifies p
    ensures p.value == old(f(Denote(a)))
    decreases a, 4
  {
    match a
    case Var(v) => p.value := f(v.value);
    case Builtin(n) => p.value := f(n);
    case Unary(_, _) => Eval(a, p); p.value := f(p.value);
    case Binary(_, _, _) => Eval(a, p); p.value := f(p.value);
  }

  /** The value of a variable or a built-in operand, read when the operator runs. */
  function Operand<T(0)>(e: Expr<T>): T
    requires !Compound(e)
    reads Vars(e)
  {
    match e
    case Var(v) => v.value
    case Builtin(n) => n
  }

  method EvalSimple<T(0)>(g: (T, T) -> T, l: Expr<T>, r: Expr<T>, p: Number<T>)
    requires !Compound(l) && !Compound(r)
    modifies p
    ensures p.value == old(g(Denote(l), Denote(r)))
  {
    p.value := g(Operand(l), Operand(r));
  }

  /** Only a variable that is the target needs a temporary. */
  method EvalRightCompound<T(0)>(g: (T, T) -> T, l: Expr<T>, r: Expr<T>, p: Number<T>)
    requires WellFormed(r) && !Compound(l) && Compound(r)
    modifies p
    ensures p.value == old(g(Denote(l), Denote(r)))
    decreases r, 4
  {
    if l != Var(p) {
      SetExpr(p, r);
      p.value := g(Operand(l), p.value);
    } else {
      var temp := Temp(r);
      p.value := g(Operand(l), temp.value);
    }
  }

  method EvalLeftCompound<T(0)>(g: (T, T) -> T, l: Expr<T>, r: Expr<T>, p: Number<T>)
    requires WellFormed(l) && Compound(l) && !Compound(r)
    modifies p
    ensures p.value == old(g(Denote(l), Denote(r)))
    decreases l, 4
  {
    if r != Var(p) {
      SetExpr(p, l);
      p.value := g(p.value, Operand(r));
    } else {
      var temp := Temp(l);
      p.value := g(temp.value, Operand(r));
    }
  }

  method EvalBothCompound<T(0)>(e: Expr<T>, p: Number<T>)
    requires e.Binary? && WellFormed(e) && Compound(e.left) && Compound(e.right)
    modifies p
    ensures p.value == old(Denote(e))
    ensures p.value == e.g(old(Denote(e.left)), old(Denote(e.right)))
    decreases e, 0
  {
    VarsAllocated(e.left);
    var temp2 := Temp(e.right);
    Eval(e.left, p);
    p.value := e.g(p.value, temp2.value);
  }

  /** Evaluating a tree is evaluating its two sides on their own, each into a new
      object, and giving the two values to the operator in the order of the sides. */
  method SidesApart<T(0)>(g: (T, T) -> T, l: Expr<T>, r: Expr<T>, p: Number<T>) returns (x: Number<T>, y: Number<T>)
    requires WellFormed(Binary(g, l, r))
    modifies p
    ensures fresh(x) && fresh(y) && p.value == g(x.value, y.value)
    ensures l.Var? ==> x.value == old(l.v.value)
    ensures r.Var? ==> y.value == old(r.v.value)
  {
    VarsAllocated(l);
    VarsAllocated(r);
    x := Temp(l);
    y := Temp(r);
    Eval(Binary(g, l, r), p);
  }

  /** p = (a - b) - (c - d) for integers, where the target may be any of the four. */
  method DifferenceOfDifferences(a: Number<int>, b: Number<int>, c: Number<int>, d: Number<int>, p: Number<int>)
    modifies p
    ensures p.value == (old(a.value) - old(b.value)) - (old(c.value) - old(d.value))
  {
    var minus := (x: int, y: int) => x - y;
    Eval(Binary(minus, Binary(minus, Var(a), Var(b)), Binary(minus, Var(c), Var(d))), p);
  }

  /** p = a - (b - c) and p = (a - b) - c, where only one side is a tree. */
  method DifferencesInARow(a: Number<int>, b: Number<int>, c: Number<int>, p: Number<int>, ofRight: bool)
    modifies p
    ensures p.value ==
      if ofRight then old(a.value) - (old(b.value) - old(c.value)) else (old(a.value) - old(b.value)) - old(c.value)
  {
    var minus := (x: int, y: int) => x - y;
    if ofRight {
      Eval(Binary(minus, Var(a), Binary(minus, Var(b), Var(c))), p);
    } else {
      Eval(Binary(minus, Binary(minus, Var(a), Var(b)), Var(c)), p);
    }
  }
}
