/** Removal of neutral operands from translated integer expressions (lib/AST/ASTTranslate.cpp):
    +0, -0, *1, /1 and their negated forms, innermost expressions first. */
module Neutral {
  import opened Folds

  datatype Operator = Add | Sub | Mul | Div | Rem

  /** Integer expressions without casts; a literal is never negative in C. */
  datatype Expr =
    | Literal(value: nat)
    | Variable(name: nat)
    | Minus(operand: Expr)
    | Paren(inner: Expr)
    | Binary(op: Operator, left: Expr, right: Expr)

  /** C's division rounds toward zero. */
  function TruncatedQuotient(a: int, b: int): int
    requires b != 0
  {
    var q := Abs(a) / Abs(b);
    if (a < 0) == (b < 0) then q else -q
  }

  /** Addition and multiplication count up, subtraction and negation undo. */
  lemma ArithmeticLaws(a: int, b: int, env: nat -> int, e: Expr)
    ensures Apply(Add, a, 0) == Some(a) && Apply(Add, a, b + 1) == Some(Apply(Add, a, b).value + 1)
    ensures Apply(Sub, Apply(Add, a, b).value, b) == Some(a)
    ensures Apply(Mul, a, 0) == Some(0) && Apply(Mul, a, b + 1) == Some(Apply(Mul, a, b).value + a)
    ensures Eval(e, env).Some? ==> Eval(Binary(Add, e, Minus(e)), env) == Some(0)
  {
  }

  /** Division with a remainder that is smaller than the divisor and has the dividend's sign: that
      determines both, and Rem is that remainder. */
  lemma QuotientLaws(a: int, b: int)
    requires b != 0
    ensures var q, r := TruncatedQuotient(a, b), a - b * TruncatedQuotient(a, b);
      && Abs(r) < Abs(b) && (a >= 0 ==> r >= 0) && (a <= 0 ==> r <= 0)
      && Apply(Div, a, b) == Some(q) && Apply(Rem, a, b) == Some(r)
  {
    var n: int, d: int := Abs(a), Abs(b);
    assert n == d * (n / d) + n % d;
    SignedProduct(a, b, n / d);
    var q := TruncatedQuotient(a, b);
    assert b * q == if a < 0 then n % d - n else n - n % d;
  }

  lemma SignedProduct(a: int, b: int, q: int)
    requires b != 0
    ensures b * (if (a < 0) == (b < 0) then q else -q) == if a < 0 then -(Abs(b) * q) else Abs(b) * q
  {
  }

  function Abs(a: int): nat { if a < 0 then -a else a }

  function Apply(op: Operator, a: int, b: int): Option<int> {
    match op
    case Add => Some(a + b)
    case Sub => Some(a - b)
    case Mul => Some(a * b)
    case Div => if b == 0 then None else Some(TruncatedQuotient(a, b))
    case Rem => if b == 0 then None else Some(a - b * TruncatedQuotient(a, b))
  }

  /** None: a division by zero somewhere inside. */
  function Eval(e: Expr, env: nat -> int): Option<int> {
    match e
    case Literal(v) => Some(v)
    case Variable(x) => Some(env(x))
    case Minus(a) => var v := Eval(a, env); if v.None? then None else Some(-v.value)
    case Paren(a) => Eval(a, env)
    case Binary(op, l, r) =>
      var a, b := Eval(l, env), Eval(r, env);
      if a.None? || b.None? then None else Apply(op, a.value, b.value)
  }

  function IgnoreParens(e: Expr): Expr {
    if e.Paren? then IgnoreParens(e.inner) else e
  }

  datatype Side = Neither | Left | Right

  /** The operand that stays when the other one is the given literal; the right one is looked
      at first. */
  function StripLiteral(left: Expr, right: Expr, value: nat): Side {
    if right == Literal(value) then Left
    else if left == Literal(value) then Right
    else Neither
  }

  function Negated(e: Expr): Expr { Minus(Paren(e)) }

  /** A binary expression over operands that have been stripped already. */
  function StripBinary(op: Operator, left: Expr, right: Expr): Expr {
    var l, r := IgnoreParens(left), IgnoreParens(right);
    match op
    case Add | Sub =>
      (match StripLiteral(l, r, 0)
       case Left => l
       case Right => if op.Sub? then Negated(r) else r
       case Neither => Binary(op, left, right))
    case Mul | Div =>
      var negate := l.Minus? != r.Minus?;
      var l', r' := if l.Minus? then l.operand else l, if r.Minus? then r.operand else r;
      (match StripLiteral(l', r', 1)
       case Left => if negate then Negated(l') else l'
       case Right => if op.Div? then Binary(op, left, right) else if negate then Negated(r') else r'
       case Neither => Binary(op, left, right))
    case Rem => Binary(op, left, right)
  }

  function Strip(e: Expr): Expr {
    match e
    case Literal(_) => e
    case Variable(_) => e
    case Minus(a) => Minus(Strip(a))
    case Paren(a) => Paren(Strip(a))
    case Binary(op, l, r) => StripBinary(op, Strip(l), Strip(r))
  }

  // --------------------------------------------------------------- meaning is preserved

  lemma {:induction false} ParensMeanNothing(e: Expr, env: nat -> int)
    ensures Eval(IgnoreParens(e), env) == Eval(e, env)
  {
    if e.Paren? { ParensMeanNothing(e.inner, env); }
  }

  lemma QuotientByOne(a: int)
    ensures TruncatedQuotient(a, 1) == a && TruncatedQuotient(a, -1) == -a
  {
  }

  lemma SumKeepsValue(op: Operator, left: Expr, right: Expr, env: nat -> int)
    requires op.Add? || op.Sub?
    ensures Eval(StripBinary(op, left, right), env) == Eval(Binary(op, left, right), env)
  {
    ParensMeanNothing(left, env);
    ParensMeanNothing(right, env);
    hide IgnoreParens;
  }

  function Negative(v: Option<int>): Option<int> { if v.None? then None else Some(-v.value) }

  lemma TimesOne(op: Operator, l: Expr, r: Expr, env: nat -> int)
    requires (op.Mul? || op.Div?) && (r == Literal(1) || r == Minus(Literal(1)))
    ensures Eval(Binary(op, l, r), env) == if r.Minus? then Negative(Eval(l, env)) else Eval(l, env)
  {
    hide TruncatedQuotient;
    var a := Eval(l, env);
    if a.Some? { QuotientByOne(a.value); }
  }

  lemma OneTimes(l: Expr, r: Expr, env: nat -> int)
    requires l == Literal(1) || l == Minus(Literal(1))
    ensures Eval(Binary(Mul, l, r), env) == if l.Minus? then Negative(Eval(r, env)) else Eval(r, env)
  {
    hide TruncatedQuotient;
    OneIs(l, env);
  }

  lemma OneIs(e: Expr, env: nat -> int)
    requires e == Literal(1) || e == Minus(Literal(1))
    ensures Eval(e, env) == Some(if e.Minus? then -1 else 1)
  {
  }

  lemma SignsMean(e: Expr, env: nat -> int)
    ensures Eval(Negated(e), env) == Negative(Eval(e, env))
    ensures e.Minus? ==> Eval(e, env) == Negative(Eval(e.operand, env))
  {
  }

  lemma ParensAroundOperands(op: Operator, left: Expr, right: Expr, env: nat -> int)
    ensures Eval(Binary(op, left, right), env) == Eval(Binary(op, IgnoreParens(left), IgnoreParens(right)), env)
  {
    ParensMeanNothing(left, env);
    ParensMeanNothing(right, env);
    hide IgnoreParens, Apply;
  }

  lemma ProductKeepsValue(op: Operator, left: Expr, right: Expr, env: nat -> int)
    requires op.Mul? || op.Div?
    ensures Eval(StripBinary(op, left, right), env) == Eval(Binary(op, left, right), env)
  {
    hide IgnoreParens, Eval, Negated;
    ParensAroundOperands(op, left, right, env);
    var l, r := IgnoreParens(left), IgnoreParens(right);
    var l', r' := if l.Minus? then l.operand else l, if r.Minus? then r.operand else r;
    SignsMean(l, env);
    SignsMean(l', env);
    SignsMean(r, env);
    SignsMean(r', env);
    if r' == Literal(1) {
      TimesOne(op, l, r, env);
    } else if l' == Literal(1) && op.Mul? {
      OneTimes(l, r, env);
    }
  }

  /** Stripping preserves the value of every expression, division by zero included. */
  lemma {:induction false} StripKeepsValue(e: Expr, env: nat -> int)
    ensures Eval(Strip(e), env) == Eval(e, env)
  {
    match e
    case Literal(_) =>
    case Variable(_) =>
    case Minus(a) => StripKeepsValue(a, env);
    case Paren(a) => StripKeepsValue(a, env);
    case Binary(op, l, r) =>
      StripKeepsValue(l, env);
      StripKeepsValue(r, env);
      match op {
        case Add | Sub => SumKeepsValue(op, Strip(l), Strip(r), env);
        case Mul | Div => ProductKeepsValue(op, Strip(l), Strip(r), env);
        case Rem =>
      }
  }

  // ------------------------------------------------------------- nothing neutral is left

  /** No operation in e has an operand that could be dropped. */
  predicate NothingNeutral(e: Expr) {
    match e
    case Literal(_) => true
    case Variable(_) => true
    case Minus(a) => NothingNeutral(a)
    case Paren(a) => NothingNeutral(a)
    case Binary(op, l, r) => NothingNeutral(l) && NothingNeutral(r) && !Neutral(op, l, r)
  }

  /** One operand is a neutral literal, up to parentheses and, for products, sign; 1/x and 0-x
      differ: the latter is a negation, the former has no simpler form. */
  predicate Neutral(op: Operator, left: Expr, right: Expr) {
    match op
    case Add | Sub => IgnoreParens(right) == Literal(0) || IgnoreParens(left) == Literal(0)
    case Mul => Unsigned(right) == Literal(1) || Unsigned(left) == Literal(1)
    case Div => Unsigned(right) == Literal(1)
    case Rem => false
  }

  function Unsigned(e: Expr): Expr {
    var i := IgnoreParens(e);
    if i.Minus? then i.operand else i
  }

  lemma {:induction false} InsideParens(e: Expr)
    requires NothingNeutral(e)
    ensures NothingNeutral(IgnoreParens(e))
  {
    if e.Paren? { InsideParens(e.inner); }
  }

  /** What is stripped is gone for good, and only that: an expression is left alone exactly
      when nothing in it is neutral. */
  lemma {:induction false} StripLeavesNothingNeutral(e: Expr)
    ensures NothingNeutral(Strip(e))
  {
    match e
    case Literal(_) =>
    case Variable(_) =>
    case Minus(a) => StripLeavesNothingNeutral(a);
    case Paren(a) => StripLeavesNothingNeutral(a);
    case Binary(op, l, r) =>
      StripLeavesNothingNeutral(l);
      StripLeavesNothingNeutral(r);
      InsideParens(Strip(l));
      InsideParens(Strip(r));
  }

  lemma {:induction false} StripFixpointIff(e: Expr)
    ensures Strip(e) == e <==> NothingNeutral(e)
  {
    StripLeavesNothingNeutral(e);
    if NothingNeutral(e) { NothingToStrip(e); }
  }

  lemma {:induction false} NothingToStrip(e: Expr)
    requires NothingNeutral(e)
    ensures Strip(e) == e
  {
    match e
    case Literal(_) =>
    case Variable(_) =>
    case Minus(a) => NothingToStrip(a);
    case Paren(a) => NothingToStrip(a);
    case Binary(op, l, r) =>
      NothingToStrip(l);
      NothingToStrip(r);
  }

  /** A second pass changes nothing. */
  lemma StripTwice(e: Expr)
    ensures Strip(Strip(e)) == Strip(e)
  {
    StripLeavesNothingNeutral(e);
    NothingToStrip(Strip(e));
  }

  /** What is stripped of a sum: 0 on either side, with a minus left in front of 0-x. */
  lemma SumForms(e: Expr)
    ensures var s := IgnoreParens(Strip(e));
      && Strip(Binary(Add, e, Literal(0))) == s == Strip(Binary(Add, Literal(0), e))
      && Strip(Binary(Sub, e, Literal(0))) == s
      && (s != Literal(0) ==> Strip(Binary(Sub, Literal(0), e)) == Minus(Paren(s)))
  {
    var t := Strip(e);
    assert StripBinary(Add, t, Literal(0)) == IgnoreParens(t) == StripBinary(Add, Literal(0), t);
    assert StripBinary(Sub, t, Literal(0)) == IgnoreParens(t);
  }

  /** Of a product, 1 on either side, and of a quotient, 1 on the right, with the sign of a negated
      1 moved in front. */
  lemma ProductForms(e: Expr)
    requires !IgnoreParens(Strip(e)).Minus?
    ensures var s := IgnoreParens(Strip(e));
      && Strip(Binary(Mul, e, Literal(1))) == s == Strip(Binary(Mul, Literal(1), e))
      && Strip(Binary(Div, e, Literal(1))) == s
  {
    var t := Strip(e);
    assert StripBinary(Mul, t, Literal(1)) == IgnoreParens(t) == StripBinary(Mul, Literal(1), t);
    assert StripBinary(Div, t, Literal(1)) == IgnoreParens(t);
  }

  lemma SignedForms(e: Expr)
    requires !IgnoreParens(Strip(e)).Minus?
    ensures var s := IgnoreParens(Strip(e));
      Strip(Binary(Mul, e, Minus(Literal(1)))) == Minus(Paren(s)) == Strip(Binary(Div, e, Minus(Literal(1))))
  {
    var t, one := Strip(e), Minus(Literal(1));
    assert Strip(one) == one;
    assert StripBinary(Mul, t, one) == Minus(Paren(IgnoreParens(t))) == StripBinary(Div, t, one);
  }

  /** What stays: quotients of 1, remainders, and other literals. */
  lemma KeptForms(e: Expr, n: nat)
    ensures Strip(Binary(Div, Literal(1), Variable(n))) == Binary(Div, Literal(1), Variable(n))
    ensures Strip(Binary(Rem, e, Literal(1))) == Binary(Rem, Strip(e), Literal(1))
    ensures n != 0 ==> Strip(Binary(Add, Variable(n), Literal(n))) == Binary(Add, Variable(n), Literal(n))
    ensures n != 1 ==> Strip(Binary(Mul, Variable(n), Literal(n))) == Binary(Mul, Variable(n), Literal(n))
  {
  }
}
