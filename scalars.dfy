/**
 * The primitives of subrs.c that take and return single values: eq?,
 * the type predicates, not, the character and fixnum comparisons, the
 * fixnum arithmetic, symbol->string, the closure accessors and
 * procedure?.
 *
 * Every two-argument primitive tests argument 1 before argument 2, so a
 * call with two bad arguments reports index 1.  Fixnums are mathematical
 * integers here (their machine width is not part of this model).
 */
module Scalars {
  import opened Values
  import opened Chains
  import opened Strings

  // ---------------------------------------------------------------- any

  /** EQ? x y: identity, which for these values is equality of the tagged
      words (cell indices for boxed objects). */
  function Eq(x: Value, y: Value): Value
  {
    Bool(x == y)
  }

  /** NEQ? x y. */
  function Neq(x: Value, y: Value): Value
  {
    Bool(x != y)
  }

  /** `neq?` is the negation of `eq?`, `eq?` is reflexive and symmetric,
      and two distinct pair cells are never `eq?`, even with equal cars and
      cdrs. */
  lemma EqIsIdentity(cells: seq<Cell>, x: Value, y: Value)
    ensures Neq(x, y) == Not(Eq(x, y))
    ensures Eq(x, x) == Bool(true) && Eq(x, y) == Eq(y, x)
    ensures IsPair(cells, x) && IsPair(cells, y) && x.ref != y.ref ==> Eq(x, y) == Bool(false)
  {
  }

  // ---------------------------------------------------- type predicates

  function PairP(x: Value): Value { Bool(x.Pair?) }
  function NullP(x: Value): Value { Bool(x.Null?) }
  function BooleanP(x: Value): Value { Bool(x.Bool?) }
  function CharP(x: Value): Value { Bool(x.Char?) }
  function SymbolP(x: Value): Value { Bool(x.Symbol?) }
  function StringP(x: Value): Value { Bool(x.Str?) }
  function NumberP(x: Value): Value { Bool(x.Fixnum?) }
  function ClosureP(x: Value): Value { Bool(x.Closure?) }
  function EnvironmentP(x: Value): Value { Bool(x.Env?) }

  /** PROCEDURE? x: closures and natives of every calling convention. */
  function ProcedureP(x: Value): Value
  {
    match x
    case Closure(_) => Bool(true)
    case Prim(_, Subr0) => Bool(true)
    case Prim(_, Subr1) => Bool(true)
    case Prim(_, Subr2) => Bool(true)
    case Prim(_, Subr3) => Bool(true)
    case Prim(_, SubrN) => Bool(true)
    case Prim(_, FSubr) => Bool(true)
    case _ => Bool(false)
  }

  /** The number of data-type predicates that answer #t for `x`. */
  function TypeCount(x: Value): nat
  {
    (if PairP(x) == Bool(true) then 1 else 0) + (if NullP(x) == Bool(true) then 1 else 0) +
    (if BooleanP(x) == Bool(true) then 1 else 0) + (if CharP(x) == Bool(true) then 1 else 0) +
    (if SymbolP(x) == Bool(true) then 1 else 0) + (if StringP(x) == Bool(true) then 1 else 0) +
    (if NumberP(x) == Bool(true) then 1 else 0) + (if ClosureP(x) == Bool(true) then 1 else 0) +
    (if EnvironmentP(x) == Bool(true) then 1 else 0)
  }

  /** The data-type predicates are disjoint: at most one of them holds, and
      exactly one holds for every value except natives and the unspecified
      value.  `procedure?` holds exactly for closures and natives. */
  lemma TypePredicatesPartition(x: Value)
    ensures TypeCount(x) <= 1
    ensures TypeCount(x) == 1 <==> !x.Prim? && !x.Unspecified?
    ensures ProcedureP(x) == Bool(true) <==> x.Closure? || x.Prim?
  {
  }

  // ------------------------------------------------------------ boolean

  /** NOT x: only #f is false; every other value, the empty list and the
      fixnum 0 included, counts as true. */
  function Not(x: Value): (r: Value)
    ensures r == Bool(true) || r == Bool(false)
    ensures r == Bool(true) <==> x == Bool(false)
  {
    if x == Bool(false) then Bool(true) else Bool(false)
  }

  /** `not` is an involution on booleans. */
  lemma NotNot(x: Value)
    requires x.Bool?
    ensures Not(Not(x)) == x
  {
  }

  // ------------------------------------------------------- comparisons

  datatype Comparison = Equal | Less | LessEqual | Greater | GreaterEqual

  /** The integer relation a comparison primitive computes. */
  predicate Holds(c: Comparison, a: int, b: int)
  {
    match c
    case Equal => a == b
    case Less => a < b
    case LessEqual => a <= b
    case Greater => a > b
    case GreaterEqual => a >= b
  }

  function CharName(c: Comparison): string
  {
    match c
    case Equal => "char=?"
    case Less => "char<?"
    case LessEqual => "char<=?"
    case Greater => "char>?"
    case GreaterEqual => "char>=?"
  }

  function NumName(c: Comparison): string
  {
    match c
    case Equal => "="
    case Less => "<"
    case LessEqual => "<="
    case Greater => ">"
    case GreaterEqual => ">="
  }

  /** The wrong-type check shared by every two-argument primitive:
      argument 1 first, then argument 2. */
  function CheckTwo(name: string, xOk: bool, yOk: bool): (e: Option)
    ensures e.Some? <==> !(xOk && yOk)
    ensures e.Some? ==> e.signal == WrongType(name, if xOk then 2 else 1)
  {
    if !xOk then Some(WrongType(name, 1))
    else if !yOk then Some(WrongType(name, 2))
    else None
  }

  datatype Option = None | Some(signal: Signal)

  /** CHAR=? CHAR<? CHAR<=? CHAR>? CHAR>=? x y: both must be characters;
      the result compares their code points. */
  function CharCompare(c: Comparison, x: Value, y: Value): (r: Result<Value>)
    ensures !x.Char? ==> r == Err(WrongType(CharName(c), 1))
    ensures x.Char? && !y.Char? ==> r == Err(WrongType(CharName(c), 2))
    ensures x.Char? && y.Char? ==> r == Ok(Bool(Holds(c, x.code, y.code)))
  {
    match CheckTwo(CharName(c), x.Char?, y.Char?)
    case Some(e) => Err(e)
    case None => Ok(Bool(Holds(c, x.code, y.code)))
  }

  /** = < <= > >= x y: both must be fixnums; the result compares them. */
  function NumCompare(c: Comparison, x: Value, y: Value): (r: Result<Value>)
    ensures !x.Fixnum? ==> r == Err(WrongType(NumName(c), 1))
    ensures x.Fixnum? && !y.Fixnum? ==> r == Err(WrongType(NumName(c), 2))
    ensures x.Fixnum? && y.Fixnum? ==> r == Ok(Bool(Holds(c, x.n, y.n)))
  {
    match CheckTwo(NumName(c), x.Fixnum?, y.Fixnum?)
    case Some(e) => Err(e)
    case None => Ok(Bool(Holds(c, x.n, y.n)))
  }

  /** The five comparisons form one total order: `<` and `>` are converses,
      `<=` is `<` or `=`, `>=` is the converse of `<=`, and exactly one of
      `<`, `=`, `>` holds.  Stated for characters and for fixnums. */
  lemma ComparisonsConsistent(x: Value, y: Value)
    requires (x.Char? && y.Char?) || (x.Fixnum? && y.Fixnum?)
    ensures var cmp := (c: Comparison, a: Value, b: Value) =>
        if x.Char? then CharCompare(c, a, b) else NumCompare(c, a, b);
      && cmp(Less, x, y) == cmp(Greater, y, x)
      && cmp(GreaterEqual, x, y) == cmp(LessEqual, y, x)
      && (cmp(LessEqual, x, y) == Ok(Bool(true)) <==>
          cmp(Less, x, y) == Ok(Bool(true)) || cmp(Equal, x, y) == Ok(Bool(true)))
      && cmp(Equal, x, y) == cmp(Equal, y, x)
      && (if cmp(Less, x, y) == Ok(Bool(true)) then 1 else 0)
         + (if cmp(Equal, x, y) == Ok(Bool(true)) then 1 else 0)
         + (if cmp(Greater, x, y) == Ok(Bool(true)) then 1 else 0) == 1
  {
  }

  // ------------------------------------------------------------- fixnum

  function Abs(a: int): nat
  {
    if a < 0 then -a else a
  }

  /** C's integer division: the quotient is truncated toward zero. */
  function Quot(a: int, b: int): (q: int)
    requires b != 0
    ensures Abs(a - b * q) < Abs(b)
    ensures a - b * q == 0 || (a - b * q < 0 <==> a < 0)
    ensures Abs(q) == Abs(a) / Abs(b)
  {
    var m := Abs(a) / Abs(b);
    var q := if (a < 0) == (b < 0) then m else -m;
    QuotRem(a, b, q);
    q
  }

  /** The remainder left by the truncated quotient is smaller than the
      divisor and has the sign of the dividend. */
  lemma QuotRem(a: int, b: int, q: int)
    requires b != 0
    requires q == if (a < 0) == (b < 0) then Abs(a) / Abs(b) else -(Abs(a) / Abs(b))
    ensures Abs(a - b * q) < Abs(b)
    ensures a - b * q == 0 || (a - b * q < 0 <==> a < 0)
    ensures Abs(q) == Abs(a) / Abs(b)
  {
    var A: int, B: int := Abs(a), Abs(b);
    var m: int := A / B;
    assert A == B * m + A % B;
    if b > 0 && a >= 0 {
      assert b * q == B * m;
    } else if b > 0 {
      NegMul(B, m);
      assert b * q == -(B * m);
    } else if a < 0 {
      NegMul(B, m);
      assert b * q == -(B * m);
    } else {
      NegMul(B, m);
      NegMul(B, -m);
      assert b * q == B * m;
    }
  }

  lemma NegMul(x: int, y: int)
    ensures (-x) * y == -(x * y) && x * (-y) == -(x * y)
  {
  }

  datatype ArithOp = Plus | Minus | Times | Quotient

  function ArithName(op: ArithOp): string
  {
    match op
    case Plus => "+"
    case Minus => "-"
    case Times => "*"
    case Quotient => "/"
  }

  /** + - * / x y: both must be fixnums; `/` truncates toward zero.  The
      divisor must not be zero (the interpreter does not check it). */
  function Arith(op: ArithOp, x: Value, y: Value): (r: Result<Value>)
    requires op == Quotient && x.Fixnum? && y.Fixnum? ==> y.n != 0
    ensures !x.Fixnum? ==> r == Err(WrongType(ArithName(op), 1))
    ensures x.Fixnum? && !y.Fixnum? ==> r == Err(WrongType(ArithName(op), 2))
    ensures x.Fixnum? && y.Fixnum? ==> r.Ok? && r.value.Fixnum?
    ensures x.Fixnum? && y.Fixnum? && op == Plus ==> r.value.n == x.n + y.n
    ensures x.Fixnum? && y.Fixnum? && op == Minus ==> r.value.n == x.n - y.n
    ensures x.Fixnum? && y.Fixnum? && op == Times ==> r.value.n == x.n * y.n
    ensures x.Fixnum? && y.Fixnum? && op == Quotient ==>
      Abs(r.value.n) == Abs(x.n) / Abs(y.n) && Abs(x.n - y.n * r.value.n) < Abs(y.n)
  {
    match CheckTwo(ArithName(op), x.Fixnum?, y.Fixnum?)
    case Some(e) => Err(e)
    case None =>
      Ok(Fixnum(match op
        case Plus => x.n + y.n
        case Minus => x.n - y.n
        case Times => x.n * y.n
        case Quotient => Quot(x.n, y.n)))
  }

  /** `-` undoes `+`; `*` then `/` by the same nonzero fixnum gives back
      the first operand. */
  lemma ArithInverses(x: Value, y: Value)
    requires x.Fixnum? && y.Fixnum?
    ensures Arith(Minus, Arith(Plus, x, y).value, y) == Ok(x)
    ensures y.n != 0 ==> Arith(Quotient, Arith(Times, x, y).value, y) == Ok(x)
  {
    if y.n != 0 {
      var a, b := x.n, y.n;
      var q := Quot(a * b, b);
      assert a * b - b * q == b * (a - q);
      AbsMul(b, a - q);
      MulAtLeast(Abs(b), Abs(a - q));
    }
  }

  lemma AbsMul(a: int, c: int)
    ensures Abs(a * c) == Abs(a) * Abs(c)
  {
    var A: int, C: int := Abs(a), Abs(c);
    if a < 0 && c < 0 {
      NegMul(A, C);
      NegMul(A, -C);
      assert a * c == (-A) * (-C);
    } else if a < 0 {
      NegMul(A, C);
      assert a * c == (-A) * C;
    } else if c < 0 {
      NegMul(A, C);
      assert a * c == A * (-C);
    }
  }

  lemma MulAtLeast(x: nat, y: nat)
    ensures y == 0 || x * y >= x
  {
    if y >= 1 {
      assert x * y == x * (y - 1) + x;
    }
  }

  /** ZERO? n. */
  function ZeroP(x: Value): (r: Result<Value>)
    ensures !x.Fixnum? ==> r == Err(WrongType("zero?", 1))
    ensures x.Fixnum? ==> r == Ok(Bool(x.n == 0))
  {
    if !x.Fixnum? then Err(WrongType("zero?", 1))
    else Ok(Eq(Fixnum(0), x))
  }

  /** 1+ n. */
  function OnePlus(x: Value): (r: Result<Value>)
    ensures !x.Fixnum? ==> r == Err(WrongType("1+", 1))
    ensures x.Fixnum? ==> r.Ok? && r.value.Fixnum? && r.value.n > x.n
  {
    if !x.Fixnum? then Err(WrongType("1+", 1)) else Ok(Fixnum(x.n + 1))
  }

  /** -1+ n. */
  function MinusOnePlus(x: Value): (r: Result<Value>)
    ensures !x.Fixnum? ==> r == Err(WrongType("-1+", 1))
    ensures x.Fixnum? ==> r.Ok? && r.value.Fixnum? && r.value.n < x.n
  {
    if !x.Fixnum? then Err(WrongType("-1+", 1)) else Ok(Fixnum(x.n - 1))
  }

  /** `1+` and `-1+` are inverse to each other and agree with `+` and `-`
      by one. */
  lemma SuccPredInverse(x: Value)
    requires x.Fixnum?
    ensures OnePlus(MinusOnePlus(x).value) == Ok(x)
    ensures MinusOnePlus(OnePlus(x).value) == Ok(x)
    ensures OnePlus(x) == Arith(Plus, x, Fixnum(1))
    ensures MinusOnePlus(x) == Arith(Minus, x, Fixnum(1))
  {
  }

  // ------------------------------------------------------------- symbol

  /** SYMBOL->STRING symbol: the symbol's own print-name string. */
  function SymbolToString(cells: seq<Cell>, x: Value): (r: Result<Value>)
    requires HeapOk(cells) && WF(cells, x)
    ensures !x.Symbol? ==> r == Err(WrongType("symbol->string", 1))
    ensures x.Symbol? ==> r.Ok? && r.value.Str? && WF(cells, r.value)
    ensures x.Symbol? ==> r.value == cells[x.ref].pname
  {
    if !x.Symbol? then Err(WrongType("symbol->string", 1))
    else
      assert CellOk(cells, cells[x.ref]);
      Ok(cells[x.ref].pname)
  }

  /** With interning, two symbols are `eq?` exactly when `symbol->string`
      gives them the same characters. */
  lemma SymbolsEqByName(cells: seq<Cell>, s: Value, t: Value)
    requires HeapOk(cells) && Interned(cells)
    requires s.Symbol? && t.Symbol? && WF(cells, s) && WF(cells, t)
    ensures Eq(s, t) == Bool(true) <==>
      Chars(cells, SymbolToString(cells, s).value) == Chars(cells, SymbolToString(cells, t).value)
  {
    if s.ref != t.ref {
      assert Chars(cells, cells[s.ref].pname) != Chars(cells, cells[t.ref].pname);
    }
  }

  // ------------------------------------------------------------ closure

  /** CLOSURE-VARS closure: the car of the closure's code pair. */
  function ClosureVars(cells: seq<Cell>, x: Value): (r: Result<Value>)
    requires HeapOk(cells) && WF(cells, x)
    ensures !x.Closure? ==> r == Err(WrongType("closure-vars", 1))
    ensures x.Closure? ==>
      r.Ok? && WF(cells, r.value) && [r.value] == Cars(cells, cells[x.ref].code, 1)
  {
    if !x.Closure? then Err(WrongType("closure-vars", 1))
    else
      var code := cells[x.ref].code;
      assert CellOk(cells, cells[x.ref]);
      assert CellOk(cells, cells[code.ref]);
      Ok(cells[code.ref].car)
  }

  /** CLOSURE-BODY closure: the cdr of the closure's code pair. */
  function ClosureBody(cells: seq<Cell>, x: Value): (r: Result<Value>)
    requires HeapOk(cells) && WF(cells, x)
    ensures !x.Closure? ==> r == Err(WrongType("closure-body", 1))
    ensures x.Closure? ==>
      r.Ok? && WF(cells, r.value) && r.value == Drop(cells, cells[x.ref].code, 1)
  {
    if !x.Closure? then Err(WrongType("closure-body", 1))
    else
      var code := cells[x.ref].code;
      assert CellOk(cells, cells[x.ref]);
      assert CellOk(cells, cells[code.ref]);
      Ok(cells[code.ref].cdr)
  }

  /** CLOSURE-ENV closure: the captured environment. */
  function ClosureEnv(cells: seq<Cell>, x: Value): (r: Result<Value>)
    requires HeapOk(cells) && WF(cells, x)
    ensures !x.Closure? ==> r == Err(WrongType("closure-env", 1))
    ensures x.Closure? ==> r.Ok? && WF(cells, r.value) && r.value == cells[x.ref].env
  {
    if !x.Closure? then Err(WrongType("closure-env", 1))
    else
      assert CellOk(cells, cells[x.ref]);
      Ok(cells[x.ref].env)
  }

  /** A closure's code pair is exactly (vars . body). */
  lemma ClosureCodeSplits(cells: seq<Cell>, x: Value)
    requires HeapOk(cells) && WF(cells, x) && x.Closure?
    ensures var code := cells[x.ref].code;
      IsPair(cells, code) &&
      cells[code.ref] == PairCell(ClosureVars(cells, x).value, ClosureBody(cells, x).value)
  {
    assert CellOk(cells, cells[x.ref]);
  }
}
