/**
 * Tagged values of the Tscheme interpreter as the primitive catalogue
 * (subrs.c) sees them, the heap of cells they point into, and the
 * wrong-type signal every primitive may raise.
 *
 * Every boxed object (pair, string, symbol, closure, environment) lives in
 * one heap cell and a value holds its cell's index; fixnums, characters,
 * booleans, the empty list and the unspecified value are immediates.  With
 * this layout the interpreter's `EQ` (comparison of the machine words) is
 * exactly equality of `Value`s.
 */
module Values {

  /** The calling convention a native procedure was registered with. */
  datatype Arity = Subr0 | Subr1 | Subr2 | Subr3 | SubrN | FSubr

  datatype Value =
    | Null
    | Bool(b: bool)
    | Char(code: int)
    | Fixnum(n: int)
    | Pair(ref: nat)
    | Str(ref: nat)
    | Symbol(ref: nat)
    | Closure(ref: nat)
    | Env(ref: nat)
    | Prim(name: string, arity: Arity)
    | Unspecified

  /** The payload of one heap cell. */
  datatype Cell =
    | PairCell(car: Value, cdr: Value)
    | StrCell(chars: string)
    | SymbolCell(pname: Value)          // the print name, a string
    | ClosureCell(code: Value, env: Value)  // code is the pair (vars . body)
    | EnvCell(frame: Value)

  /** The recoverable signal raised by `wta_error(name, index)`. */
  datatype Signal = WrongType(name: string, index: nat)

  datatype Result<T> = Ok(value: T) | Err(signal: Signal)

  /** `v` points at a cell of the kind its tag announces. */
  predicate WF(cells: seq<Cell>, v: Value)
  {
    match v
    case Pair(r) => r < |cells| && cells[r].PairCell?
    case Str(r) => r < |cells| && cells[r].StrCell?
    case Symbol(r) => r < |cells| && cells[r].SymbolCell?
    case Closure(r) => r < |cells| && cells[r].ClosureCell?
    case Env(r) => r < |cells| && cells[r].EnvCell?
    case _ => true
  }

  /** Every value stored in `c` is well formed, and references have the
      shapes the interpreter relies on (a print name is a string, closure
      code is a pair). */
  predicate CellOk(cells: seq<Cell>, c: Cell)
  {
    match c
    case PairCell(a, d) => WF(cells, a) && WF(cells, d)
    case StrCell(_) => true
    case SymbolCell(p) => p.Str? && WF(cells, p)
    case ClosureCell(code, env) => code.Pair? && WF(cells, code) && WF(cells, env)
    case EnvCell(f) => WF(cells, f)
  }

  /** The heap invariant maintained by the allocator and the evaluator. */
  predicate HeapOk(cells: seq<Cell>)
  {
    forall r :: 0 <= r < |cells| ==> CellOk(cells, cells[r])
  }

  /** Allocating a cell leaves every well-formed value well formed. */
  lemma WFGrow(cells: seq<Cell>, c: Cell, v: Value)
    requires WF(cells, v)
    ensures WF(cells + [c], v)
  {
  }

  /** Appending a well-formed cell to a well-formed heap keeps it well formed. */
  lemma HeapOkGrow(cells: seq<Cell>, c: Cell)
    requires HeapOk(cells) && CellOk(cells, c)
    ensures HeapOk(cells + [c])
  {
    var cells' := cells + [c];
    forall r | 0 <= r < |cells'|
      ensures CellOk(cells', cells'[r])
    {
      var d := cells'[r];
      assert CellOk(cells, d);
      match d
      case PairCell(a, b) => WFGrow(cells, c, a); WFGrow(cells, c, b);
      case StrCell(_) =>
      case SymbolCell(p) => WFGrow(cells, c, p);
      case ClosureCell(code, env) => WFGrow(cells, c, code); WFGrow(cells, c, env);
      case EnvCell(f) => WFGrow(cells, c, f);
    }
  }

  /** Replacing a pair cell by another well-formed pair cell keeps the heap
      well formed (this is what `set-car!` and `set-cdr!` do). */
  lemma HeapOkUpdatePair(cells: seq<Cell>, r: nat, c: Cell)
    requires HeapOk(cells) && r < |cells| && cells[r].PairCell?
    requires c.PairCell? && CellOk(cells, c)
    ensures HeapOk(cells[r := c])
  {
    var cells' := cells[r := c];
    assert forall v :: WF(cells, v) ==> WF(cells', v);
    forall i | 0 <= i < |cells'|
      ensures CellOk(cells', cells'[i])
    {
      assert CellOk(cells, cells'[i]);
    }
  }
}
