/**
 * Specification of `string-append` (subrs.c): which argument is rejected
 * first, the total length its first pass computes, and the content its
 * second pass copies.
 */
module Strings {
  import opened Values

  /** The characters of a string value (empty for anything that is not a
      well-formed string). */
  function Chars(cells: seq<Cell>, v: Value): string
  {
    if v.Str? && v.ref < |cells| && cells[v.ref].StrCell? then cells[v.ref].chars else []
  }

  /** The symbol table's invariant, kept by `mk_symbol`: distinct symbol
      cells have print names with distinct characters. */
  predicate Interned(cells: seq<Cell>)
  {
    forall i, j ::
      (0 <= i < |cells| && 0 <= j < |cells| && i != j &&
       cells[i].SymbolCell? && cells[j].SymbolCell?) ==>
      Chars(cells, cells[i].pname) != Chars(cells, cells[j].pname)
  }

  /** Allocating a cell that is not a symbol keeps the symbol table's
      invariant. */
  lemma InternedGrow(cells: seq<Cell>, c: Cell)
    requires HeapOk(cells) && Interned(cells) && !c.SymbolCell?
    ensures Interned(cells + [c])
  {
    var cells' := cells + [c];
    forall i, j | 0 <= i < |cells'| && 0 <= j < |cells'| && i != j &&
        cells'[i].SymbolCell? && cells'[j].SymbolCell?
      ensures Chars(cells', cells'[i].pname) != Chars(cells', cells'[j].pname)
    {
      assert CellOk(cells, cells[i]) && CellOk(cells, cells[j]);
      assert cells'[cells[i].pname.ref] == cells[cells[i].pname.ref];
      assert cells'[cells[j].pname.ref] == cells[cells[j].pname.ref];
    }
  }

  /** Overwriting a pair cell with another pair keeps the symbol table's
      invariant: print names are string cells, never pairs. */
  lemma InternedUpdatePair(cells: seq<Cell>, r: nat, c: Cell)
    requires HeapOk(cells) && Interned(cells) && r < |cells| && cells[r].PairCell? && c.PairCell?
    ensures Interned(cells[r := c])
  {
    var cells' := cells[r := c];
    forall i, j | 0 <= i < |cells'| && 0 <= j < |cells'| && i != j &&
        cells'[i].SymbolCell? && cells'[j].SymbolCell?
      ensures Chars(cells', cells'[i].pname) != Chars(cells', cells'[j].pname)
    {
      assert CellOk(cells, cells[i]) && CellOk(cells, cells[j]);
      assert cells'[cells[i].pname.ref] == cells[cells[i].pname.ref];
      assert cells'[cells[j].pname.ref] == cells[cells[j].pname.ref];
    }
  }

  /** The 0-based position of the first argument that is not a string, or
      `|args|` when all are strings. */
  function FirstNonString(args: seq<Value>): (k: nat)
    ensures k <= |args|
    ensures k < |args| ==> !args[k].Str?
    ensures forall j :: 0 <= j < k ==> args[j].Str?
  {
    if args == [] then 0
    else if !args[0].Str? then 0
    else 1 + FirstNonString(args[1..])
  }

  /** The first `j` arguments are all strings. */
  predicate StringsUpTo(args: seq<Value>, j: nat)
  {
    forall i :: 0 <= i < j && i < |args| ==> args[i].Str?
  }

  /** The first non-string is at `j` when every argument before `j` is a
      string and the one at `j`, if any, is not. */
  lemma FirstNonStringAt(args: seq<Value>, j: nat)
    requires j <= |args| && (j < |args| ==> !args[j].Str?)
    requires forall i :: 0 <= i < j ==> args[i].Str?
    ensures FirstNonString(args) == j
  {
  }

  /** The sum of the arguments' lengths (the first pass's `len`). */
  function TotalLength(cells: seq<Cell>, args: seq<Value>): nat
  {
    if args == [] then 0
    else TotalLength(cells, args[..|args| - 1]) + |Chars(cells, args[|args| - 1])|
  }

  /** The arguments' characters, concatenated in order (the second pass's
      `buf`). */
  function Concat(cells: seq<Cell>, args: seq<Value>): string
  {
    if args == [] then []
    else Concat(cells, args[..|args| - 1]) + Chars(cells, args[|args| - 1])
  }

  /** The buffer the second pass fills has exactly the length the first pass
      computed. */
  lemma {:induction false} ConcatLength(cells: seq<Cell>, args: seq<Value>)
    ensures |Concat(cells, args)| == TotalLength(cells, args)
    decreases |args|
  {
    if args != [] {
      ConcatLength(cells, args[..|args| - 1]);
    }
  }

  lemma AppendAssoc(x: string, y: string, z: string)
    ensures (x + y) + z == x + (y + z)
  {
  }

  /** Appending one argument appends its characters. */
  lemma ConcatAppendOne(cells: seq<Cell>, args: seq<Value>, v: Value)
    ensures Concat(cells, args + [v]) == Concat(cells, args) + Chars(cells, v)
  {
    assert (args + [v])[..|args|] == args;
  }

  /** Concatenation distributes over splitting the argument list. */
  lemma {:induction false} ConcatSplit(cells: seq<Cell>, a: seq<Value>, b: seq<Value>)
    ensures Concat(cells, a + b) == Concat(cells, a) + Concat(cells, b)
    decreases |b|
  {
    if b == [] {
      assert a + b == a;
    } else {
      var b' := b[..|b| - 1];
      var v := b[|b| - 1];
      assert b == b' + [v];
      assert a + b == (a + b') + [v];
      ConcatSplit(cells, a, b');
      ConcatAppendOne(cells, a + b', v);
      ConcatAppendOne(cells, b', v);
      AppendAssoc(Concat(cells, a), Concat(cells, b'), Chars(cells, v));
    }
  }

  /** Each argument's characters sit at their offset in the result. */
  lemma ConcatAt(cells: seq<Cell>, args: seq<Value>, j: nat)
    requires j < |args|
    ensures var off := |Concat(cells, args[..j])|;
      off + |Chars(cells, args[j])| <= |Concat(cells, args)| &&
      Concat(cells, args)[off .. off + |Chars(cells, args[j])|] == Chars(cells, args[j])
  {
    assert args == args[..j] + [args[j]] + args[j + 1..];
    ConcatSplit(cells, args[..j] + [args[j]], args[j + 1..]);
    assert (args[..j] + [args[j]])[..j] == args[..j];
  }

  /** A prefix of the arguments never has more characters than all of them. */
  lemma TotalLengthPrefix(cells: seq<Cell>, args: seq<Value>, j: nat)
    requires j <= |args|
    ensures TotalLength(cells, args[..j]) <= TotalLength(cells, args)
  {
    ConcatLength(cells, args[..j]);
    ConcatLength(cells, args);
    assert args == args[..j] + args[j..];
    ConcatSplit(cells, args[..j], args[j..]);
  }

  /** One step of the second pass: the next argument's characters extend
      the concatenation so far, still within the computed total. */
  lemma ConcatSnoc(cells: seq<Cell>, args: seq<Value>, j: nat)
    requires j < |args|
    ensures Concat(cells, args[..j + 1]) == Concat(cells, args[..j]) + Chars(cells, args[j])
    ensures TotalLength(cells, args[..j + 1]) == TotalLength(cells, args[..j]) + |Chars(cells, args[j])|
    ensures |Concat(cells, args[..j + 1])| <= TotalLength(cells, args)
  {
    assert args[..j + 1][..j] == args[..j];
    ConcatLength(cells, args[..j + 1]);
    TotalLengthPrefix(cells, args, j + 1);
  }
}
