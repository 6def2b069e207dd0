/**
 * The primitives of subrs.c that read, mutate or allocate heap cells:
 * car, cdr, cons, set-car!, set-cdr!, list?, length, memq, last,
 * rec-append and string-append.
 *
 * `Heap` is the interpreter's cell store.  Pairs are shared: a pair value
 * is the index of its cell, so a `set-car!` through one holder is seen by
 * every holder.  A `wta_error` becomes an `Err(WrongType(name, index))`
 * result; no primitive changes the heap before it has decided to succeed.
 * The loops that walk a cdr-chain do not terminate on a circular list in
 * the interpreter; here they take the chain's length `n` as a ghost
 * witness that the chain is finite.
 */
module Store {
  import opened Values
  import opened Chains
  import opened Strings

  /** CAR pair. */
  function Car(cells: seq<Cell>, pair: Value): (r: Result<Value>)
    requires WF(cells, pair)
    ensures r.Ok? <==> pair.Pair?
    ensures !pair.Pair? ==> r == Err(WrongType("car", 1))
    ensures pair.Pair? ==> r.value == Cars(cells, pair, 1)[0]
    ensures HeapOk(cells) && r.Ok? ==> WF(cells, r.value)
  {
    if !pair.Pair? then Err(WrongType("car", 1))
    else
      assert HeapOk(cells) ==> CellOk(cells, cells[pair.ref]);
      Ok(cells[pair.ref].car)
  }

  /** CDR pair. */
  function Cdr(cells: seq<Cell>, pair: Value): (r: Result<Value>)
    requires WF(cells, pair)
    ensures r.Ok? <==> pair.Pair?
    ensures !pair.Pair? ==> r == Err(WrongType("cdr", 1))
    ensures pair.Pair? ==> r.value == Drop(cells, pair, 1)
    ensures HeapOk(cells) && r.Ok? ==> WF(cells, r.value)
  {
    if !pair.Pair? then Err(WrongType("cdr", 1))
    else
      assert HeapOk(cells) ==> CellOk(cells, cells[pair.ref]);
      Ok(cells[pair.ref].cdr)
  }

  /** LIST x*: the evaluator hands a variadic primitive its `n` arguments
      as a freshly built proper list, and `list` returns that very list: a
      proper list of exactly the `n` arguments, in order, made of the same
      cells (no copy is made). */
  function NList(cells: seq<Cell>, args: Value, ghost n: nat): (r: Value)
    requires ChainLen(cells, args, n) && Drop(cells, args, n) == Null
    ensures ChainLen(cells, r, n) && Drop(cells, r, n) == Null
    ensures Cars(cells, r, n) == Cars(cells, args, n)
    ensures Refs(cells, r, n) == Refs(cells, args, n)
  {
    args
  }

  /** `car` and `cdr` of a freshly consed pair give back its two parts,
      identical (not copies). */
  lemma CarCdrOfCons(cells: seq<Cell>, a: Value, d: Value)
    ensures var p := Pair(|cells|);
      WF(cells + [PairCell(a, d)], p) &&
      Car(cells + [PairCell(a, d)], p) == Ok(a) &&
      Cdr(cells + [PairCell(a, d)], p) == Ok(d)
  {
  }

  /** The list REC-APPEND returns (`n` fresh pairs ending in `ys`) holds
      the elements of the copied list followed by those of `ys`, and ends
      where `ys` ends. */
  lemma AppendChain(cells: seq<Cell>, r: Value, n: nat, ys: Value, m: nat)
    requires HasPairs(cells, r, n) && Drop(cells, r, n) == ys && ChainLen(cells, ys, m)
    ensures ChainLen(cells, r, n + m)
    ensures Cars(cells, r, n + m) == Cars(cells, r, n) + Cars(cells, ys, m)
    ensures Drop(cells, r, n + m) == Drop(cells, ys, m)
  {
    ChainConcat(cells, r, n, m);
  }

  /** REC-APPEND copies the pairs of its first argument: after it has
      allocated above the old heap `before`, overwriting any freshly
      allocated cell (a pair of the copy) leaves the original list, its
      elements and its terminator unchanged. */
  lemma CopyIsolated(before: seq<Cell>, cells: seq<Cell>, xs: Value, n: nat, q: nat, c: Cell)
    requires HasPairs(before, xs, n)
    requires |before| <= q < |cells| && cells[..|before|] == before
    ensures HasPairs(cells[q := c], xs, n)
    ensures Cars(cells[q := c], xs, n) == Cars(before, xs, n)
    ensures Drop(cells[q := c], xs, n) == Drop(before, xs, n)
  {
    ChainExtend(before, cells, xs, n);
    RefsBounded(before, xs, n);
    ChainUpdateOutside(cells, q, c, xs, n);
  }

  /** A walk along a finite chain stops exactly at its end: the first
      non-pair reached after `j` pairs is the terminator. */
  lemma EndsAt(cells: seq<Cell>, x: Value, n: nat, j: nat)
    requires ChainLen(cells, x, n) && j <= n && HasPairs(cells, x, j)
    requires !Drop(cells, x, j).Pair?
    ensures j == n
  {
    if j < n {
      Step(cells, x, n, j);
    }
  }

  /** The state of STRING-APPEND's first pass over a list `x` of `n`
      arguments ending in the empty list: `j` arguments have been read, all
      strings, `xs` is the rest of the list and `len` the sum of their
      lengths. */
  ghost predicate ScanInv(cells: seq<Cell>, x: Value, n: nat, j: nat, xs: Value, len: nat)
  {
    && ChainLen(cells, x, n) && Drop(cells, x, n) == Null
    && j <= n && HasPairs(cells, x, j) && xs == Drop(cells, x, j)
    && StringsUpTo(Cars(cells, x, n), j)
    && len == TotalLength(cells, Cars(cells, x, n)[..j])
  }

  /** One step of the first pass: the next argument exists; if it is not a
      string it is the first non-string, and otherwise the pass moves on
      with its length added. */
  lemma ScanStep(cells: seq<Cell>, x: Value, n: nat, j: nat, xs: Value, len: nat)
    requires ScanInv(cells, x, n, j, xs, len) && xs != Null
    ensures j < n && IsPair(cells, xs)
    ensures var a := cells[xs.ref].car;
      && (!a.Str? ==> FirstNonString(Cars(cells, x, n)) == j)
      && (a.Str? ==> ScanInv(cells, x, n, j + 1, cells[xs.ref].cdr, len + |Chars(cells, a)|))
  {
    Step(cells, x, n, j);
    var args := Cars(cells, x, n);
    ConcatSnoc(cells, args, j);
    if !args[j].Str? {
      FirstNonStringAt(args, j);
    }
  }

  /** The end of the first pass: when every argument was a string, none is
      rejected and `len` is the total length. */
  lemma ScanDone(cells: seq<Cell>, x: Value, n: nat, j: nat, len: nat)
    requires ScanInv(cells, x, n, j, Null, len)
    ensures FirstNonString(Cars(cells, x, n)) == n
    ensures len == TotalLength(cells, Cars(cells, x, n))
  {
    EndsAt(cells, x, n, j);
    var args := Cars(cells, x, n);
    assert args[..j] == args;
    FirstNonStringAt(args, j);
  }

  /** The state of STRING-APPEND's second pass over a list `x` of `n`
      arguments ending in the empty list: `j` arguments have been copied,
      `xs` is the rest of the list and `p` the length of their
      concatenation, which is within the total length. */
  ghost predicate FillInv(cells: seq<Cell>, x: Value, n: nat, j: nat, xs: Value, p: nat)
  {
    && ChainLen(cells, x, n) && Drop(cells, x, n) == Null
    && j <= n && HasPairs(cells, x, j) && xs == Drop(cells, x, j)
    && p == |Concat(cells, Cars(cells, x, n)[..j])|
    && p <= TotalLength(cells, Cars(cells, x, n))
  }

  /** One step of the second pass: the current argument's characters
      extend the concatenation so far. */
  lemma FillStep(cells: seq<Cell>, x: Value, n: nat, j: nat, xs: Value, p: nat)
    requires FillInv(cells, x, n, j, xs, p) && xs != Null
    ensures j < n && IsPair(cells, xs)
    ensures var args := Cars(cells, x, n);
      var s := Chars(cells, cells[xs.ref].car);
      && Concat(cells, args[..j + 1]) == Concat(cells, args[..j]) + s
      && FillInv(cells, x, n, j + 1, cells[xs.ref].cdr, p + |s|)
  {
    Step(cells, x, n, j);
    ConcatSnoc(cells, Cars(cells, x, n), j);
  }

  /** The end of the second pass: every argument has been copied and the
      copied text has exactly the length the first pass computed. */
  lemma FillDone(cells: seq<Cell>, x: Value, n: nat, j: nat, p: nat)
    requires FillInv(cells, x, n, j, Null, p)
    ensures var args := Cars(cells, x, n);
      && Concat(cells, args[..j]) == Concat(cells, args)
      && p == TotalLength(cells, args)
  {
    EndsAt(cells, x, n, j);
    var args := Cars(cells, x, n);
    assert args[..j] == args;
    ConcatLength(cells, args);
  }

  /** A value well formed in a heap stays well formed once the heap has
      grown with its old cells unchanged. */
  lemma WFKept(before: seq<Cell>, cells: seq<Cell>, v: Value)
    requires WF(before, v) && |before| <= |cells| && cells[..|before|] == before
    ensures WF(cells, v)
  {
    match v
    case Pair(r) => assert cells[r] == before[r];
    case Str(r) => assert cells[r] == before[r];
    case Symbol(r) => assert cells[r] == before[r];
    case Closure(r) => assert cells[r] == before[r];
    case Env(r) => assert cells[r] == before[r];
    case _ =>
  }

  /** The step of REC-APPEND that conses the head of `xs` onto the copy of
      its tail: if the copy of the tail is `n - 1` fresh pairs allocated
      above `before`, holding the tail's elements and ending in `ys`, then
      the new pair on top of it is the head of `n` fresh pairs holding the
      elements of `xs` and ending in `ys`. */
  lemma ConsOntoCopy(before: seq<Cell>, mid: seq<Cell>, xs: Value, ys: Value, rest: Value, m: nat, n: nat)
    requires n == m + 1 && HasPairs(before, xs, n)
    requires |mid| == |before| + m && mid[..|before|] == before
    requires HasPairs(mid, rest, m) && Drop(mid, rest, m) == ys
    requires Cars(mid, rest, m) == Cars(before, before[xs.ref].cdr, m)
    requires forall i :: 0 <= i < m ==> Refs(mid, rest, m)[i] == |before| + m - 1 - i
    ensures var cells := mid + [PairCell(before[xs.ref].car, rest)];
      var p := Pair(|mid|);
      && |cells| == |before| + n && cells[..|before|] == before
      && HasPairs(cells, p, n) && Drop(cells, p, n) == ys
      && Cars(cells, p, n) == Cars(before, xs, n)
      && forall i :: 0 <= i < n ==> Refs(cells, p, n)[i] == |before| + n - 1 - i
  {
    var c := PairCell(before[xs.ref].car, rest);
    var cells := mid + [c];
    var p := Pair(|mid|);
    ChainGrow(mid, c, rest, m);
    assert cells[..|before|] == before by {
      assert cells[..|before|] == mid[..|before|];
    }
    assert cells[p.ref] == c;
    forall i | 0 <= i < n
      ensures Refs(cells, p, n)[i] == |before| + n - 1 - i
    {
      if i > 0 {
        assert Refs(cells, p, n)[i] == Refs(cells, rest, m)[i - 1];
      }
    }
  }

  /** The inner copy loop of STRING-APPEND's second pass: `s` is copied
      into `buf` from position `p` on, and the new position is returned. */
  method CopyChars(buf: array<char>, p: nat, s: string) returns (q: nat)
    requires p + |s| <= buf.Length
    modifies buf
    ensures q == p + |s|
    ensures buf[..q] == old(buf[..p]) + s
  {
    var i := 0;
    q := p;
    while i < |s|
      invariant 0 <= i <= |s| && q == p + i
      invariant buf[..p] == old(buf[..p])
      invariant forall t :: 0 <= t < i ==> buf[p + t] == s[t]
    {
      buf[q] := s[i];
      q := q + 1;
      i := i + 1;
    }
    assert buf[..q] == buf[..p] + buf[p..q];
  }

  /** The first pass of STRING-APPEND: walks the argument list counting
      arguments, rejects the first non-string with its 1-based position,
      and otherwise sums the lengths. */
  method ScanStrings(cells: seq<Cell>, strings: Value, ghost n: nat) returns (r: Result<nat>)
    requires ChainLen(cells, strings, n) && Drop(cells, strings, n) == Null
    ensures var args := Cars(cells, strings, n);
      var k := FirstNonString(args);
      if k < n then r == Err(WrongType("string-append", k + 1))
      else r == Ok(TotalLength(cells, args))
  {
    var xs := strings;
    var nargs: nat := 0;
    var len: nat := 0;
    while xs != Null
      invariant ScanInv(cells, strings, n, nargs, xs, len)
      decreases n - nargs
    {
      ScanStep(cells, strings, n, nargs, xs, len);
      var a := cells[xs.ref].car;
      if !a.Str? {
        return Err(WrongType("string-append", nargs + 1));
      }
      nargs := nargs + 1;
      len := len + |Chars(cells, a)|;
      xs := cells[xs.ref].cdr;
    }
    ScanDone(cells, strings, n, nargs, len);
    return Ok(len);
  }

  /** The second pass of STRING-APPEND: a fresh buffer of `len + 1`
      characters receives every argument's characters in order, then the
      terminating NUL. */
  method FillBuffer(cells: seq<Cell>, strings: Value, ghost n: nat, len: nat) returns (buf: array<char>)
    requires ChainLen(cells, strings, n) && Drop(cells, strings, n) == Null
    requires len == TotalLength(cells, Cars(cells, strings, n))
    ensures fresh(buf) && buf.Length == len + 1
    ensures buf[..len] == Concat(cells, Cars(cells, strings, n)) && buf[len] == '\0'
  {
    buf := new char[len + 1];
    var xs := strings;
    var p: nat := 0;
    ghost var j: nat := 0;
    while xs != Null
      invariant FillInv(cells, strings, n, j, xs, p)
      invariant buf[..p] == Concat(cells, Cars(cells, strings, n)[..j])
      decreases n - j
    {
      FillStep(cells, strings, n, j, xs, p);
      var s := Chars(cells, cells[xs.ref].car);
      p := CopyChars(buf, p, s);
      xs := cells[xs.ref].cdr;
      j := j + 1;
    }
    FillDone(cells, strings, n, j, p);
    buf[p] := '\0';
  }

  class Heap {
    var cells: seq<Cell>

    /** The allocator's invariants: every cell is well formed, and the
        symbol table keeps print names distinct. */
    predicate Valid()
      reads this
    {
      HeapOk(cells) && Interned(cells)
    }

    constructor ()
      ensures Valid() && cells == []
    {
      cells := [];
    }

    /** CONS a d: the allocator's `mk_pair`, a fresh cell at the end. */
    method Cons(a: Value, d: Value) returns (p: Value)
      requires Valid() && WF(cells, a) && WF(cells, d)
      modifies this
      ensures Valid()
      ensures cells == old(cells) + [PairCell(a, d)]
      ensures p == Pair(|old(cells)|)
    {
      HeapOkGrow(cells, PairCell(a, d));
      InternedGrow(cells, PairCell(a, d));
      p := Pair(|cells|);
      cells := cells + [PairCell(a, d)];
    }

    /** SET-CAR! pair value. */
    method SetCar(pair: Value, value: Value) returns (r: Result<Value>)
      requires Valid() && WF(cells, pair) && WF(cells, value)
      modifies this
      ensures Valid()
      ensures !pair.Pair? ==> r == Err(WrongType("set-car!", 1)) && cells == old(cells)
      ensures pair.Pair? ==> (r == Ok(Unspecified) &&
        cells == old(cells)[pair.ref := PairCell(value, old(cells)[pair.ref].cdr)])
      ensures pair.Pair? ==> Car(cells, pair) == Ok(value) && Cdr(cells, pair) == old(Cdr(cells, pair))
    {
      if !pair.Pair? {
        return Err(WrongType("set-car!", 1));
      }
      var c := PairCell(value, cells[pair.ref].cdr);
      assert CellOk(cells, cells[pair.ref]);
      HeapOkUpdatePair(cells, pair.ref, c);
      InternedUpdatePair(cells, pair.ref, c);
      cells := cells[pair.ref := c];
      return Ok(Unspecified);
    }

    /** SET-CDR! pair x. */
    method SetCdr(pair: Value, x: Value) returns (r: Result<Value>)
      requires Valid() && WF(cells, pair) && WF(cells, x)
      modifies this
      ensures Valid()
      ensures !pair.Pair? ==> r == Err(WrongType("set-cdr!", 1)) && cells == old(cells)
      ensures pair.Pair? ==> (r == Ok(Unspecified) &&
        cells == old(cells)[pair.ref := PairCell(old(cells)[pair.ref].car, x)])
      ensures pair.Pair? ==> Cdr(cells, pair) == Ok(x) && Car(cells, pair) == old(Car(cells, pair))
    {
      if !pair.Pair? {
        return Err(WrongType("set-cdr!", 1));
      }
      var c := PairCell(cells[pair.ref].car, x);
      assert CellOk(cells, cells[pair.ref]);
      HeapOkUpdatePair(cells, pair.ref, c);
      InternedUpdatePair(cells, pair.ref, c);
      cells := cells[pair.ref := c];
      return Ok(Unspecified);
    }

    /** LIST? x: true exactly when the chain ends in the empty list; a
        dotted list (ending in any other atom) is not a list. */
    method ListP(x: Value, ghost n: nat) returns (b: bool)
      requires ChainLen(cells, x, n)
      ensures b <==> Drop(cells, x, n) == Null
    {
      var p := x;
      if p == Null {
        return true;
      }
      ghost var k := 0;
      while p.Pair?
        invariant k <= n && HasPairs(cells, x, k) && p == Drop(cells, x, k)
        invariant p != Null
        decreases n - k
      {
        Step(cells, x, n, k);
        p := cells[p.ref].cdr;
        k := k + 1;
        if p == Null {
          if k < n {
            Step(cells, x, n, k);
          }
          return true;
        }
      }
      if k < n {
        Step(cells, x, n, k);
      }
      return false;
    }

    /** LENGTH list: a non-pair (the empty list included) is rejected;
        otherwise the number of pairs in the chain, whatever ends it. */
    method Length(list: Value, ghost n: nat) returns (r: Result<Value>)
      requires ChainLen(cells, list, n)
      ensures !list.Pair? ==> r == Err(WrongType("length", 1))
      ensures list.Pair? ==> r == Ok(Fixnum(n)) && n == |Cars(cells, list, n)| && n > 0
    {
      var x := list;
      var i := 0;
      if !x.Pair? {
        return Err(WrongType("length", 1));
      }
      while x.Pair?
        invariant i <= n && HasPairs(cells, list, i) && x == Drop(cells, list, i)
        decreases n - i
      {
        Step(cells, list, n, i);
        i := i + 1;
        x := cells[x.ref].cdr;
      }
      if i < n {
        Step(cells, list, n, i);
      }
      return Ok(Fixnum(i));
    }

    /** MEMQ key list: the first suffix whose car is `eq?` to `key`; #f when
        the chain ends in the empty list first; a wrong-type signal on the
        second argument when it ends in any other atom first. */
    method Memq(key: Value, list: Value, ghost n: nat) returns (r: Result<Value>)
      requires ChainLen(cells, list, n)
      ensures var k := IndexOf(Cars(cells, list, n), key);
        if k < n then r == Ok(Drop(cells, list, k))
        else if Drop(cells, list, n) == Null then r == Ok(Bool(false))
        else r == Err(WrongType("memq", 2))
    {
      var l := list;
      ghost var k := 0;
      ghost var es := Cars(cells, list, n);
      while l != Null
        invariant k <= n && HasPairs(cells, list, k) && l == Drop(cells, list, k)
        invariant forall j :: 0 <= j < k ==> es[j] != key
        decreases n - k
      {
        if !(l.Pair? || l == Null) {
          EndsAt(cells, list, n, k);
          IndexOfAt(es, key, k);
          return Err(WrongType("memq", 2));
        }
        Step(cells, list, n, k);
        if key == cells[l.ref].car {
          IndexOfAt(es, key, k);
          return Ok(l);
        }
        l := cells[l.ref].cdr;
        k := k + 1;
      }
      EndsAt(cells, list, n, k);
      IndexOfAt(es, key, k);
      return Ok(Bool(false));
    }

    /** LAST list: the empty list for the empty list, otherwise the final
        pair of the chain (the first pair whose cdr is not a pair), also for
        a dotted list. */
    method Last(list: Value, ghost n: nat) returns (r: Result<Value>)
      requires ChainLen(cells, list, n)
      ensures list == Null ==> r == Ok(Null)
      ensures !list.Pair? && list != Null ==> r == Err(WrongType("last", 1))
      ensures list.Pair? ==> n > 0 && r == Ok(Drop(cells, list, n - 1))
      ensures list.Pair? ==> IsPair(cells, r.value) && !cells[r.value.ref].cdr.Pair?
    {
      var p := list;
      if !(p.Pair? || p == Null) {
        return Err(WrongType("last", 1));
      }
      if p.Pair? {
        ghost var k := 0;
        if n == 0 {
          assert false;
        }
        Step(cells, list, n, 0);
        while cells[p.ref].cdr.Pair?
          invariant k < n && HasPairs(cells, list, k + 1) && p == Drop(cells, list, k)
          invariant IsPair(cells, p) && cells[p.ref].cdr == Drop(cells, list, k + 1)
          decreases n - k
        {
          p := cells[p.ref].cdr;
          k := k + 1;
          if k == n {
            assert false;
          }
          Step(cells, list, n, k);
        }
        if k + 1 < n {
          Step(cells, list, n, k + 1);
        }
      }
      return Ok(p);
    }

    /** REC-APPEND xs ys: `ys` itself when `xs` is empty; otherwise fresh
        pairs holding the elements of `xs`, ending in `ys` itself.  The cells
        of `xs` are untouched.  A first argument whose chain ends in an atom
        other than the empty list is rejected before anything is allocated. */
    method RecAppend(xs: Value, ys: Value, ghost n: nat) returns (r: Result<Value>)
      requires Valid() && WF(cells, xs) && WF(cells, ys) && ChainLen(cells, xs, n)
      modifies this
      ensures Valid()
      ensures Drop(old(cells), xs, n) != Null ==>
        r == Err(WrongType("rec-append", 1)) && cells == old(cells)
      ensures Drop(old(cells), xs, n) == Null ==>
        r.Ok? && WF(cells, r.value) &&
        |cells| == |old(cells)| + n && cells[..|old(cells)|] == old(cells) &&
        HasPairs(cells, r.value, n) &&
        Cars(cells, r.value, n) == Cars(old(cells), xs, n) &&
        Drop(cells, r.value, n) == ys &&
        forall i :: 0 <= i < n ==> Refs(cells, r.value, n)[i] == |old(cells)| + n - 1 - i
      decreases n
    {
      if !(xs.Pair? || xs == Null) {
        return Err(WrongType("rec-append", 1));
      }
      if xs == Null {
        return Ok(ys);
      }
      ghost var before := cells;
      assert CellOk(cells, cells[xs.ref]);
      var hd := cells[xs.ref].car;
      var tl := cells[xs.ref].cdr;
      var rest := RecAppend(tl, ys, n - 1);
      if rest.Err? {
        return rest;
      }
      ghost var mid := cells;
      WFKept(before, mid, hd);
      var p := Cons(hd, rest.value);
      ConsOntoCopy(before, mid, xs, ys, rest.value, n - 1, n);
      return Ok(p);
    }

    /** STRING-APPEND string*: the arguments are checked, and their lengths
        summed, before anything is allocated; the result is one fresh string
        cell holding their concatenation. */
    method StringAppend(strings: Value, ghost n: nat) returns (r: Result<Value>)
      requires Valid() && ChainLen(cells, strings, n) && Drop(cells, strings, n) == Null
      modifies this
      ensures Valid()
      ensures var args := Cars(old(cells), strings, n);
        var k := FirstNonString(args);
        if k < n then r == Err(WrongType("string-append", k + 1)) && cells == old(cells)
        else (r == Ok(Str(|old(cells)|)) &&
              cells == old(cells) + [StrCell(Concat(old(cells), args))])
    {
      var scan := ScanStrings(cells, strings, n);
      if scan.Err? {
        return Err(scan.signal);
      }
      var len := scan.value;
      var buf := FillBuffer(cells, strings, n, len);
      var x := StrCell(buf[..len]);
      HeapOkGrow(cells, x);
      InternedGrow(cells, x);
      r := Ok(Str(|cells|));
      cells := cells + [x];
    }
  }
}
