/**
 * Cdr-chains in the heap: the specification functions that the list
 * primitives of subrs.c (list?, length, memq, last, rec-append,
 * string-append) are proved against.
 *
 * A chain may be circular in the interpreter; every traversal here is
 * indexed by an explicit number of pairs, and `ChainLen(cells, x, n)` says
 * that the chain starting at `x` is finite and passes through exactly `n`
 * pairs before reaching a non-pair (its terminator).
 */
module Chains {
  import opened Values

  /** `x` is a pair whose cell really is a pair cell. */
  predicate IsPair(cells: seq<Cell>, x: Value)
  {
    x.Pair? && x.ref < |cells| && cells[x.ref].PairCell?
  }

  /** Following cdrs from `x` passes through at least `k` pairs. */
  predicate HasPairs(cells: seq<Cell>, x: Value, k: nat)
    decreases k
  {
    k == 0 || (IsPair(cells, x) && HasPairs(cells, cells[x.ref].cdr, k - 1))
  }

  /** The value reached after `k` cdrs (or the chain's terminator, if it
      has fewer than `k` pairs). */
  function Drop(cells: seq<Cell>, x: Value, k: nat): Value
    decreases k
  {
    if k == 0 || !IsPair(cells, x) then x else Drop(cells, cells[x.ref].cdr, k - 1)
  }

  /** The cars of the first `k` pairs (of all of them, if fewer), in order. */
  function Cars(cells: seq<Cell>, x: Value, k: nat): (s: seq<Value>)
    ensures |s| <= k
    ensures HasPairs(cells, x, k) ==> |s| == k
    decreases k
  {
    if k == 0 || !IsPair(cells, x) then []
    else [cells[x.ref].car] + Cars(cells, cells[x.ref].cdr, k - 1)
  }

  /** The cell indices of the first `k` pairs (of all of them, if fewer). */
  function Refs(cells: seq<Cell>, x: Value, k: nat): (s: seq<nat>)
    ensures |s| <= k
    ensures HasPairs(cells, x, k) ==> |s| == k
    decreases k
  {
    if k == 0 || !IsPair(cells, x) then []
    else [x.ref] + Refs(cells, cells[x.ref].cdr, k - 1)
  }

  /** The chain from `x` is finite with exactly `n` pairs. */
  predicate ChainLen(cells: seq<Cell>, x: Value, n: nat)
  {
    HasPairs(cells, x, n) && !Drop(cells, x, n).Pair?
  }

  /** Stepping inside a chain: the `j`-th value of a chain with at least
      `k > j` pairs is a pair whose car is the `j`-th element and whose cdr
      is the `j + 1`-th value. */
  lemma {:induction false} Step(cells: seq<Cell>, x: Value, k: nat, j: nat)
    requires HasPairs(cells, x, k) && j < k
    ensures HasPairs(cells, x, j) && HasPairs(cells, x, j + 1)
    ensures IsPair(cells, Drop(cells, x, j))
    ensures Drop(cells, x, j + 1) == cells[Drop(cells, x, j).ref].cdr
    ensures Cars(cells, x, k)[j] == cells[Drop(cells, x, j).ref].car
    decreases j
  {
    if j > 0 {
      Step(cells, cells[x.ref].cdr, k - 1, j - 1);
    }
  }

  /** A finite chain has exactly one length.  So the ghost length `n` that
      the list natives take is determined by the list itself, and what they
      return (`list?`, `length`, `memq`, `last`) does not depend on the
      caller's choice of witness. */
  lemma {:induction false} ChainLenUnique(cells: seq<Cell>, x: Value, n: nat, m: nat)
    requires ChainLen(cells, x, n) && ChainLen(cells, x, m)
    ensures n == m
    decreases n
  {
    if n > 0 && m > 0 {
      ChainLenUnique(cells, cells[x.ref].cdr, n - 1, m - 1);
    }
  }

  /** Every pair in the first `k` of a chain is below the heap's size. */
  lemma {:induction false} RefsBounded(cells: seq<Cell>, x: Value, k: nat)
    requires HasPairs(cells, x, k)
    ensures forall i :: 0 <= i < k ==> Refs(cells, x, k)[i] < |cells|
    decreases k
  {
    if k > 0 {
      RefsBounded(cells, cells[x.ref].cdr, k - 1);
    }
  }

  /** Allocating a new cell does not change any existing chain. */
  lemma {:induction false} ChainGrow(cells: seq<Cell>, c: Cell, x: Value, k: nat)
    requires HasPairs(cells, x, k)
    ensures HasPairs(cells + [c], x, k)
    ensures Drop(cells + [c], x, k) == Drop(cells, x, k)
    ensures Cars(cells + [c], x, k) == Cars(cells, x, k)
    ensures Refs(cells + [c], x, k) == Refs(cells, x, k)
    decreases k
  {
    if k > 0 {
      ChainGrow(cells, c, cells[x.ref].cdr, k - 1);
    }
  }

  /** Growing the heap by any number of cells does not change any existing
      chain. */
  lemma {:induction false} ChainExtend(cells: seq<Cell>, more: seq<Cell>, x: Value, k: nat)
    requires HasPairs(cells, x, k) && |cells| <= |more| && more[..|cells|] == cells
    ensures HasPairs(more, x, k)
    ensures Drop(more, x, k) == Drop(cells, x, k)
    ensures Cars(more, x, k) == Cars(cells, x, k)
    ensures Refs(more, x, k) == Refs(cells, x, k)
    decreases k
  {
    if k > 0 {
      assert more[x.ref] == cells[x.ref];
      ChainExtend(cells, more, cells[x.ref].cdr, k - 1);
    }
  }

  /** Overwriting a cell that is not one of the chain's first `k` pairs does
      not change those pairs, their cars, or the value after them. */
  lemma {:induction false} ChainUpdateOutside(cells: seq<Cell>, r: nat, c: Cell, x: Value, k: nat)
    requires HasPairs(cells, x, k) && r < |cells|
    requires forall i :: 0 <= i < k ==> Refs(cells, x, k)[i] != r
    ensures HasPairs(cells[r := c], x, k)
    ensures Drop(cells[r := c], x, k) == Drop(cells, x, k)
    ensures Cars(cells[r := c], x, k) == Cars(cells, x, k)
    decreases k
  {
    if k > 0 {
      var rest := Refs(cells, cells[x.ref].cdr, k - 1);
      assert Refs(cells, x, k) == [x.ref] + rest;
      assert Refs(cells, x, k)[0] == x.ref;
      assert cells[r := c][x.ref] == cells[x.ref];
      forall i | 0 <= i < k - 1
        ensures rest[i] != r
      {
        assert rest[i] == Refs(cells, x, k)[i + 1];
      }
      ChainUpdateOutside(cells, r, c, cells[x.ref].cdr, k - 1);
    }
  }

  /** Chains compose: `k` pairs from `x` reaching `y`, then `m` pairs from `y`. */
  lemma {:induction false} ChainConcat(cells: seq<Cell>, x: Value, k: nat, m: nat)
    requires HasPairs(cells, x, k) && HasPairs(cells, Drop(cells, x, k), m)
    ensures HasPairs(cells, x, k + m)
    ensures Drop(cells, x, k + m) == Drop(cells, Drop(cells, x, k), m)
    ensures Cars(cells, x, k + m) == Cars(cells, x, k) + Cars(cells, Drop(cells, x, k), m)
    decreases k
  {
    if k > 0 {
      ChainConcat(cells, cells[x.ref].cdr, k - 1, m);
    }
  }

  /** The position of the first element equal (`eq?`) to `key`, or `|s|`. */
  function IndexOf(s: seq<Value>, key: Value): (k: nat)
    ensures k <= |s|
    ensures k < |s| ==> s[k] == key
    ensures forall j :: 0 <= j < k ==> s[j] != key
  {
    if s == [] then 0
    else if s[0] == key then 0
    else 1 + IndexOf(s[1..], key)
  }

  /** `key` first occurs at `j` when it does not occur before `j` and, if
      `j` is inside `s`, occurs there. */
  lemma IndexOfAt(s: seq<Value>, key: Value, j: nat)
    requires j <= |s| && (j < |s| ==> s[j] == key)
    requires forall i :: 0 <= i < j ==> s[i] != key
    ensures IndexOf(s, key) == j
  {
  }
}
