/**
 * The registration table that `init_subrs` (subrs.c) installs at start-up:
 * each native procedure's name and calling convention.  Names are written
 * in upper case, as registered; `mk_subr` with arity -1 registers a
 * variadic native (SubrN) and `mk_fsubr` one that receives its arguments
 * unevaluated together with the calling environment (FSubr).
 */
module Registry {
  import opened Values
  import opened Scalars

  datatype Entry = Entry(name: string, arity: Arity)

  /** `any`, the pair and null predicates, and the pair constructor and selectors: positions 0-7. */
  const BasicSubrs: seq<Entry> := [
    Entry("EQ?", Subr2), Entry("NEQ?", Subr2),
    Entry("PAIR?", Subr1), Entry("NULL?", Subr1), Entry("LIST?", Subr1),
    Entry("CONS", Subr2), Entry("CAR", Subr1), Entry("CDR", Subr1)
  ]

  /** Pair mutators and list operations: positions 8-14. */
  const ListSubrs: seq<Entry> := [
    Entry("SET-CAR!", Subr2), Entry("SET-CDR!", Subr2), Entry("LIST", SubrN),
    Entry("LENGTH", Subr1), Entry("MEMQ", Subr2), Entry("LAST", Subr1),
    Entry("REC-APPEND", Subr2)
  ]

  /** Characters and booleans: positions 15-22. */
  const CharSubrs: seq<Entry> := [
    Entry("CHAR?", Subr1), Entry("CHAR=?", Subr2), Entry("CHAR<?", Subr2),
    Entry("CHAR<=?", Subr2), Entry("CHAR>?", Subr2), Entry("CHAR>=?", Subr2),
    Entry("BOOLEAN?", Subr1), Entry("NOT", Subr1)
  ]

  /** Symbols and strings: positions 23-27. */
  const SymbolSubrs: seq<Entry> := [
    Entry("SYMBOL?", Subr1), Entry("SYMBOL->STRING", Subr1), Entry("STRING->SYMBOL", Subr1),
    Entry("STRING?", Subr1), Entry("STRING-APPEND", SubrN)
  ]

  /** Fixnum predicates and arithmetic: positions 28-35. */
  const ArithmeticSubrs: seq<Entry> := [
    Entry("NUMBER?", Subr1), Entry("ZERO?", Subr1), Entry("+", Subr2), Entry("-", Subr2),
    Entry("*", Subr2), Entry("/", Subr2), Entry("1+", Subr1), Entry("-1+", Subr1)
  ]

  /** Fixnum comparisons and conversions: positions 36-42. */
  const NumberCompareSubrs: seq<Entry> := [
    Entry("=", Subr2), Entry("<", Subr2), Entry("<=", Subr2), Entry(">", Subr2),
    Entry(">=", Subr2), Entry("STRING->NUMBER", Subr1), Entry("NUMBER->STRING", Subr1)
  ]

  /** Closures, procedures, environments and the evaluator: positions 43-51. */
  const ProcedureSubrs: seq<Entry> := [
    Entry("CLOSURE?", Subr1), Entry("CLOSURE-BODY", Subr1), Entry("CLOSURE-VARS", Subr1),
    Entry("CLOSURE-ENV", Subr1),
    Entry("PROCEDURE?", Subr1),
    Entry("ENVIRONMENT?", Subr1), Entry("THE-ENVIRONMENT", FSubr),
    Entry("LISTIFY-ENVIRONMENT", Subr1),
    Entry("SYS:EVAL", Subr2)
  ]

  /** The whole table, in registration order. */
  const Subrs: seq<Entry> :=
    BasicSubrs + (ListSubrs + (CharSubrs + (SymbolSubrs +
    (ArithmeticSubrs + (NumberCompareSubrs + ProcedureSubrs)))))

  /** The position of the first entry registered under `name`, or `|table|`
      when there is none (the interpreter looks natives up by exact name). */
  function Find(table: seq<Entry>, name: string): (i: nat)
    ensures i <= |table|
    ensures i < |table| ==> table[i].name == name
    ensures forall j :: 0 <= j < i ==> table[j].name != name
  {
    if table == [] then 0
    else if table[0].name == name then 0
    else 1 + Find(table[1..], name)
  }

  /** No name occurs twice in `table`. */
  predicate Distinct(table: seq<Entry>)
  {
    forall i, j :: 0 <= i < j < |table| ==> table[i].name != table[j].name
  }

  /** No name occurs in both `a` and `b`. */
  predicate Disjoint(a: seq<Entry>, b: seq<Entry>)
  {
    forall i, j :: 0 <= i < |a| && 0 <= j < |b| ==> a[i].name != b[j].name
  }

  /** The conventions every entry of the table obeys: only `list` and
      `string-append` are variadic, only `the-environment` receives its
      arguments unevaluated, and none is registered with zero or three
      arguments. */
  predicate Convention(e: Entry)
  {
    && (e.arity == SubrN <==> e.name == "LIST" || e.name == "STRING-APPEND")
    && (e.arity == FSubr <==> e.name == "THE-ENVIRONMENT")
    && e.arity != Subr0 && e.arity != Subr3
  }

  /** Two name-distinct tables with no name in common concatenate to a
      name-distinct table. */
  lemma DistinctConcat(a: seq<Entry>, b: seq<Entry>)
    requires Distinct(a) && Distinct(b) && Disjoint(a, b)
    ensures Distinct(a + b)
  {
    var t := a + b;
    forall i, j | 0 <= i < j < |t|
      ensures t[i].name != t[j].name
    {
      if j < |a| {
        assert t[i] == a[i] && t[j] == a[j];
      } else if i < |a| {
        assert t[i] == a[i] && t[j] == b[j - |a|];
      } else {
        assert t[i] == b[i - |a|] && t[j] == b[j - |a|];
      }
    }
  }

  /** A name with a single entry is found at that entry. */
  lemma FindDistinct(table: seq<Entry>, i: nat)
    requires Distinct(table) && i < |table|
    ensures Find(table, table[i].name) == i
  {
  }

  /** A table disjoint from two others is disjoint from their concatenation. */
  lemma DisjointConcat(a: seq<Entry>, b: seq<Entry>, c: seq<Entry>)
    requires Disjoint(a, b) && Disjoint(a, c)
    ensures Disjoint(a, b + c)
  {
    forall i, j | 0 <= i < |a| && 0 <= j < |b + c|
      ensures a[i].name != (b + c)[j].name
    {
      if j < |b| {
        assert (b + c)[j] == b[j];
      } else {
        assert (b + c)[j] == c[j - |b|];
      }
    }
  }

  // Within each group of the table, and between any two groups, names
  // differ.
  lemma BasicSubrsDistinct() ensures Distinct(BasicSubrs) {}
  lemma ListSubrsDistinct() ensures Distinct(ListSubrs) {}
  lemma CharSubrsDistinct() ensures Distinct(CharSubrs) {}
  lemma SymbolSubrsDistinct() ensures Distinct(SymbolSubrs) {}
  lemma ArithmeticSubrsDistinct() ensures Distinct(ArithmeticSubrs) {}
  lemma NumberCompareSubrsDistinct() ensures Distinct(NumberCompareSubrs) {}
  lemma ProcedureSubrsDistinct() ensures Distinct(ProcedureSubrs) {}
  lemma BasicListDisjoint() ensures Disjoint(BasicSubrs, ListSubrs) {}
  lemma BasicCharDisjoint() ensures Disjoint(BasicSubrs, CharSubrs) {}
  lemma BasicSymbolDisjoint() ensures Disjoint(BasicSubrs, SymbolSubrs) {}
  lemma BasicArithmeticDisjoint() ensures Disjoint(BasicSubrs, ArithmeticSubrs) {}
  lemma BasicNumberCompareDisjoint() ensures Disjoint(BasicSubrs, NumberCompareSubrs) {}
  lemma BasicProcedureDisjoint() ensures Disjoint(BasicSubrs, ProcedureSubrs) {}
  lemma ListCharDisjoint() ensures Disjoint(ListSubrs, CharSubrs) {}
  lemma ListSymbolDisjoint() ensures Disjoint(ListSubrs, SymbolSubrs) {}
  lemma ListArithmeticDisjoint() ensures Disjoint(ListSubrs, ArithmeticSubrs) {}
  lemma ListNumberCompareDisjoint() ensures Disjoint(ListSubrs, NumberCompareSubrs) {}
  lemma ListProcedureDisjoint() ensures Disjoint(ListSubrs, ProcedureSubrs) {}
  lemma CharSymbolDisjoint() ensures Disjoint(CharSubrs, SymbolSubrs) {}
  lemma CharArithmeticDisjoint() ensures Disjoint(CharSubrs, ArithmeticSubrs) {}
  lemma CharNumberCompareDisjoint() ensures Disjoint(CharSubrs, NumberCompareSubrs) {}
  lemma CharProcedureDisjoint() ensures Disjoint(CharSubrs, ProcedureSubrs) {}
  lemma SymbolArithmeticDisjoint() ensures Disjoint(SymbolSubrs, ArithmeticSubrs) {}
  lemma SymbolNumberCompareDisjoint() ensures Disjoint(SymbolSubrs, NumberCompareSubrs) {}
  lemma SymbolProcedureDisjoint() ensures Disjoint(SymbolSubrs, ProcedureSubrs) {}
  lemma ArithmeticNumberCompareDisjoint() ensures Disjoint(ArithmeticSubrs, NumberCompareSubrs) {}
  lemma ArithmeticProcedureDisjoint() ensures Disjoint(ArithmeticSubrs, ProcedureSubrs) {}
  lemma NumberCompareProcedureDisjoint() ensures Disjoint(NumberCompareSubrs, ProcedureSubrs) {}

  /** No name is registered twice, so every registered name finds its own
      entry and its own calling convention. */
  lemma NamesDistinct()
    ensures forall i, j :: 0 <= i < j < |Subrs| ==> Subrs[i].name != Subrs[j].name
    ensures forall i :: 0 <= i < |Subrs| ==> Find(Subrs, Subrs[i].name) == i
  {
    var p6 := ProcedureSubrs;
    var p5 := NumberCompareSubrs + p6;
    var p4 := ArithmeticSubrs + p5;
    var p3 := SymbolSubrs + p4;
    var p2 := CharSubrs + p3;
    var p1 := ListSubrs + p2;
    var p0 := BasicSubrs + p1;
    ProcedureSubrsDistinct();
    NumberCompareSubrsDistinct();
    NumberCompareProcedureDisjoint();
    DistinctConcat(NumberCompareSubrs, p6);
    ArithmeticSubrsDistinct();
    ArithmeticNumberCompareDisjoint();
    ArithmeticProcedureDisjoint();
    DisjointConcat(ArithmeticSubrs, NumberCompareSubrs, p6);
    DistinctConcat(ArithmeticSubrs, p5);
    SymbolSubrsDistinct();
    SymbolArithmeticDisjoint();
    SymbolNumberCompareDisjoint();
    SymbolProcedureDisjoint();
    DisjointConcat(SymbolSubrs, NumberCompareSubrs, p6);
    DisjointConcat(SymbolSubrs, ArithmeticSubrs, p5);
    DistinctConcat(SymbolSubrs, p4);
    CharSubrsDistinct();
    CharSymbolDisjoint();
    CharArithmeticDisjoint();
    CharNumberCompareDisjoint();
    CharProcedureDisjoint();
    DisjointConcat(CharSubrs, NumberCompareSubrs, p6);
    DisjointConcat(CharSubrs, ArithmeticSubrs, p5);
    DisjointConcat(CharSubrs, SymbolSubrs, p4);
    DistinctConcat(CharSubrs, p3);
    ListSubrsDistinct();
    ListCharDisjoint();
    ListSymbolDisjoint();
    ListArithmeticDisjoint();
    ListNumberCompareDisjoint();
    ListProcedureDisjoint();
    DisjointConcat(ListSubrs, NumberCompareSubrs, p6);
    DisjointConcat(ListSubrs, ArithmeticSubrs, p5);
    DisjointConcat(ListSubrs, SymbolSubrs, p4);
    DisjointConcat(ListSubrs, CharSubrs, p3);
    DistinctConcat(ListSubrs, p2);
    BasicSubrsDistinct();
    BasicListDisjoint();
    BasicCharDisjoint();
    BasicSymbolDisjoint();
    BasicArithmeticDisjoint();
    BasicNumberCompareDisjoint();
    BasicProcedureDisjoint();
    DisjointConcat(BasicSubrs, NumberCompareSubrs, p6);
    DisjointConcat(BasicSubrs, ArithmeticSubrs, p5);
    DisjointConcat(BasicSubrs, SymbolSubrs, p4);
    DisjointConcat(BasicSubrs, CharSubrs, p3);
    DisjointConcat(BasicSubrs, ListSubrs, p2);
    DistinctConcat(BasicSubrs, p1);
    assert Subrs == p0;
    forall i | 0 <= i < |Subrs|
      ensures Find(Subrs, Subrs[i].name) == i
    {
      FindDistinct(Subrs, i);
    }
  }

  /** Every entry of `table` obeys the conventions. */
  predicate Conventional(table: seq<Entry>)
  {
    forall i :: 0 <= i < |table| ==> Convention(table[i])
  }

  /** Concatenating conventional tables gives a conventional table. */
  lemma ConventionalConcat(a: seq<Entry>, b: seq<Entry>)
    requires Conventional(a) && Conventional(b)
    ensures Conventional(a + b)
  {
    forall i | 0 <= i < |a + b|
      ensures Convention((a + b)[i])
    {
      if i < |a| {
        assert (a + b)[i] == a[i];
      } else {
        assert (a + b)[i] == b[i - |a|];
      }
    }
  }

  lemma BasicSubrsConvention() ensures Conventional(BasicSubrs) {}
  lemma ListSubrsConvention() ensures Conventional(ListSubrs) {}
  lemma CharSubrsConvention() ensures Conventional(CharSubrs) {}
  lemma SymbolSubrsConvention() ensures Conventional(SymbolSubrs) {}
  lemma ArithmeticSubrsConvention() ensures Conventional(ArithmeticSubrs) {}
  lemma NumberCompareSubrsConvention() ensures Conventional(NumberCompareSubrs) {}
  lemma ProcedureSubrsConvention() ensures Conventional(ProcedureSubrs) {}

  /** Every entry obeys the table's calling conventions, and every
      registered native is a procedure value. */
  lemma ArityClasses()
    ensures forall i :: 0 <= i < |Subrs| ==> Convention(Subrs[i])
    ensures forall i :: 0 <= i < |Subrs| ==> ProcedureP(Prim(Subrs[i].name, Subrs[i].arity)) == Bool(true)
  {
    var p6 := ProcedureSubrs;
    var p5 := NumberCompareSubrs + p6;
    var p4 := ArithmeticSubrs + p5;
    var p3 := SymbolSubrs + p4;
    var p2 := CharSubrs + p3;
    var p1 := ListSubrs + p2;
    var p0 := BasicSubrs + p1;
    BasicSubrsConvention();
    ListSubrsConvention();
    CharSubrsConvention();
    SymbolSubrsConvention();
    ArithmeticSubrsConvention();
    NumberCompareSubrsConvention();
    ProcedureSubrsConvention();
    ConventionalConcat(NumberCompareSubrs, p6);
    ConventionalConcat(ArithmeticSubrs, p5);
    ConventionalConcat(SymbolSubrs, p4);
    ConventionalConcat(CharSubrs, p3);
    ConventionalConcat(ListSubrs, p2);
    ConventionalConcat(BasicSubrs, p1);
    assert Subrs == p0;
  }
}
