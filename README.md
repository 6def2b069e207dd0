# Tscheme primitive catalogue in Dafny

Tscheme is a small Scheme interpreter written in C. Its file `subrs.c` holds
the native procedures ("subrs") that Scheme programs call. These cover
identity, type predicates, pairs and lists, characters, booleans, symbols,
strings, fixnum arithmetic and comparison, and closure accessors. The file
ends with `init_subrs`, which registers each native under its upper-case name
with a calling convention.

This project models that catalogue and proves what each native promises.

- **Values and the heap** (`values.dfy`): the interpreter's values are
  tagged machine words. A boxed object (pair, string, symbol, closure,
  environment) is a cell in one shared heap, and a value holds the cell's
  index. With that layout, `eq?` (comparison of the words) is value
  equality, and pairs are shared the way they are in the interpreter.
- **Wrong-type errors**: every `wta_error(name, index)` becomes an
  `Err(WrongType(name, index))` result. Two-argument natives check argument
  1 before argument 2.
- **Chains** (`chains.dfy`): `Drop`, `Cars` and `Refs` describe cdr-chains.
  They are the specification that the list natives are proved against. A
  ghost length `n` witnesses that a chain is finite.
- **Strings** (`strings.dfy`): `FirstNonString`, `TotalLength` and `Concat`
  describe the two passes of `string-append`.
- **Store** (`store.dfy`): the natives that read, mutate or allocate cells.
  - `Car` and `Cdr` are functions of the heap.
  - `cons`, `set-car!`, `set-cdr!`, `rec-append` and `string-append` are
    methods of the `Heap` class that change its `cells`.
  - The loops of `list?`, `length`, `memq`, `last` and `string-append` are
    `while` loops proved against the chain functions.
  - `string-append` keeps the interpreter's `char` buffer as an array.
- **Scalars** (`scalars.dfy`): the value-level natives. These are `eq?`,
  the type predicates (subrs.c:46-54, 158-161, 170-173, 219-221, 237-239,
  273-275, 399-401, 423-431, 435-437), `not`, the comparisons, fixnum arithmetic with C's
  truncating division, `symbol->string` and the closure accessors.
- **Registry** (`registry.dfy`): the table that `init_subrs` installs.

## Model

| member | source | states |
|---|---|---|
| Scalars.EqIsIdentity | subrs.c:34-42 | `neq?` is the negation of `eq?`; `eq?` is reflexive and symmetric; two different pair cells are never `eq?`, even with equal contents |
| Scalars.TypePredicatesPartition | subrs.c:423-431 | the tag predicates `pair?`, `null?`, `boolean?`, `char?`, `symbol?`, `string?`, `number?`, `closure?` and `environment?` (subrs.c:46-54, 158-161, 170-173, 219-221, 237-239, 273-275, 399-401, 435-437): at most one data-type predicate holds for any value, and exactly one holds except for natives and the unspecified value; `procedure?` holds exactly for closures and natives of all six conventions |
| Scalars.Not | subrs.c:164-166 | `not` returns a boolean, and returns #t exactly for #f (the empty list and 0 count as true) |
| Scalars.NotNot | subrs.c:164-166 | `not` is an involution on booleans |
| Scalars.CheckTwo | subrs.c:285-289 | the shared check fails exactly when an argument has the wrong type, and reports index 1 when the first is wrong, else index 2 |
| Scalars.CharCompare | subrs.c:176-214 | each `char` comparison signals index 1 for a non-character first argument and index 2 for a non-character second one; otherwise it returns #t exactly when the code points are in the named relation |
| Scalars.NumCompare | subrs.c:335-375 | each fixnum comparison has the same error cases with its own name; otherwise it returns #t exactly when the fixnums are in the named relation |
| Scalars.ComparisonsConsistent | subrs.c:335-375 | for characters and for fixnums: `<` and `>` are converses, `>=` is the converse of `<=`, `<=` is `<` or `=`, `=` is symmetric, and exactly one of `<`, `=` and `>` holds |
| Scalars.Quot | subrs.c:317 | C's `/` truncates toward zero: the quotient's magnitude is the magnitudes' quotient, and the remainder is smaller than the divisor and has the dividend's sign |
| Scalars.QuotRem | subrs.c:317 | for the sign-adjusted magnitude quotient, the remainder bound and sign hold in all four sign cases |
| Scalars.Arith | subrs.c:285-318 | `+ - * /` signal index 1 or 2 for a non-fixnum argument, checking the first argument first; otherwise each returns a fixnum that is the sum, difference, product or truncated quotient |
| Scalars.ArithInverses | subrs.c:285-318 | `-` undoes `+`, and `/` by a nonzero fixnum undoes `*` by it |
| Scalars.ZeroP | subrs.c:278-282 | `zero?` signals index 1 for a non-fixnum, and otherwise returns #t exactly for 0 |
| Scalars.OnePlus | subrs.c:321-325 | `1+` signals index 1 for a non-fixnum, and otherwise returns a larger fixnum |
| Scalars.MinusOnePlus | subrs.c:328-332 | `-1+` signals index 1 for a non-fixnum, and otherwise returns a smaller fixnum |
| Scalars.SuccPredInverse | subrs.c:321-332 | `1+` and `-1+` undo each other, and they agree with `+ 1` and `- 1` |
| Scalars.SymbolToString | subrs.c:223-227 | `symbol->string` signals index 1 for a non-symbol; otherwise it returns the symbol's own print-name string, which is well formed |
| Scalars.SymbolsEqByName | subrs.c:223-227 | in an interned heap (every heap the `Heap` methods maintain), two symbols are `eq?` exactly when their print names have the same characters |
| Scalars.ClosureVars | subrs.c:409-413 | `closure-vars` signals index 1 for a non-closure; otherwise it returns the car of the closure's code pair |
| Scalars.ClosureBody | subrs.c:403-407 | `closure-body` signals index 1 for a non-closure; otherwise it returns the cdr of the closure's code pair |
| Scalars.ClosureEnv | subrs.c:415-419 | `closure-env` signals index 1 for a non-closure; otherwise it returns the closure's environment, which is well formed |
| Scalars.ClosureCodeSplits | subrs.c:403-413 | a closure's code is a pair whose car is `closure-vars` and whose cdr is `closure-body` |
| Store.Car | subrs.c:74-78 | `car` succeeds exactly on pairs and returns the first element of the chain; a non-pair signals index 1; in a well-formed heap the result is well formed |
| Store.Cdr | subrs.c:81-85 | `cdr` succeeds exactly on pairs and returns the rest of the chain after one step; a non-pair signals index 1 |
| Store.NList | subrs.c:104-106 | given the evaluator's proper list of `n` arguments, `list` returns a proper list of exactly those `n` arguments in order, made of the very same pair cells (no copy) |
| Store.CarCdrOfCons | subrs.c:69-71 | `car` and `cdr` of a freshly consed pair return the two values it was built from, unchanged |
| Store.Heap.Cons | subrs.c:69-71 | `cons` appends one pair cell holding the two values, returns its index, and leaves the heap well formed |
| Store.Heap.SetCar | subrs.c:88-93 | on a non-pair, `set-car!` signals index 1 and leaves the heap unchanged; on a pair, it replaces only that cell's car, keeps its cdr, returns the unspecified value, and keeps the heap well formed |
| Store.Heap.SetCdr | subrs.c:96-101 | on a non-pair, `set-cdr!` signals index 1 and leaves the heap unchanged; on a pair, it replaces only that cell's cdr, keeps its car, returns the unspecified value, and keeps the heap well formed |
| Store.Heap.ListP | subrs.c:57-67 | `list?` returns true exactly when the finite cdr-chain ends in the empty list, so the empty list is true and a dotted list is false |
| Store.Heap.Length | subrs.c:109-119 | `length` signals index 1 for every non-pair, the empty list included; otherwise it returns the number of pairs in the chain |
| Store.Heap.Memq | subrs.c:122-132 | `memq` returns the suffix that starts at the first element `eq?` to the key; with no such element it returns #f on a proper list and signals index 2 on a dotted one; it does not change the heap |
| Store.Heap.Last | subrs.c:135-143 | `last` returns the empty list for the empty list and signals index 1 for any other non-pair; for a pair it returns the chain's final pair, whose cdr is not a pair |
| Store.Heap.RecAppend | subrs.c:146-154 | a chain ending in anything other than the empty list signals index 1 with the heap unchanged; otherwise exactly `n` fresh pairs are added, holding the elements of `xs` in order and ending in `ys` itself; the old cells are unchanged |
| Store.AppendChain | subrs.c:146-154 | the list `rec-append` returns holds the elements of `xs` followed by those of `ys`, and it ends where `ys` ends |
| Store.CopyIsolated | subrs.c:146-154 | `rec-append` copies `xs`: overwriting any pair of the copy leaves the original list's pairs, elements and terminator unchanged |
| Store.ScanStrings | subrs.c:244-249 | the first pass reports the 1-based position of the first non-string argument, and otherwise returns the total length of all the arguments |
| Store.FillBuffer | subrs.c:253-262 | the second pass fills a fresh buffer of size `len + 1` with the arguments' characters concatenated in order, followed by a NUL |
| Store.CopyChars | subrs.c:255-259 | the inner copy loop writes the string at position `p`, returns `p` plus its length, and leaves the part of the buffer before `p` unchanged |
| Store.Heap.StringAppend | subrs.c:241-268 | `string-append` signals the 1-based position of the first non-string with the heap unchanged; otherwise it allocates one new string cell holding the concatenation of all the arguments |
| Strings.FirstNonString | subrs.c:244-246 | the position it returns is either the end of the list or a non-string, and every argument before it is a string |
| Strings.ConcatLength | subrs.c:250-262 | the concatenated characters are exactly as long as the total the first pass computed, so the buffer is filled exactly |
| Strings.ConcatAt | subrs.c:255-261 | each argument's characters sit in the result at the sum of the earlier arguments' lengths |
| Strings.TotalLengthPrefix | subrs.c:244-249 | the running total after any prefix of the arguments never exceeds the final total |
| Chains.IndexOf | subrs.c:122-132 | the position `memq` stops at: every earlier element differs from the key, and the element there equals it |
| Registry.Find | subrs.c:452-526 | lookup by exact name returns the first entry with that name, or the table size when no entry has it |
| Registry.NamesDistinct | subrs.c:452-526 | no name is registered twice, so looking up any registered name finds its own entry |
| Registry.ArityClasses | subrs.c:452-526 | only `LIST` and `STRING-APPEND` are variadic, only `THE-ENVIRONMENT` takes its arguments unevaluated, no native takes zero or three arguments, and `procedure?` holds for every registered native |

## Left out

- `string->number` and `number->string` (subrs.c:377-395) are not modelled. They depend on the C library's `atoi` and `sprintf`.
- `string->symbol` (subrs.c:229-233) is not modelled, because interning happens in `mk_symbol`, which is not part of this model. `Strings.Interned` states only the symbol table's invariant. `Store.Heap.Valid` includes it, and `cons`, `set-car!`, `set-cdr!`, `rec-append` and `string-append` keep it, because they only add pair or string cells and only overwrite pair cells.
- `the-environment`, `listify-environment` and `SYS:EVAL` (subrs.c:439-450, 525) are not modelled, because they depend on the evaluator's environment representation. The table records only their names and conventions.
- The registry is a static list of (name, calling convention) entries. Installing natives into the symbol table through `mk_subr`/`mk_fsubr` is not part of this model.
- Scalars.Arith: fixnums are mathematical integers. The machine width of fixnums and the wrap-around of C arithmetic are not modelled, because `tscheme.h`, which fixes the fixnum width, is not part of this model.
- Scalars.OnePlus and Scalars.MinusOnePlus state only that the result is larger or smaller. Their exact values are stated by Scalars.SuccPredInverse.
- Scalars.Arith requires a nonzero divisor for `/`. The interpreter performs an unchecked C division there, and its behaviour on zero is undefined.
- Store.Heap.ListP: requires a finite cdr-chain (the ghost `n`); on a circular list the interpreter's loop runs forever.
- Store.Heap.Length: requires a finite cdr-chain (the ghost `n`); on a circular list the interpreter's loop runs forever.
- Store.Heap.Memq: requires a finite cdr-chain (the ghost `n`); on a circular list the interpreter's loop runs forever. `memq` would stop on a circular list that contains the key, and that case is excluded too.
- Store.Heap.Last: requires a finite cdr-chain (the ghost `n`); on a circular list the interpreter's loop runs forever.
- Store.Heap.RecAppend: requires a finite cdr-chain (the ghost `n`); on a circular list the interpreter's loop runs forever.
- Store.ScanStrings: requires a finite cdr-chain (the ghost `n`); on a circular list the interpreter's loop runs forever.
- Store.FillBuffer: requires a finite cdr-chain (the ghost `n`); on a circular list the interpreter's loop runs forever.
- Store.ScanStrings: requires the argument list to end in the empty list. The evaluator always builds it that way, and the interpreter would apply `CAR` to any other terminator unchecked.
- Store.FillBuffer: requires the argument list to end in the empty list. The evaluator always builds it that way, and the interpreter would apply `CAR` to any other terminator unchecked.
- Store.Heap.StringAppend: requires the argument list to end in the empty list. The evaluator always builds it that way, and the interpreter would apply `CAR` to any other terminator unchecked.
- Store.Heap.StringAppend does not model the C `int` overflow of its length and argument counters, nor the `fatal_error` taken when `malloc` fails.
- Store.Heap.Length: the count is an unbounded integer. The C `long` counter and the fixnum conversion are not modelled.
- The `setjmp`/`longjmp` mechanism behind `wta_error` is replaced by the `Result` value. Garbage collection is not modelled; the heap only grows.
- The heap invariant (`HeapOk`) assumes that every symbol's print name is a string and every closure's code is a pair. The evaluator and the allocator maintain this, and the natives rely on it without checking (subrs.c:226, 406, 412). The model assumes it, and `Scalars.SymbolToString` and `Scalars.ClosureCodeSplits` take those shapes from it.
- `Scalars.Eq` assumes immediate fixnums and characters, so `eq?` on them compares their values.
- `last` on a dotted list returns the final pair, whose cdr holds the atom, and not the atom itself. The model follows the code (subrs.c:139-142).
- `length` counts the pairs of a dotted list and ignores its terminator. The model follows the code.
