# Simple boolean predicates, modelled in Dafny

The library represents boolean expressions over user-defined literals as trees
(`Var`, `Not`, `Or`, `And`). It evaluates them against a context and rewrites
them into a conjunctive (CNF) or disjunctive (DNF) normal form. Each normal form
comes in two containers:

- a hash set of clauses (`CnfHashSet`, `DnfHashSet`);
- an order-preserving vector of clauses (`CnfVec`, `DnfVec`).

All four containers share one extraction loop:

1. simplify the input once;
2. pop an expression from a work-stack;
3. push a negation one level down;
4. distribute once at the root (`Or` over `And` for CNF, `And` over `Or` for DNF);
5. then either push the two children of a splitting node (`And` for CNF, `Or`
   for DNF) back on the stack, or record the result as a clause.

The project has five modules:

- `Exprs` (`expr.dfy`) holds the expression tree and its pure operations:
  - evaluation;
  - the commutative equality;
  - `simplify`, `pushdown_not`, `distribute_and`, `distribute_or`;
  - the `eq_repr` debug comparison.

  The literal's own evaluation against a context is a parameter
  `lit: V -> bool`.
- `Normalize` (`normalize.dfy`) is the specification of the extraction loop:
  - `Step` is one iteration's rewrite.
  - `Clauses` is the recursive list of clauses the stack loop emits, in order.
  - `Pending` gives the clauses still owed for a whole stack.
  - `Emitting` is the loop invariant, `Remaining` the termination measure.
  - `Holds` is the meaning of a clause list as a CNF (`all`) or a DNF (`any`).
- `VecForms` (`vec.dfy`) holds the vector-backed containers. Their `From<Expr>`
  is the imperative loop `Extract`, proved to append exactly `Clauses(form,
  Simplify(e))`.
- `HashForms` (`hash.dfy`) holds the set-backed containers. Their loop is proved
  to insert exactly the elements of that same list.
- `Examples` (`examples.dfy`) covers the library's own scenarios on numeric
  literals that hold when they occur in a context list. These include the
  three-level CNF and DNF traces.

`src/lib.rs` is an older revision of the same library. Its names map as follows:

- `Bool` for `Var`;
- `Data` for `Context`;
- `Cnf`/`Dnf` for the hash-set containers.

Its `Expr` code (lib.rs:83-200) is the code of `src/expr.rs` under those names.
Its `Cnf`/`Dnf` (lib.rs:211-342) are the code of `src/hash.rs` without `Default`.
The model therefore covers both. The table cites lib.rs lines on the members
that model the identical code.

## Model

| member | source | states |
|---|---|---|
| `Exprs.Eval` | src/expr.rs:144-151 | Definition, no contract: `Var` asks the literal, `Not` negates, `Or` is disjunction, `And` conjunction |
| `Exprs.EvalLaws` | src/lib.rs:175-183 | Evaluation obeys double negation and De Morgan, and `Or` is commutative under it |
| `Exprs.Equal` | src/expr.rs:155-168 | Definition, no contract: literals compare equal, `Not` compares its operand, `Or`/`And` compare their children as an unordered pair, and different operators are unequal |
| `Exprs.EqualReflexive` | src/lib.rs:187-200 | The commutative equality relates every tree to itself |
| `Exprs.EqualSymmetric` | src/lib.rs:194-197 | The commutative equality is symmetric |
| `Exprs.EqualSize` | src/expr.rs:159-166 | Equal trees have the same number of nodes |
| `Exprs.EqualSameEval` | src/expr.rs:155-168 | Trees that compare equal evaluate alike in every context |
| `Exprs.EqualCommutes` | src/expr.rs:159-166 | Swapping the children of `Or`/`And` gives an equal tree; trees with different root operators are never equal |
| `Exprs.EqualNotAssociative` | src/expr.rs:162-165 | Regrouping `(a op b) op c` as `a op (b op c)` is never equal unless `a` equals `c`: the equality is not associative |
| `Exprs.Simplify` | src/expr.rs:48-67 | The result never has more nodes than the input, and no `Or`/`And` node of it has two equal children |
| `Exprs.SimplifyPreservesEval` | src/expr.rs:47-67 | Simplification preserves the truth value in every context |
| `Exprs.SimplifyNotIdempotent` | src/expr.rs:52-59 | `Not(And(Not x, Not x))` simplifies to `Not(Not x)`, which a second pass turns into `x`: simplification is not idempotent |
| `Exprs.PushdownNot` | src/expr.rs:72-84 | Identity on non-`Not` roots; a `Not` result sits only above a literal; an `Or`/`And` result has children smaller than the input; the result grows only when both operands are new negations |
| `Exprs.PushdownNotPreservesEval` | src/expr.rs:70-84 | Negation pushdown preserves the truth value |
| `Exprs.DistributeAnd` | src/expr.rs:87-100 | On an `And` with an `Or` child the result is an `Or` of two `And`s, otherwise the input is returned; an `And` result never has an `Or` child |
| `Exprs.DistributeOr` | src/expr.rs:103-116 | The dual: on an `Or` with an `And` child the result is an `And` of two `Or`s, otherwise the input is returned; an `Or` result never has an `And` child |
| `Exprs.DistributePreservesEval` | src/lib.rs:119-147 | Both distribution steps preserve the truth value |
| `Exprs.DistributeSecondChildFirst` | src/expr.rs:107-108 | When both children qualify, the second child is split and the first is distributed over it |
| `Exprs.EqRepr` | src/expr.rs:123-138 | Definition, no contract: `eq_repr` as written, comparing each node's own two children at `Or`/`And` |
| `Exprs.EqReprAsWritten` | src/expr.rs:123-138 | The comparison as written is not reflexive, relates trees with different literals, and rejects some structurally close pairs |
| `Exprs.EqReprSymmetric` | src/lib.rs:154-169 | The comparison as written is symmetric |
| `Exprs.EqReprIntendedIsIdentity` | src/expr.rs:120-122 | The comparison the documentation describes holds exactly of identical trees, and implies the commutative equality |
| `Normalize.Step` | src/vec.rs:49 | One iteration's rewrite either yields a splitting node whose two children are strictly smaller than the popped expression, or has the shape of a clause |
| `Normalize.StepPreservesEval` | src/hash.rs:54 | One iteration's rewrite preserves the popped expression's truth value |
| `Normalize.Clauses` | src/vec.rs:48-58 | The clauses emitted for one stack item are never empty and all have clause shape: `Var`, `Not(Var)`, or the clause operator with no splitting-operator child |
| `Normalize.Pending` | src/vec.rs:44-46 | A stack owes at least one clause per item |
| `Normalize.PendingSplit` | src/vec.rs:50-53 | Pushing the two children in place of the popped item leaves the owed clauses unchanged |
| `Normalize.PendingClause` | src/vec.rs:54-56 | Popping an unsplit item owes exactly its rewrite first, then the rest of the stack |
| `Normalize.PopSplit` | src/hash.rs:134-139 | A split iteration keeps the loop invariant and decreases the termination measure |
| `Normalize.PopClause` | src/hash.rs:140-142 | A clause iteration keeps the loop invariant (emitted plus owed is the full list) and decreases the measure |
| `Normalize.ClauseCount` | src/vec.rs:45-58 | The loop emits exactly one more clause than it performs splits |
| `Normalize.Holds` | src/vec.rs:37 | Definition, no contract: a clause list as a CNF holds when `all` clauses hold, as a DNF when `any` does |
| `Normalize.HoldsEmpty` | src/vec.rs:36-38 | An empty CNF holds; an empty DNF does not |
| `Normalize.HoldsAppend` | src/vec.rs:117-119 | A concatenated CNF is the conjunction of the parts, a concatenated DNF their disjunction |
| `Normalize.ClausesPreserveEval` | src/vec.rs:125-139 | The clause list of an expression, read as a CNF or DNF, means the expression |
| `Normalize.NormalFormPreservesEval` | src/vec.rs:122-142 | Simplifying and extracting preserves the truth value in every context |
| `VecForms.Extract` | src/vec.rs:44-58 | The stack loop terminates and appends exactly the clauses `Clauses(form, Simplify(e))` lists, in that order, duplicates kept |
| `VecForms.CnfVec.FromExpr` | src/vec.rs:41-61 | `CnfVec::from`: clauses in pop order, one more than the splits, never empty, each of CNF clause shape, and the CNF evaluates like the input in every context |
| `VecForms.DnfVec.FromExpr` | src/vec.rs:122-142 | `DnfVec::from`: the same for DNF clauses |
| `VecForms.CnfVec.Eval` | src/vec.rs:36-38 | Definition, no contract: `all` clauses hold |
| `VecForms.CnfVec.IsEmpty` | src/vec.rs:28-30 | Definition, no contract: no clauses |
| `VecForms.CnfVec.IntoVec` | src/vec.rs:23-25 | Definition, no contract: the stored clauses |
| `VecForms.CnfVec.Equal` | src/vec.rs:63-67 | Definition, no contract: same length, and position-wise commutative equality |
| `VecForms.CnfVec.FromIter` | src/vec.rs:69-76 | Definition, no contract: stores the given clauses as they are |
| `VecForms.CnfVec.Default` | src/vec.rs:84-88 | Definition, no contract: no clauses |
| `VecForms.DnfVec.Eval` | src/vec.rs:117-119 | Definition, no contract: `any` clause holds |
| `VecForms.DnfVec.IsEmpty` | src/vec.rs:109-111 | Definition, no contract: no clauses |
| `VecForms.DnfVec.IntoVec` | src/vec.rs:104-106 | Definition, no contract: the stored clauses |
| `VecForms.DnfVec.Equal` | src/vec.rs:144-148 | Definition, no contract: same length, and position-wise commutative equality |
| `VecForms.DnfVec.FromIter` | src/vec.rs:150-157 | Definition, no contract: stores the given clauses as they are |
| `VecForms.DnfVec.Default` | src/vec.rs:165-169 | Definition, no contract: no clauses |
| `VecForms.EqualSameEval` | src/vec.rs:63-67 | Containers equal position by position under the commutative equality evaluate alike |
| `VecForms.Containers` | src/vec.rs:69-88 | `From<iter>` then `into_vec` returns the input unchanged; emptiness is that of the input; `Default` is empty, true as a CNF and false as a DNF |
| `HashForms.ToSet` | src/hash.rs:79 | Definition, no contract: `collect()` into a set, the set of the sequence's elements |
| `HashForms.ToSetSize` | src/hash.rs:60 | Collecting never yields more elements than were inserted, and exactly as many when they are distinct |
| `HashForms.ToSetSnoc` | src/hash.rs:141 | Appending to the emitted sequence inserts into the set |
| `HashForms.SetHolds` | src/hash.rs:42 | Definition, no contract: a clause set as a CNF holds when `all` clauses hold, as a DNF when `any` does |
| `HashForms.SetHoldsToSet` | src/hash.rs:41-43 | A clause set means the same as the clause list it was collected from, for CNF (`all`) and DNF (`any`) |
| `HashForms.Extract` | src/lib.rs:236-250 | The stack loop (the same as src/hash.rs:49-63 and 130-144) terminates and inserts exactly the elements of `Clauses(form, Simplify(e))` |
| `HashForms.Elements` | src/hash.rs:29 | Draining a set lists each element exactly once |
| `HashForms.CnfHashSet.IntoVec` | src/hash.rs:28-30 | `into_vec` returns every clause exactly once, in some order |
| `HashForms.DnfHashSet.IntoVec` | src/hash.rs:109-111 | The same for DNF |
| `HashForms.CnfHashSet.FromExpr` | src/hash.rs:46-66 | `CnfHashSet::from`: the distinct clauses of the loop, never empty, each of CNF clause shape, no more than the loop emits, and the CNF evaluates like the input |
| `HashForms.DnfHashSet.FromExpr` | src/hash.rs:127-147 | `DnfHashSet::from`: the same for DNF |
| `HashForms.CnfHashSet.Eval` | src/hash.rs:41-43 | Definition, no contract: `all` clauses hold |
| `HashForms.CnfHashSet.IsEmpty` | src/hash.rs:33-35 | Definition, no contract: no clauses |
| `HashForms.CnfHashSet.FromIter` | src/hash.rs:74-81 | Definition, no contract: collects the given clauses into a set |
| `HashForms.CnfHashSet.Default` | src/hash.rs:89-93 | Definition, no contract: the empty set |
| `HashForms.DnfHashSet.Eval` | src/hash.rs:122-124 | Definition, no contract: `any` clause holds |
| `HashForms.DnfHashSet.IsEmpty` | src/hash.rs:114-116 | Definition, no contract: no clauses |
| `HashForms.DnfHashSet.FromIter` | src/hash.rs:155-162 | Definition, no contract: collects the given clauses into a set |
| `HashForms.DnfHashSet.Default` | src/hash.rs:170-174 | Definition, no contract: the empty set |
| `HashForms.Containers` | src/hash.rs:74-93 | `From<iter>` depends only on which clauses are given, not their order or repetition; it is empty exactly for empty input; `Default` is empty, true as a CNF and false as a DNF |
| `Examples.In` | src/tests.rs:13-18 | Definition, no contract: the numeric literal holds when `data.contains(self)` |
| `Examples.LiteralScenarios` | src/tests.rs:20-73 | The literal, negation, disjunction and conjunction scenarios evaluate as the tests expect |
| `Examples.ThreeLevelSimplified` | src/tests.rs:80-94 | Simplification leaves the three-level expression unchanged |
| `Examples.LeftCnf` | src/tests.rs:104-115 | `Or(And(1,2), And(3,4))` yields `Or(4,2), Or(4,1), Or(3,2), Or(3,1)` in that order |
| `Examples.RightCnf` | src/tests.rs:97-103 | `And(Or(5,6), Or(7,8))` yields `Or(7,8), Or(5,6)` |
| `Examples.ThreeLevelToCnf` | src/tests.rs:96-121 | The three-level CNF is exactly the six expected clauses in the expected order, and the set container equals the one built from them |
| `Examples.ThreeLevelToDnf` | src/tests.rs:146-175 | The three-level DNF is exactly the two expected clauses, which still contain `Or` inside, and the set container equals the one built from them |
| `Examples.ThreeLevelContainers` | src/tests.rs:76-176 | Running the containers on the three-level expression gives the expected clauses and preserves its truth value |

## Left out

- Serialisation (the serde derives and the RON tests) is plumbing from an external library.
- Hashing is not modelled. The derived `Hash` is structural, while `PartialEq` on `Expr` is commutative, so equal trees such as `Or(a,b)` and `Or(b,a)` can hash differently. Whether a hash set merges them depends on hash values. The set containers therefore identify clauses by structural equality, and their `PartialEq` is Dafny's `==` on the container.
- `HashForms.CnfHashSet.IntoVec`, `HashForms.DnfHashSet.IntoVec`: the iteration order of a hash set is not modelled. The model fixes some order, and only the multiset of the result is stated.
- `From<CnfVec> for Vec`, `From<CnfHashSet> for Vec` and their DNF twins run the same code as `into_vec` and are not separate members.
- The user literal's `Eval` is the parameter `lit: V -> bool`. The numeric instance appears only in the examples.
- Literal equality is Dafny's `==` (identity), so two literals that compare equal always evaluate alike. In the library, a literal's `PartialEq` and its `eval` are independent (src/expr.rs:12-17, 160). Collapsing equal siblings (src/expr.rs:59, 64) preserves `eval` only when the literal's equality agrees with its evaluation. The model assumes this agreement. The following members rely on it: `Exprs.EqualSameEval`, `Exprs.SimplifyPreservesEval`, `Normalize.NormalFormPreservesEval`, `VecForms.EqualSameEval`, `VecForms.CnfVec.FromExpr`, `VecForms.DnfVec.FromExpr`, `HashForms.CnfHashSet.FromExpr`, `HashForms.DnfHashSet.FromExpr` and `Examples.ThreeLevelContainers`. A literal type whose equality disagrees with its evaluation would break their eval clauses.
- Rust-only details are not modelled: `Box`, `Clone`, moves, and the `Vec::with_capacity` hint. Trees are values, so ownership is invisible.
- `serialize_tests` and the rest of `src/tests.rs` are harness code. Only the scenarios are modelled.
- Distribution tie-break: when both children qualify, the or-patterns at src/expr.rs:91-92 and 107-108 try the second child first. That child is split and the first child is distributed over it (`Exprs.DistributeSecondChildFirst`).
- Simplification is not idempotent. `Exprs.SimplifyNotIdempotent` gives the counterexample.

## Findings

| source | as written | input that shows it | evidently intended | confidence | as-written member | corrected member |
|---|---|---|---|---|---|---|
| src/expr.rs:128-135 | At `Or`/`And`, `eq_repr` compares each tree's own two children (`a1` with `b1`, `a2` with `b2`) | `Or(Var 1, Var 2)` against itself is false; `Or(Var 1, Var 1)` against `Or(Var 2, Var 2)` is true | compare the trees position by position (`a1` with `a2`, `b1` with `b2`), which is structural identity | not executed; follows from the code | `Exprs.EqReprAsWritten` | `Exprs.EqReprIntendedIsIdentity` |
