/** The extraction loop shared by every normal-form container, stated as a
    recursive specification: what one iteration does to a popped expression,
    which results are split and which become clauses, and the clause sequence
    that the depth-first stack loop emits. */
module Normalize {
  import opened Exprs

  /** The target of an extraction: CNF splits `And` results and distributes
      `Or` over `And`; DNF splits `Or` results and distributes `And` over `Or`. */
  datatype Form = Cnf | Dnf

  /** The popped-and-rewritten expression is pushed back as its two children. */
  predicate IsSplit<V>(form: Form, d: Expr<V>)
  {
    match form
    case Cnf => d.And?
    case Dnf => d.Or?
  }

  /** The shape of a finished clause: a literal, a negated literal, or a node
      of the clause operator (`Or` for CNF, `And` for DNF) neither of whose
      children is rooted at the splitting operator. */
  predicate IsClause<V>(form: Form, c: Expr<V>)
  {
    match c
    case Var(_) => true
    case Not(p) => p.Var?
    case Or(a, b) => form == Cnf && !a.And? && !b.And?
    case And(a, b) => form == Dnf && !a.Or? && !b.Or?
  }

  /** What one iteration does to a popped expression: `pushdown_not`, then
      `distribute_or` for CNF or `distribute_and` for DNF. A result that is
      split has two children strictly smaller than the popped expression; any
      other result has the shape of a clause. */
  function Step<V>(form: Form, x: Expr<V>): (d: Expr<V>)
    ensures IsSplit(form, d) ==> Size(d.a) < Size(x) && Size(d.b) < Size(x)
    ensures IsSplit(form, d) || IsClause(form, d)
  {
    match form
    case Cnf => DistributeOr(PushdownNot(x))
    case Dnf => DistributeAnd(PushdownNot(x))
  }

  /** One iteration preserves the meaning of the popped expression. */
  lemma StepPreservesEval<V>(form: Form, x: Expr<V>, lit: V -> bool)
    ensures Eval(Step(form, x), lit) == Eval(x, lit)
  {
    PushdownNotPreservesEval(x, lit);
    DistributePreservesEval(PushdownNot(x), lit);
  }

  /** The clauses the loop emits, in order, for an expression on top of the
      stack: a split pushes the first child and then the second, so the
      second child's clauses come out first. Never empty, and every element
      has the shape of a clause. */
  function Clauses<V>(form: Form, x: Expr<V>): (cs: seq<Expr<V>>)
    ensures |cs| >= 1
    ensures forall c <- cs :: IsClause(form, c)
    decreases Size(x)
  {
    var d := Step(form, x);
    if IsSplit(form, d) then Clauses(form, d.b) + Clauses(form, d.a) else [d]
  }

  /** The clauses still to be emitted for a whole work-stack, top (last) first. */
  function Pending<V>(form: Form, queue: seq<Expr<V>>): (cs: seq<Expr<V>>)
    ensures |cs| >= |queue|
  {
    if queue == [] then []
    else Clauses(form, queue[|queue| - 1]) + Pending(form, queue[..|queue| - 1])
  }

  /** Pushing the two children of a split in place of the popped expression
      leaves the clauses still to be emitted unchanged. */
  lemma PendingSplit<V>(form: Form, rest: seq<Expr<V>>, x: Expr<V>)
    requires IsSplit(form, Step(form, x))
    ensures Pending(form, rest + [Step(form, x).a, Step(form, x).b]) == Pending(form, rest + [x])
  {
    var d := Step(form, x);
    var queue := rest + [d.a, d.b];
    assert queue[..|queue| - 1] == rest + [d.a];
    assert (rest + [d.a])[..|rest|] == rest;
    assert (rest + [x])[..|rest|] == rest;
    calc {
      Pending(form, queue);
      Clauses(form, d.b) + Pending(form, rest + [d.a]);
      Clauses(form, d.b) + (Clauses(form, d.a) + Pending(form, rest));
      (Clauses(form, d.b) + Clauses(form, d.a)) + Pending(form, rest);
      Clauses(form, x) + Pending(form, rest);
      Pending(form, rest + [x]);
    }
  }

  /** Emitting the clause of an unsplit popped expression. */
  lemma PendingClause<V>(form: Form, rest: seq<Expr<V>>, x: Expr<V>)
    requires !IsSplit(form, Step(form, x))
    ensures Pending(form, rest + [x]) == [Step(form, x)] + Pending(form, rest)
  {
    assert (rest + [x])[..|rest|] == rest;
  }

  /** The loop invariant of the extraction: the clauses emitted so far,
      followed by those still pending on the stack, are the specification's. */
  ghost predicate Emitting<V>(form: Form, root: Expr<V>, clauses: seq<Expr<V>>, queue: seq<Expr<V>>)
  {
    clauses + Pending(form, queue) == Clauses(form, root)
  }

  /** Iterations still to run: each split item costs one, each clause one. */
  ghost function Remaining<V>(form: Form, queue: seq<Expr<V>>): nat
  {
    2 * |Pending(form, queue)| - |queue|
  }

  /** A split iteration keeps the invariant and brings the loop closer to
      its end. */
  lemma PopSplit<V>(form: Form, root: Expr<V>, clauses: seq<Expr<V>>, rest: seq<Expr<V>>, x: Expr<V>)
    requires Emitting(form, root, clauses, rest + [x])
    requires IsSplit(form, Step(form, x))
    ensures Emitting(form, root, clauses, rest + [Step(form, x).a, Step(form, x).b])
    ensures Remaining(form, rest + [Step(form, x).a, Step(form, x).b]) < Remaining(form, rest + [x])
  {
    PendingSplit(form, rest, x);
  }

  /** An iteration that emits a clause keeps the invariant and brings the
      loop closer to its end. */
  lemma PopClause<V>(form: Form, root: Expr<V>, clauses: seq<Expr<V>>, rest: seq<Expr<V>>, x: Expr<V>)
    requires Emitting(form, root, clauses, rest + [x])
    requires !IsSplit(form, Step(form, x))
    ensures Emitting(form, root, clauses + [Step(form, x)], rest)
    ensures Remaining(form, rest) < Remaining(form, rest + [x])
  {
    PendingClause(form, rest, x);
    var d := Step(form, x);
    assert (clauses + [d]) + Pending(form, rest) == clauses + ([d] + Pending(form, rest));
  }

  /** Number of split iterations the loop spends on an expression. */
  function Splits<V>(form: Form, x: Expr<V>): nat
    decreases Size(x)
  {
    var d := Step(form, x);
    if IsSplit(form, d) then 1 + Splits(form, d.a) + Splits(form, d.b) else 0
  }

  /** Each split adds exactly one clause to the one an unsplit item gives. */
  lemma {:induction false} ClauseCount<V>(form: Form, x: Expr<V>)
    ensures |Clauses(form, x)| == Splits(form, x) + 1
    decreases Size(x)
  {
    var d := Step(form, x);
    if IsSplit(form, d) {
      ClauseCount(form, d.a);
      ClauseCount(form, d.b);
    }
  }

  /** The meaning of a clause sequence: CNF holds when every clause holds (so
      the empty CNF holds), DNF when some clause holds (so the empty DNF does
      not). */
  predicate Holds<V>(form: Form, cs: seq<Expr<V>>, lit: V -> bool)
  {
    match form
    case Cnf => forall i | 0 <= i < |cs| :: Eval(cs[i], lit)
    case Dnf => exists i | 0 <= i < |cs| :: Eval(cs[i], lit)
  }

  /** The vacuous cases: no clauses is true as a CNF and false as a DNF. */
  lemma HoldsEmpty<V>(lit: V -> bool)
    ensures Holds(Cnf, [], lit)
    ensures !Holds(Dnf, [], lit)
  {
  }

  /** A CNF of two concatenated sequences is their conjunction, a DNF their
      disjunction. */
  lemma HoldsAppend<V>(form: Form, xs: seq<Expr<V>>, ys: seq<Expr<V>>, lit: V -> bool)
    ensures Holds(form, xs + ys, lit)
         == if form == Cnf then Holds(form, xs, lit) && Holds(form, ys, lit)
            else Holds(form, xs, lit) || Holds(form, ys, lit)
  {
    var zs := xs + ys;
    assert forall i | 0 <= i < |xs| :: zs[i] == xs[i];
    assert forall j | 0 <= j < |ys| :: zs[|xs| + j] == ys[j];
    if form == Dnf && Holds(form, zs, lit) {
      var i :| 0 <= i < |zs| && Eval(zs[i], lit);
      if i >= |xs| { assert zs[|xs| + (i - |xs|)] == ys[i - |xs|]; }
    }
    if form == Cnf && Holds(form, xs, lit) && Holds(form, ys, lit) {
      forall i | 0 <= i < |zs| ensures Eval(zs[i], lit) {
        if i >= |xs| { assert zs[|xs| + (i - |xs|)] == ys[i - |xs|]; }
      }
    }
  }

  /** The clauses of an expression, read as a CNF or DNF, mean the
      expression itself. */
  lemma {:induction false} ClausesPreserveEval<V>(form: Form, x: Expr<V>, lit: V -> bool)
    ensures Holds(form, Clauses(form, x), lit) == Eval(x, lit)
    decreases Size(x)
  {
    var d := Step(form, x);
    StepPreservesEval(form, x, lit);
    if IsSplit(form, d) {
      ClausesPreserveEval(form, d.a, lit);
      ClausesPreserveEval(form, d.b, lit);
      HoldsAppend(form, Clauses(form, d.b), Clauses(form, d.a), lit);
    } else {
      assert Clauses(form, x) == [d];
      assert [d][0] == d;
    }
  }

  /** Normalisation preserves meaning: simplifying once and then extracting
      clauses gives a CNF or DNF that holds exactly when the input does. */
  lemma NormalFormPreservesEval<V>(form: Form, e: Expr<V>, lit: V -> bool)
    ensures Holds(form, Clauses(form, Simplify(e)), lit) == Eval(e, lit)
  {
    ClausesPreserveEval(form, Simplify(e), lit);
    SimplifyPreservesEval(e, lit);
  }
}
