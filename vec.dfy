/** The order-preserving containers: a CNF or DNF stored as a sequence of
    clauses that keeps extraction order and duplicates. */
module VecForms {
  import opened Exprs
  import opened Normalize

  /** The stack loop of `From<Expr>`: simplify once, then pop, rewrite, and
      either push the two children of a split or append a finished clause.
      The clauses come out exactly as the specification `Clauses` lists them. */
  method Extract<V(==)>(form: Form, e: Expr<V>) returns (clauses: seq<Expr<V>>)
    ensures clauses == Clauses(form, Simplify(e))
  {
    var root := Simplify(e);
    var queue := [root];
    clauses := [];
    assert queue == [] + [root];
    while queue != []
      invariant Emitting(form, root, clauses, queue)
      decreases Remaining(form, queue)
    {
      var x := queue[|queue| - 1];
      var rest := queue[..|queue| - 1];
      assert queue == rest + [x];
      var d := Step(form, x);
      if IsSplit(form, d) {
        PopSplit(form, root, clauses, rest, x);
        queue := rest + [d.a, d.b];
      } else {
        PopClause(form, root, clauses, rest, x);
        queue := rest;
        clauses := clauses + [d];
      }
    }
  }

  /** A CNF stored as a sequence of clauses. */
  datatype CnfVec<V(==)> = CnfVec(clauses: seq<Expr<V>>)
  {
    /** Every clause holds; the empty CNF holds. */
    predicate Eval(lit: V -> bool)
    {
      Holds(Cnf, clauses, lit)
    }

    predicate IsEmpty()
    {
      |clauses| == 0
    }

    function IntoVec(): seq<Expr<V>>
    {
      clauses
    }

    /** Position-by-position comparison with the commutative tree equality. */
    predicate Equal(other: CnfVec<V>)
    {
      |clauses| == |other.clauses|
      && forall i | 0 <= i < |clauses| :: Exprs.Equal(clauses[i], other.clauses[i])
    }

    /** Normalises `e`: the clauses are those of `Clauses(Cnf, ...)` in pop
        order, one more than the number of splits and so never empty, each an
        `Or` of non-`And` children or a (negated) literal, and the CNF means
        what `e` means in every context. */
    static method FromExpr(e: Expr<V>) returns (r: CnfVec<V>)
      ensures r.clauses == Clauses(Cnf, Simplify(e))
      ensures !r.IsEmpty() && forall c <- r.clauses :: IsClause(Cnf, c)
      ensures |r.clauses| == Splits(Cnf, Simplify(e)) + 1
      ensures forall lit: V -> bool :: r.Eval(lit) == Exprs.Eval(e, lit)
    {
      var clauses := Extract(Cnf, e);
      r := CnfVec(clauses);
      ClauseCount(Cnf, Simplify(e));
      forall lit: V -> bool ensures r.Eval(lit) == Exprs.Eval(e, lit) {
        NormalFormPreservesEval(Cnf, e, lit);
      }
    }

    /** Wraps pre-built clauses as they are, without normalising them. */
    static function FromIter(xs: seq<Expr<V>>): CnfVec<V>
    {
      CnfVec(xs)
    }

    static function Default(): CnfVec<V>
    {
      CnfVec([])
    }
  }

  /** A DNF stored as a sequence of clauses. */
  datatype DnfVec<V(==)> = DnfVec(clauses: seq<Expr<V>>)
  {
    /** Some clause holds; the empty DNF does not hold. */
    predicate Eval(lit: V -> bool)
    {
      Holds(Dnf, clauses, lit)
    }

    predicate IsEmpty()
    {
      |clauses| == 0
    }

    function IntoVec(): seq<Expr<V>>
    {
      clauses
    }

    /** Position-by-position comparison with the commutative tree equality. */
    predicate Equal(other: DnfVec<V>)
    {
      |clauses| == |other.clauses|
      && forall i | 0 <= i < |clauses| :: Exprs.Equal(clauses[i], other.clauses[i])
    }

    /** Normalises `e`: the clauses are those of `Clauses(Dnf, ...)` in pop
        order, one more than the number of splits and so never empty, each an
        `And` of non-`Or` children or a (negated) literal, and the DNF means
        what `e` means in every context. */
    static method FromExpr(e: Expr<V>) returns (r: DnfVec<V>)
      ensures r.clauses == Clauses(Dnf, Simplify(e))
      ensures !r.IsEmpty() && forall c <- r.clauses :: IsClause(Dnf, c)
      ensures |r.clauses| == Splits(Dnf, Simplify(e)) + 1
      ensures forall lit: V -> bool :: r.Eval(lit) == Exprs.Eval(e, lit)
    {
      var clauses := Extract(Dnf, e);
      r := DnfVec(clauses);
      ClauseCount(Dnf, Simplify(e));
      forall lit: V -> bool ensures r.Eval(lit) == Exprs.Eval(e, lit) {
        NormalFormPreservesEval(Dnf, e, lit);
      }
    }

    /** Wraps pre-built clauses as they are, without normalising them. */
    static function FromIter(xs: seq<Expr<V>>): DnfVec<V>
    {
      DnfVec(xs)
    }

    static function Default(): DnfVec<V>
    {
      DnfVec([])
    }
  }

  /** Containers that compare equal clause by clause mean the same CNF or DNF. */
  lemma EqualSameEval<V>(x: CnfVec<V>, y: CnfVec<V>, u: DnfVec<V>, w: DnfVec<V>, lit: V -> bool)
    ensures x.Equal(y) ==> x.Eval(lit) == y.Eval(lit)
    ensures u.Equal(w) ==> u.Eval(lit) == w.Eval(lit)
  {
    if x.Equal(y) {
      forall i | 0 <= i < |x.clauses| ensures Exprs.Eval(x.clauses[i], lit) == Exprs.Eval(y.clauses[i], lit) {
        Exprs.EqualSameEval(x.clauses[i], y.clauses[i], lit);
      }
    }
    if u.Equal(w) {
      forall i | 0 <= i < |u.clauses| ensures Exprs.Eval(u.clauses[i], lit) == Exprs.Eval(w.clauses[i], lit) {
        Exprs.EqualSameEval(u.clauses[i], w.clauses[i], lit);
      }
    }
  }

  /** Pre-built clauses go in and come out unchanged, order and duplicates
      included; the default container is the empty one, which as a CNF holds
      and as a DNF does not. */
  lemma Containers<V>(xs: seq<Expr<V>>, lit: V -> bool)
    ensures CnfVec.FromIter(xs).IntoVec() == xs && DnfVec.FromIter(xs).IntoVec() == xs
    ensures CnfVec.FromIter(xs).IsEmpty() <==> xs == []
    ensures DnfVec.FromIter(xs).IsEmpty() <==> xs == []
    ensures CnfVec<V>.Default().IsEmpty() && CnfVec<V>.Default().Eval(lit)
    ensures DnfVec<V>.Default().IsEmpty() && !DnfVec<V>.Default().Eval(lit)
  {
  }
}
