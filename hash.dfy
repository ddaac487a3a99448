/** The deduplicating containers: a CNF or DNF stored as a hash set of
    clauses, so order and repeated clauses are lost. The model identifies
    clauses by structural equality; how the library's hashing and its
    commutative equality interact is not modelled. */
module HashForms {
  import opened Exprs
  import opened Normalize

  /** The set of the elements of a sequence: what collecting into a hash set
      keeps. */
  function ToSet<V(==)>(xs: seq<Expr<V>>): set<Expr<V>>
  {
    set c | c in xs
  }

  /** Collecting drops duplicates and nothing else: never more elements than
      were collected, and exactly as many when they were pairwise distinct. */
  lemma {:induction false} ToSetSize<V>(xs: seq<Expr<V>>)
    ensures |ToSet(xs)| <= |xs|
    ensures (forall i, j | 0 <= i < j < |xs| :: xs[i] != xs[j]) ==> |ToSet(xs)| == |xs|
  {
    if xs != [] {
      var init := xs[..|xs| - 1];
      var last := xs[|xs| - 1];
      ToSetSize(init);
      assert ToSet(xs) == ToSet(init) + {last} by {
        assert xs == init + [last];
      }
      if forall i, j | 0 <= i < j < |xs| :: xs[i] != xs[j] {
        assert last !in ToSet(init);
      }
    }
  }

  /** Appending to the sequence inserts into the set. */
  lemma ToSetSnoc<V>(xs: seq<Expr<V>>, c: Expr<V>)
    ensures ToSet(xs + [c]) == ToSet(xs) + {c}
  {
  }

  /** The meaning of a set of clauses: CNF holds when every clause holds, DNF
      when some clause holds. */
  predicate SetHolds<V(==)>(form: Form, s: set<Expr<V>>, lit: V -> bool)
  {
    match form
    case Cnf => forall c | c in s :: Eval(c, lit)
    case Dnf => exists c | c in s :: Eval(c, lit)
  }

  /** A CNF or DNF means the same whether its clauses are kept in a sequence
      or collected into a set. */
  lemma SetHoldsToSet<V>(form: Form, xs: seq<Expr<V>>, lit: V -> bool)
    ensures SetHolds(form, ToSet(xs), lit) == Holds(form, xs, lit)
  {
    if form == Dnf && Holds(form, xs, lit) {
      var i :| 0 <= i < |xs| && Eval(xs[i], lit);
      assert xs[i] in ToSet(xs);
    }
  }

  /** The stack loop of `From<Expr>` inserting into a set: simplify once, then
      pop, rewrite, and either push the two children of a split or insert a
      finished clause. The set holds exactly the clauses that `Clauses` lists.
      `emitted` is the sequence of insertions, which the set forgets. */
  method Extract<V(==)>(form: Form, e: Expr<V>) returns (clauses: set<Expr<V>>)
    ensures clauses == ToSet(Clauses(form, Simplify(e)))
  {
    var root := Simplify(e);
    var queue := [root];
    clauses := {};
    ghost var emitted: seq<Expr<V>> := [];
    assert queue == [] + [root];
    while queue != []
      invariant Emitting(form, root, emitted, queue)
      invariant clauses == ToSet(emitted)
      decreases Remaining(form, queue)
    {
      var x := queue[|queue| - 1];
      var rest := queue[..|queue| - 1];
      assert queue == rest + [x];
      var d := Step(form, x);
      if IsSplit(form, d) {
        PopSplit(form, root, emitted, rest, x);
        queue := rest + [d.a, d.b];
      } else {
        PopClause(form, root, emitted, rest, x);
        ToSetSnoc(emitted, d);
        queue := rest;
        clauses := clauses + {d};
        emitted := emitted + [d];
      }
    }
  }

  /** The elements of a set in some order, each exactly once: the order a
      hash set iterates in is unspecified, so the model picks one. */
  ghost function Elements<V>(s: set<Expr<V>>): (xs: seq<Expr<V>>)
    ensures multiset(xs) == multiset(s)
  {
    if s == {} then []
    else
      var c :| c in s;
      assert multiset(s) == multiset(s - {c}) + multiset{c};
      [c] + Elements(s - {c})
  }

  /** A CNF stored as a hash set of clauses. */
  datatype CnfHashSet<V(==)> = CnfHashSet(clauses: set<Expr<V>>)
  {
    /** Every clause holds; the empty CNF holds. */
    predicate Eval(lit: V -> bool)
    {
      SetHolds(Cnf, clauses, lit)
    }

    predicate IsEmpty()
    {
      |clauses| == 0
    }

    /** The clauses in an unspecified order, each exactly once. */
    ghost function IntoVec(): (xs: seq<Expr<V>>)
      ensures multiset(xs) == multiset(clauses)
    {
      Elements(clauses)
    }

    /** Normalises `e`: the clauses are the distinct ones of
        `Clauses(Cnf, ...)`, never empty, each an `Or` of non-`And` children
        or a (negated) literal, no more of them than the loop emits, and the
        CNF means what `e` means in every context. */
    static method FromExpr(e: Expr<V>) returns (r: CnfHashSet<V>)
      ensures r.clauses == ToSet(Clauses(Cnf, Simplify(e)))
      ensures !r.IsEmpty() && forall c | c in r.clauses :: IsClause(Cnf, c)
      ensures |r.clauses| <= |Clauses(Cnf, Simplify(e))|
      ensures forall lit: V -> bool :: r.Eval(lit) == Exprs.Eval(e, lit)
    {
      var clauses := Extract(Cnf, e);
      r := CnfHashSet(clauses);
      ToSetSize(Clauses(Cnf, Simplify(e)));
      assert Clauses(Cnf, Simplify(e))[0] in r.clauses;
      forall c | c in r.clauses ensures IsClause(Cnf, c) {
        assert c in Clauses(Cnf, Simplify(e));
      }
      forall lit: V -> bool ensures r.Eval(lit) == Exprs.Eval(e, lit) {
        NormalFormPreservesEval(Cnf, e, lit);
        SetHoldsToSet(Cnf, Clauses(Cnf, Simplify(e)), lit);
      }
    }

    /** Collects pre-built clauses as they are, without normalising them. */
    static function FromIter(xs: seq<Expr<V>>): CnfHashSet<V>
    {
      CnfHashSet(ToSet(xs))
    }

    static function Default(): CnfHashSet<V>
    {
      CnfHashSet({})
    }
  }

  /** A DNF stored as a hash set of clauses. */
  datatype DnfHashSet<V(==)> = DnfHashSet(clauses: set<Expr<V>>)
  {
    /** Some clause holds; the empty DNF does not hold. */
    predicate Eval(lit: V -> bool)
    {
      SetHolds(Dnf, clauses, lit)
    }

    predicate IsEmpty()
    {
      |clauses| == 0
    }

    /** The clauses in an unspecified order, each exactly once. */
    ghost function IntoVec(): (xs: seq<Expr<V>>)
      ensures multiset(xs) == multiset(clauses)
    {
      Elements(clauses)
    }

    /** Normalises `e`: the clauses are the distinct ones of
        `Clauses(Dnf, ...)`, never empty, each an `And` of non-`Or` children
        or a (negated) literal, no more of them than the loop emits, and the
        DNF means what `e` means in every context. */
    static method FromExpr(e: Expr<V>) returns (r: DnfHashSet<V>)
      ensures r.clauses == ToSet(Clauses(Dnf, Simplify(e)))
      ensures !r.IsEmpty() && forall c | c in r.clauses :: IsClause(Dnf, c)
      ensures |r.clauses| <= |Clauses(Dnf, Simplify(e))|
      ensures forall lit: V -> bool :: r.Eval(lit) == Exprs.Eval(e, lit)
    {
      var clauses := Extract(Dnf, e);
      r := DnfHashSet(clauses);
      ToSetSize(Clauses(Dnf, Simplify(e)));
      assert Clauses(Dnf, Simplify(e))[0] in r.clauses;
      forall c | c in r.clauses ensures IsClause(Dnf, c) {
        assert c in Clauses(Dnf, Simplify(e));
      }
      forall lit: V -> bool ensures r.Eval(lit) == Exprs.Eval(e, lit) {
        NormalFormPreservesEval(Dnf, e, lit);
        SetHoldsToSet(Dnf, Clauses(Dnf, Simplify(e)), lit);
      }
    }

    /** Collects pre-built clauses as they are, without normalising them. */
    static function FromIter(xs: seq<Expr<V>>): DnfHashSet<V>
    {
      DnfHashSet(ToSet(xs))
    }

    static function Default(): DnfHashSet<V>
    {
      DnfHashSet({})
    }
  }

  /** Collecting pre-built clauses keeps each of them and nothing else,
      whatever their order or repetition; the result is empty exactly when
      nothing was collected. The default container is the empty one, which
      as a CNF holds and as a DNF does not. */
  lemma Containers<V>(xs: seq<Expr<V>>, ys: seq<Expr<V>>, lit: V -> bool)
    ensures (forall c :: c in xs <==> c in ys) ==> CnfHashSet.FromIter(xs) == CnfHashSet.FromIter(ys)
    ensures (forall c :: c in xs <==> c in ys) ==> DnfHashSet.FromIter(xs) == DnfHashSet.FromIter(ys)
    ensures CnfHashSet.FromIter(xs).IsEmpty() <==> xs == []
    ensures DnfHashSet.FromIter(xs).IsEmpty() <==> xs == []
    ensures CnfHashSet<V>.Default().IsEmpty() && CnfHashSet<V>.Default().Eval(lit)
    ensures DnfHashSet<V>.Default().IsEmpty() && !DnfHashSet<V>.Default().Eval(lit)
  {
    if xs != [] {
      assert xs[0] in CnfHashSet.FromIter(xs).clauses;
    }
  }
}
