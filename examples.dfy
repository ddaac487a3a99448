/** The library's own scenarios, on numeric literals that hold when they
    occur in a context list. */
module Examples {
  import opened Exprs
  import opened Normalize
  import HashForms
  import VecForms

  /** A numeric literal holds when the number is in the context list. */
  function In(items: seq<nat>): nat -> bool
  {
    v => v in items
  }

  /** The context list of the literal scenarios. */
  function Items(): seq<nat>
  {
    [1, 2, 4, 5, 7, 9, 10]
  }

  /** Single literals, negation, disjunction and conjunction against the
      context list. */
  lemma LiteralScenarios()
    ensures Eval(Var(4), In(Items())) && !Eval(Var(3), In(Items()))
    ensures !Eval(Not(Var(4)), In(Items())) && Eval(Not(Var(3)), In(Items()))
    ensures Eval(Or(Var(4), Var(5)), In(Items()))
    ensures Eval(Or(Var(3), Var(4)), In(Items()))
    ensures !Eval(Or(Var(3), Var(6)), In(Items()))
    ensures Eval(And(Var(4), Var(5)), In(Items()))
    ensures !Eval(And(Var(3), Var(4)), In(Items()))
    ensures !Eval(And(Var(3), Var(6)), In(Items()))
  {
  }

  /** `(1 & 2 | 3 & 4) & ((5 | 6) & (7 | 8))`. */
  function ThreeLevel(): Expr<nat>
  {
    And(Or(And(Var(1), Var(2)), And(Var(3), Var(4))),
        And(Or(Var(5), Var(6)), Or(Var(7), Var(8))))
  }

  /** The clauses of the three-level expression in CNF, in emission order. */
  function ThreeLevelCnf(): seq<Expr<nat>>
  {
    [Or(Var(7), Var(8)), Or(Var(5), Var(6)),
     Or(Var(4), Var(2)), Or(Var(4), Var(1)),
     Or(Var(3), Var(2)), Or(Var(3), Var(1))]
  }

  /** The clauses of the three-level expression in DNF, in emission order. */
  function ThreeLevelDnf(): seq<Expr<nat>>
  {
    var b := And(Or(Var(5), Var(6)), Or(Var(7), Var(8)));
    [And(b, And(Var(3), Var(4))), And(b, And(Var(1), Var(2)))]
  }

  /** Simplification leaves the three-level expression as it is: no node has
      two commutatively equal children. */
  lemma ThreeLevelSimplified()
    ensures Simplify(ThreeLevel()) == ThreeLevel()
  {
    var a := Or(And(Var(1), Var(2)), And(Var(3), Var(4)));
    var b := And(Or(Var(5), Var(6)), Or(Var(7), Var(8)));
    assert Simplify(a) == a;
    assert Simplify(b) == b;
    assert !Equal(a, b);
  }

  /** The disjunction of conjunctions distributes, trying the second child
      first, into four clauses. */
  lemma LeftCnf()
    ensures Clauses(Cnf, Or(And(Var(1), Var(2)), And(Var(3), Var(4))))
         == [Or(Var(4), Var(2)), Or(Var(4), Var(1)), Or(Var(3), Var(2)), Or(Var(3), Var(1))]
  {
    var a := Or(And(Var(1), Var(2)), And(Var(3), Var(4)));
    var a4 := Or(And(Var(1), Var(2)), Var(4));
    var a3 := Or(And(Var(1), Var(2)), Var(3));
    assert Step(Cnf, a) == And(a3, a4);
    assert Clauses(Cnf, a4) == [Or(Var(4), Var(2)), Or(Var(4), Var(1))];
    assert Clauses(Cnf, a3) == [Or(Var(3), Var(2)), Or(Var(3), Var(1))];
  }

  /** The conjunction of disjunctions splits into its two clauses, second
      child first. */
  lemma RightCnf()
    ensures Clauses(Cnf, And(Or(Var(5), Var(6)), Or(Var(7), Var(8))))
         == [Or(Var(7), Var(8)), Or(Var(5), Var(6))]
  {
    assert Clauses(Cnf, Or(Var(7), Var(8))) == [Or(Var(7), Var(8))];
    assert Clauses(Cnf, Or(Var(5), Var(6))) == [Or(Var(5), Var(6))];
  }

  /** Normalising the three-level expression to CNF gives the six clauses in
      this order, so the deduplicating container equals the one collected
      from them. */
  lemma ThreeLevelToCnf()
    ensures Clauses(Cnf, Simplify(ThreeLevel())) == ThreeLevelCnf()
    ensures HashForms.CnfHashSet.FromIter(ThreeLevelCnf())
         == HashForms.CnfHashSet(HashForms.ToSet(Clauses(Cnf, Simplify(ThreeLevel()))))
  {
    ThreeLevelSimplified();
    LeftCnf();
    RightCnf();
    assert Step(Cnf, ThreeLevel()) == ThreeLevel();
  }

  /** Normalising the three-level expression to DNF gives the two clauses in
      this order, so the deduplicating container equals the one collected
      from them. */
  lemma ThreeLevelToDnf()
    ensures Clauses(Dnf, Simplify(ThreeLevel())) == ThreeLevelDnf()
    ensures HashForms.DnfHashSet.FromIter(ThreeLevelDnf())
         == HashForms.DnfHashSet(HashForms.ToSet(Clauses(Dnf, Simplify(ThreeLevel()))))
  {
    ThreeLevelSimplified();
    var e := ThreeLevel();
    var b := And(Or(Var(5), Var(6)), Or(Var(7), Var(8)));
    assert Step(Dnf, e) == Or(And(b, And(Var(1), Var(2))), And(b, And(Var(3), Var(4))));
    assert Clauses(Dnf, And(b, And(Var(3), Var(4)))) == [And(b, And(Var(3), Var(4)))];
    assert Clauses(Dnf, And(b, And(Var(1), Var(2)))) == [And(b, And(Var(1), Var(2)))];
  }

  /** Both containers, run on the three-level expression, hold exactly when
      the expression does. */
  method ThreeLevelContainers(items: seq<nat>)
    returns (cnf: VecForms.CnfVec<nat>, dnf: HashForms.DnfHashSet<nat>)
    ensures cnf.clauses == ThreeLevelCnf()
    ensures dnf == HashForms.DnfHashSet.FromIter(ThreeLevelDnf())
    ensures cnf.Eval(In(items)) == Eval(ThreeLevel(), In(items))
    ensures dnf.Eval(In(items)) == Eval(ThreeLevel(), In(items))
  {
    ThreeLevelToCnf();
    ThreeLevelToDnf();
    cnf := VecForms.CnfVec.FromExpr(ThreeLevel());
    dnf := HashForms.DnfHashSet.FromExpr(ThreeLevel());
  }
}
