/** The expression tree: four variants over an opaque literal type, evaluation
    against a context, the commutative equality, and the root-level rewrites
    that the normal-form extractors are built from. */
module Exprs {

  /** A boolean expression. Each interior node owns its children, so a tree is
      a plain datatype value (no sharing, no cycles). */
  datatype Expr<V> =
    | Var(v: V)
    | Not(p: Expr<V>)
    | Or(a: Expr<V>, b: Expr<V>)
    | And(a: Expr<V>, b: Expr<V>)

  /** Number of nodes of a tree. */
  function Size<V>(e: Expr<V>): nat
  {
    match e
    case Var(_) => 1
    case Not(p) => 1 + Size(p)
    case Or(a, b) => 1 + Size(a) + Size(b)
    case And(a, b) => 1 + Size(a) + Size(b)
  }

  /** Truth value of `e`. `lit(v)` is the literal's own evaluation against the
      caller's context, which this model takes as a parameter. */
  function Eval<V>(e: Expr<V>, lit: V -> bool): bool
  {
    match e
    case Var(v) => lit(v)
    case Not(p) => !Eval(p, lit)
    case Or(a, b) => Eval(a, lit) || Eval(b, lit)
    case And(a, b) => Eval(a, lit) && Eval(b, lit)
  }

  /** Double negation, De Morgan and commutativity of `Or` hold of `Eval`. */
  lemma EvalLaws<V>(a: Expr<V>, b: Expr<V>, lit: V -> bool)
    ensures Eval(Not(Not(a)), lit) == Eval(a, lit)
    ensures Eval(Not(Or(a, b)), lit) == Eval(And(Not(a), Not(b)), lit)
    ensures Eval(Not(And(a, b)), lit) == Eval(Or(Not(a), Not(b)), lit)
    ensures Eval(Or(a, b), lit) == Eval(Or(b, a), lit)
  {
  }

  // ---------------------------------------------------------------------------
  // Commutative equality
  // ---------------------------------------------------------------------------

  /** The hand-written equality on trees: literals compare with the literal
      type's equality, and the two children of an `Or` or `And` node form an
      unordered pair. It is not associative and does not canonicalise deeper. */
  predicate Equal<V(==)>(x: Expr<V>, y: Expr<V>)
  {
    match (x, y)
    case (Var(p1), Var(p2)) => p1 == p2
    case (Not(p1), Not(p2)) => Equal(p1, p2)
    case (Or(a1, b1), Or(a2, b2)) =>
      (Equal(a1, a2) && Equal(b1, b2)) || (Equal(a1, b2) && Equal(b1, a2))
    case (And(a1, b1), And(a2, b2)) =>
      (Equal(a1, a2) && Equal(b1, b2)) || (Equal(a1, b2) && Equal(b1, a2))
    case _ => false
  }

  /** Every tree is equal to itself. */
  lemma {:induction false} EqualReflexive<V>(x: Expr<V>)
    ensures Equal(x, x)
  {
    match x
    case Var(_) =>
    case Not(p) => EqualReflexive(p);
    case Or(a, b) => EqualReflexive(a); EqualReflexive(b);
    case And(a, b) => EqualReflexive(a); EqualReflexive(b);
  }

  /** The equality is symmetric. */
  lemma {:induction false} EqualSymmetric<V>(x: Expr<V>, y: Expr<V>)
    requires Equal(x, y)
    ensures Equal(y, x)
  {
    match (x, y)
    case (Var(_), Var(_)) =>
    case (Not(p1), Not(p2)) => EqualSymmetric(p1, p2);
    case (Or(a1, b1), Or(a2, b2)) =>
      if Equal(a1, a2) && Equal(b1, b2) {
        EqualSymmetric(a1, a2); EqualSymmetric(b1, b2);
      } else {
        EqualSymmetric(a1, b2); EqualSymmetric(b1, a2);
      }
    case (And(a1, b1), And(a2, b2)) =>
      if Equal(a1, a2) && Equal(b1, b2) {
        EqualSymmetric(a1, a2); EqualSymmetric(b1, b2);
      } else {
        EqualSymmetric(a1, b2); EqualSymmetric(b1, a2);
      }
  }

  /** Equal trees have the same number of nodes. */
  lemma {:induction false} EqualSize<V>(x: Expr<V>, y: Expr<V>)
    requires Equal(x, y)
    ensures Size(x) == Size(y)
  {
    match (x, y)
    case (Var(_), Var(_)) =>
    case (Not(p1), Not(p2)) => EqualSize(p1, p2);
    case (Or(a1, b1), Or(a2, b2)) =>
      if Equal(a1, a2) && Equal(b1, b2) {
        EqualSize(a1, a2); EqualSize(b1, b2);
      } else {
        EqualSize(a1, b2); EqualSize(b1, a2);
      }
    case (And(a1, b1), And(a2, b2)) =>
      if Equal(a1, a2) && Equal(b1, b2) {
        EqualSize(a1, a2); EqualSize(b1, b2);
      } else {
        EqualSize(a1, b2); EqualSize(b1, a2);
      }
  }

  /** Equal trees evaluate alike in every context: the equality is sound for
      the meaning of a tree. */
  lemma {:induction false} EqualSameEval<V>(x: Expr<V>, y: Expr<V>, lit: V -> bool)
    requires Equal(x, y)
    ensures Eval(x, lit) == Eval(y, lit)
  {
    match (x, y)
    case (Var(_), Var(_)) =>
    case (Not(p1), Not(p2)) => EqualSameEval(p1, p2, lit);
    case (Or(a1, b1), Or(a2, b2)) =>
      if Equal(a1, a2) && Equal(b1, b2) {
        EqualSameEval(a1, a2, lit); EqualSameEval(b1, b2, lit);
      } else {
        EqualSameEval(a1, b2, lit); EqualSameEval(b1, a2, lit);
      }
    case (And(a1, b1), And(a2, b2)) =>
      if Equal(a1, a2) && Equal(b1, b2) {
        EqualSameEval(a1, a2, lit); EqualSameEval(b1, b2, lit);
      } else {
        EqualSameEval(a1, b2, lit); EqualSameEval(b1, a2, lit);
      }
  }

  /** Swapping the children of an `Or` or `And` node gives an equal tree, and
      trees rooted at different operators are never equal. */
  lemma EqualCommutes<V>(a: Expr<V>, b: Expr<V>, x: Expr<V>, y: Expr<V>)
    ensures Equal(Or(a, b), Or(b, a)) && Equal(And(a, b), And(b, a))
    ensures Equal(x, y) ==> x.Var? == y.Var? && x.Not? == y.Not? && x.Or? == y.Or? && x.And? == y.And?
  {
    EqualReflexive(a);
    EqualReflexive(b);
  }

  /** The equality is not associative: regrouping three operands is an equal
      tree only when the outer two operands are already equal. */
  lemma EqualNotAssociative<V>(a: Expr<V>, b: Expr<V>, c: Expr<V>)
    requires !Equal(a, c)
    ensures !Equal(Or(Or(a, b), c), Or(a, Or(b, c)))
    ensures !Equal(And(And(a, b), c), And(a, And(b, c)))
  {
    if Equal(Or(a, b), a) { EqualSize(Or(a, b), a); }
    if Equal(And(a, b), a) { EqualSize(And(a, b), a); }
    if Equal(c, a) { EqualSymmetric(c, a); }
  }

  // ---------------------------------------------------------------------------
  // Simplification
  // ---------------------------------------------------------------------------

  /** No `Or` or `And` node anywhere in `e` has two equal children. */
  predicate NoEqualSiblings<V(==)>(e: Expr<V>)
  {
    match e
    case Var(_) => true
    case Not(p) => NoEqualSiblings(p)
    case Or(a, b) => !Equal(a, b) && NoEqualSiblings(a) && NoEqualSiblings(b)
    case And(a, b) => !Equal(a, b) && NoEqualSiblings(a) && NoEqualSiblings(b)
  }

  /** One bottom-up pass that drops a `Not` directly above a `Not` and
      collapses an `Or`/`And` whose simplified children are equal to its first
      simplified child. The result never has more nodes than the input, and no
      node of it has two equal children. */
  function Simplify<V(==)>(e: Expr<V>): (r: Expr<V>)
    ensures Size(r) <= Size(e)
    ensures NoEqualSiblings(r)
  {
    match e
    case Not(Not(q)) => Simplify(q)
    case Not(q) => Not(Simplify(q))
    case And(a, b) =>
      var a', b' := Simplify(a), Simplify(b);
      if Equal(a', b') then a' else And(a', b')
    case Or(a, b) =>
      var a', b' := Simplify(a), Simplify(b);
      if Equal(a', b') then a' else Or(a', b')
    case Var(_) => e
  }

  /** Simplification preserves the meaning of a tree in every context. */
  lemma {:induction false} SimplifyPreservesEval<V>(e: Expr<V>, lit: V -> bool)
    ensures Eval(Simplify(e), lit) == Eval(e, lit)
  {
    match e
    case Not(Not(q)) => SimplifyPreservesEval(q, lit);
    case Not(q) => SimplifyPreservesEval(q, lit);
    case And(a, b) =>
      SimplifyPreservesEval(a, lit);
      SimplifyPreservesEval(b, lit);
      if Equal(Simplify(a), Simplify(b)) {
        EqualSameEval(Simplify(a), Simplify(b), lit);
      }
    case Or(a, b) =>
      SimplifyPreservesEval(a, lit);
      SimplifyPreservesEval(b, lit);
      if Equal(Simplify(a), Simplify(b)) {
        EqualSameEval(Simplify(a), Simplify(b), lit);
      }
    case Var(_) =>
  }

  /** Simplification is not idempotent: collapsing two equal negations can
      expose a double negation that only a second pass removes. */
  lemma SimplifyNotIdempotent<V>(x: V)
    ensures Simplify(Not(And(Not(Var(x)), Not(Var(x))))) == Not(Not(Var(x)))
    ensures Simplify(Simplify(Not(And(Not(Var(x)), Not(Var(x)))))) == Var(x)
  {
    assert Simplify(Not(Var(x))) == Not(Var(x));
    assert Equal(Not(Var(x)), Not(Var(x)));
    assert Simplify(And(Not(Var(x)), Not(Var(x)))) == Not(Var(x));
  }

  // ---------------------------------------------------------------------------
  // Negation pushdown and distribution (each applies at the root only)
  // ---------------------------------------------------------------------------

  /** Pushes a root `Not` one level down by De Morgan, or strips a pair of
      `Not`s and retries; the operands of the De Morgan result are not
      rewritten further. A non-`Not` root is left alone, a `Not` is left only
      above a literal, and the children of an `Or`/`And` result are smaller than
      the input. The result grows by a node only when both of its operands are
      negations. */
  function PushdownNot<V>(e: Expr<V>): (r: Expr<V>)
    ensures !e.Not? ==> r == e
    ensures r.Not? ==> r.p.Var?
    ensures (r.Or? || r.And?) ==> Size(r.a) < Size(e) && Size(r.b) < Size(e)
    ensures Size(r) <= Size(e) || ((r.Or? || r.And?) && r.a.Not? && r.b.Not?)
  {
    match e
    case Not(Var(_)) => e
    case Not(Not(p)) => PushdownNot(p)
    case Not(Or(a, b)) => And(Not(a), Not(b))
    case Not(And(a, b)) => Or(Not(a), Not(b))
    case _ => e
  }

  /** Negation pushdown preserves the meaning of a tree. */
  lemma {:induction false} PushdownNotPreservesEval<V>(e: Expr<V>, lit: V -> bool)
    ensures Eval(PushdownNot(e), lit) == Eval(e, lit)
  {
    match e
    case Not(Not(p)) => PushdownNotPreservesEval(p, lit);
    case _ =>
  }

  /** One distribution step of `And` over `Or` at the root. The second child
      is tried first: `And(p, Or(q, r))` and then `And(Or(q, r), p)` become
      `Or(And(p, q), And(p, r))`. Any other tree is returned unchanged, so an
      `And` result never has an `Or` child. */
  function DistributeAnd<V>(e: Expr<V>): (d: Expr<V>)
    ensures e.And? && (e.a.Or? || e.b.Or?) ==> d.Or? && d.a.And? && d.b.And?
    ensures !(e.And? && (e.a.Or? || e.b.Or?)) ==> d == e
    ensures d.And? ==> !d.a.Or? && !d.b.Or?
  {
    match e
    case And(p, Or(q, r)) => Or(And(p, q), And(p, r))
    case And(Or(q, r), p) => Or(And(p, q), And(p, r))
    case _ => e
  }

  /** One distribution step of `Or` over `And` at the root: the exact dual of
      `DistributeAnd`, so an `Or` result never has an `And` child. */
  function DistributeOr<V>(e: Expr<V>): (d: Expr<V>)
    ensures e.Or? && (e.a.And? || e.b.And?) ==> d.And? && d.a.Or? && d.b.Or?
    ensures !(e.Or? && (e.a.And? || e.b.And?)) ==> d == e
    ensures d.Or? ==> !d.a.And? && !d.b.And?
  {
    match e
    case Or(p, And(q, r)) => And(Or(p, q), Or(p, r))
    case Or(And(q, r), p) => And(Or(p, q), Or(p, r))
    case _ => e
  }

  /** Distribution preserves the meaning of a tree. */
  lemma DistributePreservesEval<V>(e: Expr<V>, lit: V -> bool)
    ensures Eval(DistributeAnd(e), lit) == Eval(e, lit)
    ensures Eval(DistributeOr(e), lit) == Eval(e, lit)
  {
  }

  /** When both children qualify, the second child is the one split and the
      first becomes the distributed operand `p`. */
  lemma DistributeSecondChildFirst<V>(q1: Expr<V>, r1: Expr<V>, q2: Expr<V>, r2: Expr<V>)
    ensures DistributeOr(Or(And(q1, r1), And(q2, r2)))
         == And(Or(And(q1, r1), q2), Or(And(q1, r1), r2))
    ensures DistributeAnd(And(Or(q1, r1), Or(q2, r2)))
         == Or(And(Or(q1, r1), q2), And(Or(q1, r1), r2))
  {
  }

  // ---------------------------------------------------------------------------
  // Representational comparison
  // ---------------------------------------------------------------------------

  /** The debug comparison as the code has it: at `Or`/`And` it compares each
      tree's own two children with each other instead of pairing the children
      of the two trees. */
  predicate EqRepr<V(==)>(x: Expr<V>, y: Expr<V>)
    decreases Size(x) + Size(y)
  {
    match (x, y)
    case (Var(a), Var(b)) => a == b
    case (Not(a), Not(b)) => EqRepr(a, b)
    case (Or(a1, b1), Or(a2, b2)) => EqRepr(a1, b1) && EqRepr(a2, b2)
    case (And(a1, b1), And(a2, b2)) => EqRepr(a1, b1) && EqRepr(a2, b2)
    case _ => false
  }

  /** The comparison as written is not reflexive, and it relates trees whose
      literals differ. */
  lemma EqReprAsWritten<V>(u: V, w: V)
    requires u != w
    ensures !EqRepr(Or(Var(u), Var(w)), Or(Var(u), Var(w)))
    ensures EqRepr(Or(Var(u), Var(u)), Or(Var(w), Var(w)))
    ensures !EqRepr(Or(Var(u), Var(u)), Or(Var(u), Var(w)))
  {
  }

  /** The comparison as written is symmetric, although not reflexive. */
  lemma {:induction false} EqReprSymmetric<V>(x: Expr<V>, y: Expr<V>)
    ensures EqRepr(x, y) == EqRepr(y, x)
    decreases Size(x) + Size(y)
  {
    match (x, y)
    case (Not(a1), Not(a2)) => EqReprSymmetric(a1, a2);
    case _ =>
  }

  /** The comparison its documentation describes: same operators, applied
      position by position to equal literals. */
  predicate EqReprIntended<V(==)>(x: Expr<V>, y: Expr<V>)
  {
    match (x, y)
    case (Var(a), Var(b)) => a == b
    case (Not(a), Not(b)) => EqReprIntended(a, b)
    case (Or(a1, b1), Or(a2, b2)) => EqReprIntended(a1, a2) && EqReprIntended(b1, b2)
    case (And(a1, b1), And(a2, b2)) => EqReprIntended(a1, a2) && EqReprIntended(b1, b2)
    case _ => false
  }

  /** The intended comparison holds exactly of identical trees: it is
      reflexive, and it implies the commutative equality. */
  lemma {:induction false} EqReprIntendedIsIdentity<V>(x: Expr<V>, y: Expr<V>)
    ensures EqReprIntended(x, y) <==> x == y
    ensures EqReprIntended(x, y) ==> Equal(x, y)
  {
    match (x, y)
    case (Var(_), Var(_)) =>
    case (Not(a1), Not(a2)) => EqReprIntendedIsIdentity(a1, a2);
    case (Or(a1, b1), Or(a2, b2)) =>
      EqReprIntendedIsIdentity(a1, a2); EqReprIntendedIsIdentity(b1, b2);
    case (And(a1, b1), And(a2, b2)) =>
      EqReprIntendedIsIdentity(a1, a2); EqReprIntendedIsIdentity(b1, b2);
    case _ =>
  }
}
