/** Labelled interpolation: what the partial interpolants mean, and why they interpolate. */
module Interpolation {
  import opened Sat

  datatype VarType = A_LOCAL | B_LOCAL | GLOBAL

  datatype ClauseType = A_CLAUSE | B_CLAUSE | L_CLAUSE

  datatype Construction = SYMMETRIC | ASYMMETRIC | DUAL_SYMMETRIC | DUAL_ASYMMETRIC

  type Labels = map<int, VarType>

  predicate Labelled(labels: Labels, lit: int) { lit != 0 && Abs(lit) in labels }

  function LabelOf(labels: Labels, lit: int): VarType
    requires Labelled(labels, lit)
  {
    labels[Abs(lit)]
  }

  function Globals(labels: Labels): set<int> { set x | x in labels && labels[x] == GLOBAL }

  /** Variables of A-clauses are not local to B, and the other way round. */
  predicate Consistent(labels: Labels, c: Clause, ty: ClauseType) {
    forall l :: l in c ==> Labelled(labels, l) && LabelOf(labels, l) != (if ty == A_CLAUSE then B_LOCAL else A_LOCAL)
  }

  // ------------------------------------------------ proofs and partial interpolants

  /** A resolution proof; in a step, lit is the literal of the first premise that is
      resolved on. The solver may record a clause with more literals than it derived. */
  datatype Proof = Original(clause: Clause, ty: ClauseType)
                 | Resolve(first: Proof, lit: int, second: Proof)
                 | Weaken(stronger: Proof, literals: set<int>)

  function Conclusion(p: Proof): set<int> {
    match p
    case Original(clause, _) => set l | l in clause
    case Resolve(first, lit, second) => (Conclusion(first) - {lit}) + (Conclusion(second) - {-lit})
    case Weaken(_, literals) => literals
  }

  /** The leaves are clauses of A and B with consistent labels; every step resolves on a labelled variable. */
  predicate ProofOk(labels: Labels, a: seq<Clause>, b: seq<Clause>, p: Proof) {
    match p
    case Original(clause, ty) =>
      Consistent(labels, clause, ty) && ((ty == A_CLAUSE && clause in a) || (ty == B_CLAUSE && clause in b))
    case Resolve(first, lit, second) =>
      && ProofOk(labels, a, b, first) && ProofOk(labels, a, b, second)
      && lit in Conclusion(first) && -lit in Conclusion(second) && Labelled(labels, lit)
    case Weaken(stronger, literals) => ProofOk(labels, a, b, stronger) && Conclusion(stronger) <= literals
  }

  /** Some literal of the clause that is global holds. */
  predicate SomeGlobal(labels: Labels, c: Clause, v: Valuation) {
    exists l :: l in c && Labelled(labels, l) && LabelOf(labels, l) == GLOBAL && True(v, l)
  }

  /** The partial interpolant of an original clause. */
  predicate Initial(kind: Construction, labels: Labels, c: Clause, ty: ClauseType, v: Valuation) {
    match kind
    case SYMMETRIC => ty != A_CLAUSE
    case ASYMMETRIC => ty == A_CLAUSE ==> SomeGlobal(labels, c, v)
    case DUAL_SYMMETRIC => ty != B_CLAUSE
    case DUAL_ASYMMETRIC => ty != A_CLAUSE && (ty == B_CLAUSE ==> !SomeGlobal(labels, c, v))
  }

  /** The partial interpolant of a resolvent on lit. */
  predicate Combined(kind: Construction, t: VarType, lit: int, p: bool, q: bool, v: Valuation) {
    match kind
    case SYMMETRIC =>
      if t == A_LOCAL then p || q
      else if t == B_LOCAL then p && q
      else (p || True(v, lit)) && (q || True(v, -lit))
    case ASYMMETRIC => if t == A_LOCAL then p || q else p && q
    case DUAL_SYMMETRIC =>
      if t == A_LOCAL then p && q
      else if t == B_LOCAL then p || q
      else (p && True(v, -lit)) || (q && True(v, lit))
    case DUAL_ASYMMETRIC => if t == B_LOCAL then p && q else p || q
  }

  predicate Partial(kind: Construction, labels: Labels, p: Proof, v: Valuation) {
    match p
    case Original(clause, ty) => Initial(kind, labels, clause, ty, v)
    case Resolve(first, lit, second) =>
      Labelled(labels, lit) &&
      Combined(kind, LabelOf(labels, lit), lit, Partial(kind, labels, first, v), Partial(kind, labels, second, v), v)
    case Weaken(stronger, _) => Partial(kind, labels, stronger, v)
  }

  // ------------------------------------------------ the labelled invariant

  /** The variables that count for the A-part of a clause. */
  predicate OnA(kind: Construction, t: VarType) {
    t == A_LOCAL || (t == GLOBAL && kind != ASYMMETRIC)
  }

  predicate OnB(kind: Construction, t: VarType) {
    t == B_LOCAL || (t == GLOBAL && kind != DUAL_ASYMMETRIC)
  }

  predicate SomeOnA(kind: Construction, labels: Labels, c: set<int>, v: Valuation) {
    exists l :: l in c && Labelled(labels, l) && OnA(kind, LabelOf(labels, l)) && True(v, l)
  }

  predicate SomeOnB(kind: Construction, labels: Labels, c: set<int>, v: Valuation) {
    exists l :: l in c && Labelled(labels, l) && OnB(kind, LabelOf(labels, l)) && True(v, l)
  }

  /** Losing one literal from a clause. */
  lemma SplitPivot(kind: Construction, labels: Labels, c: set<int>, lit: int, rest: set<int>, v: Valuation)
    requires Labelled(labels, lit) && c - {lit} <= rest
    ensures SomeOnA(kind, labels, c, v) ==> SomeOnA(kind, labels, rest, v) || (OnA(kind, LabelOf(labels, lit)) && True(v, lit))
    ensures SomeOnB(kind, labels, c, v) ==> SomeOnB(kind, labels, rest, v) || (OnB(kind, LabelOf(labels, lit)) && True(v, lit))
  {
    if SomeOnA(kind, labels, c, v) {
      var l :| l in c && Labelled(labels, l) && OnA(kind, LabelOf(labels, l)) && True(v, l);
      assert l == lit || l in rest;
    }
    if SomeOnB(kind, labels, c, v) {
      var l :| l in c && Labelled(labels, l) && OnB(kind, LabelOf(labels, l)) && True(v, l);
      assert l == lit || l in rest;
    }
  }

  /** A entails the A-part of the clause or the partial interpolant; B entails the
      B-part or its negation. */
  lemma {:induction false} PartialSound(kind: Construction, labels: Labels, a: seq<Clause>, b: seq<Clause>, p: Proof, v: Valuation)
    requires kind != DUAL_SYMMETRIC && ProofOk(labels, a, b, p)
    ensures Models(v, a) ==> Partial(kind, labels, p, v) || SomeOnA(kind, labels, Conclusion(p), v)
    ensures Models(v, b) ==> !Partial(kind, labels, p, v) || SomeOnB(kind, labels, Conclusion(p), v)
  {
    match p
    case Original(clause, ty) => OriginalSound(kind, labels, a, b, clause, ty, v);
    case Resolve(first, lit, second) =>
      PartialSound(kind, labels, a, b, first, v);
      PartialSound(kind, labels, a, b, second, v);
      SplitPivot(kind, labels, Conclusion(first), lit, Conclusion(p), v);
      SplitPivot(kind, labels, Conclusion(second), -lit, Conclusion(p), v);
      assert True(v, -lit) == !True(v, lit) && LabelOf(labels, -lit) == LabelOf(labels, lit);
    case Weaken(stronger, _) => PartialSound(kind, labels, a, b, stronger, v);
  }

  lemma {:induction false} OriginalSound(kind: Construction, labels: Labels, a: seq<Clause>, b: seq<Clause>, c: Clause, ty: ClauseType, v: Valuation)
    requires kind != DUAL_SYMMETRIC && ProofOk(labels, a, b, Original(c, ty))
    ensures Models(v, a) ==> Initial(kind, labels, c, ty, v) || SomeOnA(kind, labels, Conclusion(Original(c, ty)), v)
    ensures Models(v, b) ==> !Initial(kind, labels, c, ty, v) || SomeOnB(kind, labels, Conclusion(Original(c, ty)), v)
  {
    if (ty == A_CLAUSE && Models(v, a)) || (ty == B_CLAUSE && Models(v, b)) {
      assert Holds(v, c);
      var l :| l in c && True(v, l);
      assert Labelled(labels, l) && l in Conclusion(Original(c, ty));
    }
    if SomeGlobal(labels, c, v) {
      var l :| l in c && Labelled(labels, l) && LabelOf(labels, l) == GLOBAL && True(v, l);
      assert l in Conclusion(Original(c, ty));
    }
  }

  /** The dual symmetric partial interpolant is the negation of the symmetric one. */
  lemma {:induction false} DualIsNegation(labels: Labels, a: seq<Clause>, b: seq<Clause>, p: Proof, v: Valuation)
    requires ProofOk(labels, a, b, p)
    ensures Partial(DUAL_SYMMETRIC, labels, p, v) == !Partial(SYMMETRIC, labels, p, v)
  {
    match p
    case Original(_, _) =>
    case Resolve(first, lit, second) =>
      DualIsNegation(labels, a, b, first, v);
      DualIsNegation(labels, a, b, second, v);
      assert True(v, -lit) == !True(v, lit);
    case Weaken(stronger, _) => DualIsNegation(labels, a, b, stronger, v);
  }

  /** A implies the function, the function refutes B, and it depends on variables in G only. */
  ghost predicate IsInterpolant(F: iset<Valuation>, G: set<int>, a: seq<Clause>, b: seq<Clause>) {
    && (forall v :: Models(v, a) ==> v in F)
    && (forall v :: v in F ==> !Models(v, b))
    && (forall v, w :: v in F && v * G == w * G ==> w in F)
  }

  /** The interpolant of a refutation; the dual symmetric one is stored negated. */
  predicate Interpolant(kind: Construction, labels: Labels, p: Proof, v: Valuation) {
    Partial(kind, labels, p, v) != (kind == DUAL_SYMMETRIC)
  }

  /** At the empty clause, A implies the interpolant and the interpolant refutes B. */
  lemma {:induction false} Interpolates(kind: Construction, labels: Labels, a: seq<Clause>, b: seq<Clause>, p: Proof, v: Valuation)
    requires ProofOk(labels, a, b, p) && Conclusion(p) == {}
    ensures Models(v, a) ==> Interpolant(kind, labels, p, v)
    ensures Interpolant(kind, labels, p, v) ==> !Models(v, b)
  {
    if kind == DUAL_SYMMETRIC {
      DualIsNegation(labels, a, b, p, v);
      PartialSound(SYMMETRIC, labels, a, b, p, v);
    } else {
      PartialSound(kind, labels, a, b, p, v);
    }
  }

  /** More clauses do not invalidate a proof. */
  lemma {:induction false} ProofGrows(labels: Labels, a: seq<Clause>, b: seq<Clause>, a': seq<Clause>, b': seq<Clause>, p: Proof)
    requires ProofOk(labels, a, b, p) && a <= a' && b <= b'
    ensures ProofOk(labels, a', b', p)
  {
    match p
    case Original(_, _) =>
    case Resolve(first, _, second) =>
      ProofGrows(labels, a, b, a', b', first);
      ProofGrows(labels, a, b, a', b', second);
    case Weaken(stronger, _) => ProofGrows(labels, a, b, a', b', stronger);
  }
}
