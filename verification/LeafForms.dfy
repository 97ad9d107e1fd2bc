/** Which interpolants the systems compute, read off the leaves of the proof. */
module LeafForms {
  import opened Sat
  import opened Interpolation

  ghost function Leaves(p: Proof): set<Proof> {
    match p
    case Original(_, _) => {p}
    case Resolve(first, _, second) => Leaves(first) + Leaves(second)
    case Weaken(stronger, _) => Leaves(stronger)
  }

  /** The variables resolved on. */
  ghost function Pivots(p: Proof): set<int> {
    match p
    case Original(_, _) => {}
    case Resolve(first, lit, second) => Pivots(first) + Pivots(second) + {Abs(lit)}
    case Weaken(stronger, _) => Pivots(stronger)
  }

  ghost predicate PivotsIn(labels: Labels, p: Proof, types: set<VarType>) {
    forall x :: x in Pivots(p) && x in labels ==> labels[x] in types
  }

  // ------------------------------------------------ selecting leaves

  /** Every premise can be pruned at pivots with a label in one; then all leaves left are in L. */
  ghost predicate Selects(labels: Labels, p: Proof, one: set<VarType>, L: iset<Proof>) {
    match p
    case Original(_, _) => p in L
    case Resolve(first, lit, second) =>
      Labelled(labels, lit) &&
      if LabelOf(labels, lit) in one then Selects(labels, first, one, L) || Selects(labels, second, one, L)
      else Selects(labels, first, one, L) && Selects(labels, second, one, L)
    case Weaken(stronger, _) => Selects(labels, stronger, one, L)
  }

  /** Without a pivot to prune at, all leaves count. */
  lemma {:induction false} SelectsAll(labels: Labels, a: seq<Clause>, b: seq<Clause>, p: Proof, one: set<VarType>, L: iset<Proof>)
    requires ProofOk(labels, a, b, p) && forall x :: x in Pivots(p) && x in labels ==> labels[x] !in one
    ensures Selects(labels, p, one, L) <==> forall q :: q in Leaves(p) ==> q in L
  {
    match p
    case Original(_, _) =>
    case Resolve(first, lit, second) =>
      SelectsAll(labels, a, b, first, one, L);
      SelectsAll(labels, a, b, second, one, L);
      assert Abs(lit) in Pivots(p);
    case Weaken(stronger, _) => SelectsAll(labels, a, b, stronger, one, L);
  }

  /** Pruning for a set and pruning with the other labels for its complement exclude each other, and one succeeds. */
  lemma {:induction false} SelectsDual(labels: Labels, a: seq<Clause>, b: seq<Clause>, p: Proof, one: set<VarType>, L: iset<Proof>)
    requires ProofOk(labels, a, b, p)
    ensures Selects(labels, p, one, L) <==> !Selects(labels, p, {A_LOCAL, B_LOCAL, GLOBAL} - one, iset q: Proof | q !in L)
  {
    match p
    case Original(_, _) =>
    case Resolve(first, lit, second) =>
      SelectsDual(labels, a, b, first, one, L);
      SelectsDual(labels, a, b, second, one, L);
      var t := LabelOf(labels, lit);
      assert t == A_LOCAL || t == B_LOCAL || t == GLOBAL;
      assert t in {A_LOCAL, B_LOCAL, GLOBAL} - one <==> t !in one;
    case Weaken(stronger, _) => SelectsDual(labels, a, b, stronger, one, L);
  }

  /** If every pivot allows pruning, one leaf is enough. */
  lemma {:induction false} SelectsSome(labels: Labels, a: seq<Clause>, b: seq<Clause>, p: Proof, one: set<VarType>, L: iset<Proof>)
    requires ProofOk(labels, a, b, p) && PivotsIn(labels, p, one)
    ensures Selects(labels, p, one, L) <==> exists q :: q in Leaves(p) && q in L
  {
    SelectsDual(labels, a, b, p, one, L);
    SelectsAll(labels, a, b, p, {A_LOCAL, B_LOCAL, GLOBAL} - one, iset q: Proof | q !in L);
  }

  // ------------------------------------------------ the asymmetric systems

  /** The leaves that allow the asymmetric interpolant to hold: B-leaves, and A-leaves with a true global literal. */
  ghost function Holding(labels: Labels, v: Valuation): iset<Proof> {
    iset q: Proof | q.Original? && (q.ty == A_CLAUSE ==> SomeGlobal(labels, q.clause, v))
  }

  /** The leaves that make the dual asymmetric interpolant hold: B-leaves without a true global literal. */
  ghost function Failing(labels: Labels, v: Valuation): iset<Proof> {
    iset q: Proof | q.Original? && q.ty == B_CLAUSE && !SomeGlobal(labels, q.clause, v)
  }

  /** Prune at A-local pivots; all leaves left must allow the interpolant to hold. */
  lemma {:induction false} AsymmetricForm(labels: Labels, a: seq<Clause>, b: seq<Clause>, p: Proof, v: Valuation)
    requires ProofOk(labels, a, b, p)
    ensures Partial(ASYMMETRIC, labels, p, v) <==> Selects(labels, p, {A_LOCAL}, Holding(labels, v))
  {
    match p
    case Original(_, _) =>
    case Resolve(first, _, second) =>
      AsymmetricForm(labels, a, b, first, v);
      AsymmetricForm(labels, a, b, second, v);
    case Weaken(stronger, _) => AsymmetricForm(labels, a, b, stronger, v);
  }

  /** Prune at A-local and global pivots; all leaves left must make the interpolant hold. */
  lemma {:induction false} DualAsymmetricForm(labels: Labels, a: seq<Clause>, b: seq<Clause>, p: Proof, v: Valuation)
    requires ProofOk(labels, a, b, p)
    ensures Partial(DUAL_ASYMMETRIC, labels, p, v) <==> Selects(labels, p, {A_LOCAL, GLOBAL}, Failing(labels, v))
  {
    match p
    case Original(_, _) =>
    case Resolve(first, _, second) =>
      DualAsymmetricForm(labels, a, b, first, v);
      DualAsymmetricForm(labels, a, b, second, v);
    case Weaken(stronger, _) => DualAsymmetricForm(labels, a, b, stronger, v);
  }

  /** Without A-local pivots the asymmetric interpolant says that every A-leaf has a true global literal. */
  lemma {:induction false} AsymmetricOfLeaves(labels: Labels, a: seq<Clause>, b: seq<Clause>, p: Proof, v: Valuation)
    requires ProofOk(labels, a, b, p) && forall x :: x in Pivots(p) && x in labels ==> labels[x] != A_LOCAL
    ensures Partial(ASYMMETRIC, labels, p, v) <==>
      forall c :: Original(c, A_CLAUSE) in Leaves(p) ==>
        exists l :: l in c && l != 0 && Abs(l) in labels && labels[Abs(l)] == GLOBAL && True(v, l)
  {
    AsymmetricForm(labels, a, b, p, v);
    SelectsAll(labels, a, b, p, {A_LOCAL}, Holding(labels, v));
    LeavesOriginal(labels, a, b, p);
    forall c ensures SomeGlobal(labels, c, v) <==>
      exists l :: l in c && l != 0 && Abs(l) in labels && labels[Abs(l)] == GLOBAL && True(v, l) {}
  }

  /** Without B-local pivots the dual asymmetric interpolant fails when every B-leaf has a true global literal. */
  lemma {:induction false} DualAsymmetricOfLeaves(labels: Labels, a: seq<Clause>, b: seq<Clause>, p: Proof, v: Valuation)
    requires ProofOk(labels, a, b, p) && forall x :: x in Pivots(p) && x in labels ==> labels[x] != B_LOCAL
    ensures !Partial(DUAL_ASYMMETRIC, labels, p, v) <==>
      forall c :: Original(c, B_CLAUSE) in Leaves(p) ==>
        exists l :: l in c && l != 0 && Abs(l) in labels && labels[Abs(l)] == GLOBAL && True(v, l)
  {
    DualAsymmetricForm(labels, a, b, p, v);
    SelectsSome(labels, a, b, p, {A_LOCAL, GLOBAL}, Failing(labels, v));
    LeavesOriginal(labels, a, b, p);
    forall c ensures SomeGlobal(labels, c, v) <==>
      exists l :: l in c && l != 0 && Abs(l) in labels && labels[Abs(l)] == GLOBAL && True(v, l) {}
  }

  /** The leaves are clauses of A or of B. */
  lemma {:induction false} LeavesOriginal(labels: Labels, a: seq<Clause>, b: seq<Clause>, p: Proof)
    requires ProofOk(labels, a, b, p)
    ensures forall q :: q in Leaves(p) ==> q.Original? && ProofOk(labels, a, b, q) && q.ty != L_CLAUSE
  {
    match p
    case Original(_, _) =>
    case Resolve(first, _, second) =>
      LeavesOriginal(labels, a, b, first);
      LeavesOriginal(labels, a, b, second);
    case Weaken(stronger, _) => LeavesOriginal(labels, a, b, stronger);
  }

  // ------------------------------------------------ the symmetric system

  /** The proof along a valuation: at a global pivot only the premise whose pivot literal is false is kept. */
  ghost function Walk(labels: Labels, p: Proof, v: Valuation): Proof {
    match p
    case Original(_, _) => p
    case Resolve(first, lit, second) =>
      if Labelled(labels, lit) && LabelOf(labels, lit) == GLOBAL
      then Walk(labels, if True(v, lit) then second else first, v)
      else Resolve(Walk(labels, first, v), lit, Walk(labels, second, v))
    case Weaken(stronger, _) => Walk(labels, stronger, v)
  }

  /** The leaves along the valuation are leaves of the proof, resolved on local variables only, and
      their true global literals are literals of the conclusion: none at a refutation. */
  lemma {:induction false} WalkFalsifies(labels: Labels, a: seq<Clause>, b: seq<Clause>, p: Proof, v: Valuation)
    requires ProofOk(labels, a, b, p)
    ensures var w := Walk(labels, p, v);
      && Leaves(w) <= Leaves(p) && Pivots(w) <= Pivots(p)
      && (forall x :: x in Pivots(w) && x in labels ==> labels[x] != GLOBAL)
      && forall q, l :: q in Leaves(w) && q.Original? && l in q.clause && Abs(l) in labels && labels[Abs(l)] == GLOBAL && True(v, l)
           ==> l in Conclusion(p)
  {
    match p
    case Original(_, _) =>
    case Resolve(first, lit, second) =>
      WalkFalsifies(labels, a, b, first, v);
      WalkFalsifies(labels, a, b, second, v);
      assert True(v, -lit) == !True(v, lit);
    case Weaken(stronger, _) => WalkFalsifies(labels, a, b, stronger, v);
  }

  /** Along the valuation, prune at A-local pivots; all leaves left must be B-leaves. */
  lemma {:induction false} SymmetricForm(labels: Labels, a: seq<Clause>, b: seq<Clause>, p: Proof, v: Valuation)
    requires ProofOk(labels, a, b, p)
    ensures Partial(SYMMETRIC, labels, p, v) <==>
      Selects(labels, Walk(labels, p, v), {A_LOCAL}, iset q: Proof | q.Original? && q.ty == B_CLAUSE)
  {
    match p
    case Original(_, _) =>
    case Resolve(first, lit, second) =>
      SymmetricForm(labels, a, b, first, v);
      SymmetricForm(labels, a, b, second, v);
      assert True(v, -lit) == !True(v, lit);
    case Weaken(stronger, _) => SymmetricForm(labels, a, b, stronger, v);
  }

  /** Without local pivots the valuation leads to one leaf, false on the global variables up to the
      conclusion, and the symmetric interpolant holds when that leaf is of B. */
  lemma {:induction false} SymmetricOfLeaf(labels: Labels, a: seq<Clause>, b: seq<Clause>, p: Proof, v: Valuation) returns (leaf: Proof)
    requires ProofOk(labels, a, b, p) && forall x :: x in Pivots(p) && x in labels ==> labels[x] == GLOBAL
    ensures leaf in Leaves(p) && leaf.Original?
    ensures forall l :: l in leaf.clause && Abs(l) in labels && labels[Abs(l)] == GLOBAL && True(v, l) ==> l in Conclusion(p)
    ensures Partial(SYMMETRIC, labels, p, v) <==> leaf.ty == B_CLAUSE
  {
    WalkFalsifies(labels, a, b, p, v);
    SymmetricForm(labels, a, b, p, v);
    leaf := Walk(labels, p, v);
    OneLeaf(labels, a, b, p, v);
  }

  lemma {:induction false} OneLeaf(labels: Labels, a: seq<Clause>, b: seq<Clause>, p: Proof, v: Valuation)
    requires ProofOk(labels, a, b, p) && forall x :: x in Pivots(p) && x in labels ==> labels[x] == GLOBAL
    ensures Walk(labels, p, v).Original?
  {
    match p
    case Original(_, _) =>
    case Resolve(first, lit, second) =>
      assert Abs(lit) in Pivots(p);
      OneLeaf(labels, a, b, first, v);
      OneLeaf(labels, a, b, second, v);
    case Weaken(stronger, _) => OneLeaf(labels, a, b, stronger, v);
  }
}
