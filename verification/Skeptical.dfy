/** Skeptical acceptance under preferred semantics without computing preferred extensions. */
module SkepticalTasks {
  import opened Framework
  import opened Sat
  import opened Encodings
  import opened Blocking
  import opened PreferredTasks

  /** Every blocked set is admissible and contains the query. */
  ghost predicate BlockedAccept(af: AAF, blocked: set<set<nat>>, a: nat) {
    forall B :: B in blocked ==> Admissible(af, B) && a in B
  }

  /** What the two-set solver knows: an unblocked admissible set attacking an admissible
      set that contains a; both contain base. */
  ghost predicate Attacker(af: AAF, g: Labeling, base: set<nat>, blocked: set<set<nat>>, v: Valuation)
    requires af.Valid()
  {
    && base <= InSet(af.n, 0, v) && base <= InSet(af.n, 2 * af.n, v)
    && Open(InSet(af.n, 0, v), blocked)
    && PairModel(af, g, v)
  }

  /** A preferred extension without a and one with a give a model of the two-set solver. */
  lemma {:induction false} OmittedIsAttacker(af: AAF, g: Labeling, base: set<nat>, blocked: set<set<nat>>, a: nat, P: set<nat>, T: set<nat>) returns (v: Valuation)
    requires af.Valid() && GroundedLabeling(af, g)
    requires forall b :: b in base ==> Skeptical(af, b)
    requires BlockedAccept(af, blocked, a)
    requires Preferred(af, P) && a !in P && Preferred(af, T) && a in T
    ensures Attacker(af, g, base, blocked, v) && a in InSet(af.n, 2 * af.n, v)
  {
    PreferredHasGrounded(af, g.ins, P);
    PreferredHasGrounded(af, g.ins, T);
    PreferredConflict(af, P, T);
    v := PairWitness(af, g, P, T);
    assert Open(P, blocked) by {
      forall B | B in blocked ensures !(P <= B) { assert P <= B ==> P == B; }
    }
  }

  /** If no model is left, the query is in every preferred extension. */
  lemma {:induction false} NoAttackerLeft(af: AAF, g: Labeling, base: set<nat>, blocked: set<set<nat>>, a: nat)
    requires af.Valid() && GroundedLabeling(af, g)
    requires forall b :: b in base ==> Skeptical(af, b)
    requires BlockedAccept(af, blocked, a)
    requires exists S :: Admissible(af, S) && a in S
    requires forall v :: Attacker(af, g, base, blocked, v) ==> a !in InSet(af.n, 2 * af.n, v)
    ensures Skeptical(af, a)
  {
    var S :| Admissible(af, S) && a in S;
    var T := PreferredAbove(af, S);
    forall P | Preferred(af, P) ensures a in P {
      if a !in P {
        var v := OmittedIsAttacker(af, g, base, blocked, a, P, T);
      }
    }
  }

  /** The two-set solver with nothing blocked yet. */
  method InitAttacker(af: AAF, g: Labeling) returns (solver: Solver)
    requires af.Valid() && GroundedLabeling(af, g)
    ensures fresh(solver) && solver.pending == [] && solver.assumptions == {}
    ensures forall v :: Models(v, solver.clauses) <==> PairModel(af, g, v)
  {
    solver := new Solver();
    var _ := AddAdmTestClauses(solver, 0, af, g);
    var _ := AddAdmTestClauses(solver, 2 * af.n, af, g);
    AddAttackClauses(solver, 0, 2 * af.n, 4 * af.n + 1, af);
  }

  /** A preferred extension above an admissible set that attacks a does not contain a. */
  lemma AttackedOmitted(af: AAF, S: set<nat>, P: set<nat>, a: nat)
    requires Preferred(af, P) && S <= P && Hits(af, S, a)
    ensures a !in P
  {
    HitsMono(af, S, P, a);
  }

  /** The clauses of the one-set solver: admissible sets above base. */
  ghost predicate KnowsAbove(af: AAF, g: Labeling, base: set<nat>, clauses: seq<Clause>) {
    forall v :: Models(v, clauses) <==> AdmModel(af, g, 0, v) && base <= InSet(af.n, 0, v)
  }

  /** Can the attacking set just found be extended by the query? If so, the clause
      blocks everything below the extension. */
  method TryExtend(adm: Solver, att: Solver, af: AAF, g: Labeling, arg: nat, ghost base: set<nat>)
    returns (extended: bool, S: set<nat>, accepting: set<nat>, clause: Clause)
    requires af.Valid() && GroundedLabeling(af, g) && arg < af.n
    requires adm.pending == [] && adm.assumptions == {} && adm != att && att.state == SAT
    requires KnowsAbove(af, g, base, adm.clauses)
    modifies adm
    ensures adm.pending == [] && adm.assumptions == {} && adm.clauses == old(adm.clauses)
    ensures S == InSet(af.n, 0, att.model)
    ensures extended ==> Admissible(af, accepting) && S <= accepting && arg in accepting
    ensures extended ==> 0 !in clause && forall v :: Holds(v, clause) <==> !(InSet(af.n, 0, v) <= accepting)
    ensures !extended ==> forall v :: AdmModel(af, g, 0, v) && base <= InSet(af.n, 0, v) ==>
      !(S <= InSet(af.n, 0, v) && arg in InSet(af.n, 0, v))
  {
    S, clause := ReadModel(att, af.n);
    accepting := {};
    adm.Assume(In(0, arg));
    AssumeAll(adm, af.n, S);
    extended := adm.Solve();
    if extended {
      accepting, clause := ReadModel(adm, af.n);
    }
  }

  /** The main loop of DS-PR. A negative answer comes with the admissible set that refutes. */
  method DsprLoop(adm: Solver, att: Solver, af: AAF, g: Labeling, arg: nat, ghost blocked0: set<set<nat>>)
    returns (yes: bool, S: set<nat>)
    requires af.Valid() && GroundedLabeling(af, g) && arg < af.n && adm != att
    requires adm.pending == [] && adm.assumptions == {} && att.pending == [] && att.assumptions == {}
    requires KnowsAbove(af, g, {}, adm.clauses)
    requires forall v :: Models(v, att.clauses) <==> Attacker(af, g, {}, blocked0, v) && In(2 * af.n, arg) in v
    requires BlockedAccept(af, blocked0, arg) && blocked0 != {}
    modifies adm, att
    ensures yes ==> Skeptical(af, arg)
    ensures !yes ==> Admissible(af, S) && g.ins <= S
    ensures !yes ==> forall P :: Preferred(af, P) && S <= P ==> arg !in P
  {
    ghost var blocked := blocked0;
    while true
      invariant adm.pending == [] && adm.assumptions == {} && att.pending == [] && att.assumptions == {}
      invariant KnowsAbove(af, g, {}, adm.clauses)
      invariant forall v :: Models(v, att.clauses) <==> Attacker(af, g, {}, blocked, v) && In(2 * af.n, arg) in v
      invariant BlockedAccept(af, blocked, arg) && blocked != {}
      decreases Unblocked(af.n, blocked)
    {
      var sat := att.Solve();
      if !sat {
        NoAttackerLeft(af, g, {}, blocked, arg);
        return true, {};
      }
      var extended, accepting, clause;
      extended, S, accepting, clause := TryExtend(adm, att, af, g, arg, {});
      if !extended {
        NoneAbove(af, g, {}, S, arg);
        return false, S;
      }
      BlockingProgress(af.n, blocked, S, accepting);
      att.AddClause(clause);
      blocked := blocked + {accepting};
    }
  }

  /** No preferred extension above a refuting set contains the query. */
  lemma {:induction false} NoneAbove(af: AAF, g: Labeling, base: set<nat>, S: set<nat>, a: nat)
    requires af.Valid() && GroundedLabeling(af, g)
    requires forall b :: b in base ==> Skeptical(af, b)
    requires forall v :: AdmModel(af, g, 0, v) && base <= InSet(af.n, 0, v) ==> !(S <= InSet(af.n, 0, v) && a in InSet(af.n, 0, v))
    ensures forall P :: Preferred(af, P) && S <= P ==> a !in P
  {
    forall P | Preferred(af, P) && S <= P ensures a !in P {
      PreferredHasGrounded(af, g.ins, P);
      var v := AdmValuation(af, g, P);
    }
  }

  /** DS-PR: is the query in every preferred extension? A negative answer comes with one that omits it. */
  method SolveDspr(af: AAF, g: Labeling, arg: nat) returns (yes: bool, shown: Option<set<nat>>)
    requires af.Valid() && GroundedLabeling(af, g) && arg < af.n
    ensures yes <==> Skeptical(af, arg)
    ensures yes ==> shown == None
    ensures !yes ==> shown.Some? && Preferred(af, shown.value) && arg !in shown.value
  {
    var adm := new Solver();
    var _ := AddAdmTestClauses(adm, 0, af, g);
    var att := InitAttacker(af, g);
    adm.Assume(In(0, arg));
    var sat := adm.Solve();
    if !sat {
      NoneAbove(af, g, {}, {}, arg);
      var P := SolveSepr(af, g, None);
      return false, Some(P);
    }
    var ins, clause := ReadModel(adm, af.n);
    att.AddClause(clause);
    adm.Assume(Out(0, arg));
    sat := adm.Solve();
    if sat {
      var attacking, _ := ReadModel(adm, af.n);
      var P := SolveSepr(af, g, Some(attacking));
      assert arg in OutSet(af.n, 0, adm.model);
      AttackedOmitted(af, attacking, P, arg);
      return false, Some(P);
    }
    att.AddClause1(In(2 * af.n, arg));
    var S;
    yes, S := DsprLoop(adm, att, af, g, arg, {ins});
    shown := None;
    if !yes {
      var P := SolveSepr(af, g, Some(S));
      shown := Some(P);
    }
  }

  ghost predicate AllAttackedIn(n: nat, S: set<nat>, k: nat, v: Valuation) {
    forall j: nat :: j < k && j in S ==> In(2 * n, j) in v
  }

  /** A unit clause, in the block of the attacked set, for every member of S. */
  method RequireAllAttacked(solver: Solver, n: nat, S: set<nat>)
    requires solver.pending == [] && S <= UpTo(n)
    modifies solver
    ensures solver.pending == [] && solver.assumptions == old(solver.assumptions)
    ensures forall v :: Models(v, solver.clauses) <==> Models(v, old(solver.clauses)) && S <= InSet(n, 2 * n, v)
  {
    for i := 0 to n
      invariant solver.pending == [] && solver.assumptions == old(solver.assumptions)
      invariant forall v :: Models(v, solver.clauses) <==> Models(v, old(solver.clauses)) && AllAttackedIn(n, S, i, v)
    {
      NextAttackedIn(n, S, i);
      if i in S { solver.AddClause1(In(2 * n, i)); }
    }
    EveryAttackedIn(n, S);
  }

  lemma NextAttackedIn(n: nat, S: set<nat>, k: nat)
    ensures forall v :: AllAttackedIn(n, S, k + 1, v) <==> AllAttackedIn(n, S, k, v) && (k in S ==> In(2 * n, k) in v)
  {
  }

  lemma EveryAttackedIn(n: nat, S: set<nat>)
    requires S <= UpTo(n)
    ensures forall v :: AllAttackedIn(n, S, n, v) <==> S <= InSet(n, 2 * n, v)
  {
  }
}
