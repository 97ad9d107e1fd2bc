/** EA-PR: all arguments in every preferred extension. */
module EaPrTasks {
  import opened Framework
  import opened Sat
  import opened Encodings
  import opened Blocking
  import opened PreferredTasks
  import opened SkepticalTasks
  import opened IdealTasks

  ghost predicate InAdmissible(af: AAF, a: nat) {
    exists S :: Admissible(af, S) && a in S
  }

  /** A skeptically accepted argument is in the super-core and in some admissible set. */
  lemma {:induction false} SkepticalSupported(af: AAF, C: set<nat>)
    requires SuperCore(af, C)
    ensures forall a: nat :: Skeptical(af, a) ==> a in C && InAdmissible(af, a)
  {
    EmptyAdmissible(af);
    var P := PreferredAbove(af, {});
    forall a: nat | Skeptical(af, a) ensures a in C && InAdmissible(af, a) {
      assert a in P;
      BelowIsCore(af, C, {a});
    }
  }

  /** Some open member of the first k arguments is IN. */
  ghost predicate SomeOf(W: set<nat>, k: nat, v: Valuation) {
    exists j: nat :: j < k && j in W && In(0, j) in v
  }

  lemma NextOf(W: set<nat>, k: nat)
    ensures forall v :: SomeOf(W, k + 1, v) <==> SomeOf(W, k, v) || (k in W && In(0, k) in v)
  {
  }

  lemma AllOf(W: set<nat>, n: nat)
    ensures forall v :: SomeOf(W, n, v) <==> InSet(n, 0, v) * W != {}
  {
    forall v ensures SomeOf(W, n, v) <==> InSet(n, 0, v) * W != {} {
      if SomeOf(W, n, v) {
        var j: nat :| j < n && j in W && In(0, j) in v;
        assert j in InSet(n, 0, v) * W;
      }
      if InSet(n, 0, v) * W != {} {
        var j :| j in InSet(n, 0, v) * W;
        assert In(0, j) in v;
      }
    }
  }

  /** Starts the clause "a member of psc outside acc and spsc is IN". */
  method AddRemaining(solver: Solver, n: nat, psc: set<nat>, acc: set<nat>, spsc: set<nat>) returns (emptyClause: bool)
    requires solver.pending == [] && psc <= UpTo(n)
    modifies solver
    ensures solver.clauses == old(solver.clauses) && solver.assumptions == old(solver.assumptions)
    ensures emptyClause <==> psc - acc - spsc == {}
    ensures emptyClause ==> solver.pending == []
    ensures forall v :: Holds(v, solver.pending) <==> InSet(n, 0, v) * (psc - acc - spsc) != {}
  {
    emptyClause := true;
    ghost var W := psc - acc - spsc;
    for i := 0 to n
      invariant solver.clauses == old(solver.clauses) && solver.assumptions == old(solver.assumptions)
      invariant emptyClause ==> solver.pending == []
      invariant emptyClause <==> forall j :: j in W ==> j >= i
      invariant forall v :: Holds(v, solver.pending) <==> SomeOf(W, i, v)
    {
      NextOf(W, i);
      Grow(solver.pending, In(0, i));
      if i in psc && i !in acc && i !in spsc {
        assert i in W;
        solver.Add(In(0, i));
        emptyClause := false;
      }
    }
    AllOf(W, n);
  }

  /** The part of psc outside acc that some admissible set contains. */
  method StrongCore(af: AAF, g: Labeling, psc: set<nat>, acc: set<nat>) returns (spsc: set<nat>)
    requires af.Valid() && GroundedLabeling(af, g) && psc <= Args(af) - g.outs && g.ins <= acc
    ensures forall a :: a in spsc <==> a in psc && a !in acc && InAdmissible(af, a)
  {
    var solver := new Solver();
    var _ := AddAdmTestClauses(solver, 0, af, g);
    spsc := {};
    while true
      invariant solver.pending == [] && solver.assumptions == {}
      invariant forall a :: a in spsc ==> a in psc && a !in acc && InAdmissible(af, a)
      invariant Looks(af, g, solver.clauses, psc - acc - spsc)
      decreases psc - acc - spsc
    {
      var emptyClause := AddRemaining(solver, af.n, psc, acc, spsc);
      if emptyClause { break; }
      solver.Add(0);
      var sat := solver.Solve();
      if !sat {
        NoneLeft(af, g, psc - acc - spsc);
        break;
      }
      var S, _ := ReadModel(solver, af.n);
      spsc := AddSupported(af, g, psc, acc, spsc, S);
    }
    SupportedAreAll(af, psc, acc, spsc);
  }

  /** What the solver knows: admissible sets, at least those that meet W. */
  ghost predicate Looks(af: AAF, g: Labeling, clauses: seq<Clause>, W: set<nat>) {
    && (forall v :: Models(v, clauses) ==> AdmModel(af, g, 0, v))
    && (forall v :: AdmModel(af, g, 0, v) && InSet(af.n, 0, v) * W != {} ==> Models(v, clauses))
  }

  lemma SupportedAreAll(af: AAF, psc: set<nat>, acc: set<nat>, spsc: set<nat>)
    requires forall a :: a in psc - acc - spsc ==> !InAdmissible(af, a)
    ensures forall a :: a in psc && a !in acc && InAdmissible(af, a) ==> a in spsc
  {
    forall a | a in psc && a !in acc && InAdmissible(af, a) ensures a in spsc {
      assert a in psc - acc - spsc || a in spsc;
    }
  }

  method AddSupported(af: AAF, g: Labeling, psc: set<nat>, acc: set<nat>, spsc: set<nat>, S: set<nat>) returns (more: set<nat>)
    requires psc <= Args(af) - g.outs && g.ins <= acc && Admissible(af, S) && S * (psc - acc - spsc) != {}
    ensures forall a :: a in more <==> a in spsc || (a in S && a in psc && a !in acc)
    ensures psc - acc - more < psc - acc - spsc
  {
    more := spsc;
    for i := 0 to af.n
      invariant forall a: nat :: a in more <==> a in spsc || (a < i && a in S && a in psc && a !in acc)
    {
      if i in g.ins || i in g.outs { continue; }
      if i in S && i in psc && i !in acc { more := more + {i}; }
    }
    ghost var a :| a in S * (psc - acc - spsc);
    assert a in more;
  }

  lemma {:induction false} NoneLeft(af: AAF, g: Labeling, W: set<nat>)
    requires af.Valid() && GroundedLabeling(af, g)
    requires forall v :: AdmModel(af, g, 0, v) ==> InSet(af.n, 0, v) * W == {}
    ensures forall a :: a in W ==> !InAdmissible(af, a)
  {
    forall a | a in W ensures !InAdmissible(af, a) {
      forall S | Admissible(af, S) ensures a !in S {
        AddGrounded(af, g.ins, S);
        var v := AdmValuation(af, g, S + g.ins);
        assert a !in (S + g.ins) * W;
      }
    }
  }

  /** The FUDGE test of one argument, with everything accepted so far as unit clauses. */
  method TestArgument(af: AAF, g: Labeling, acc: set<nat>, arg: nat) returns (accepted: bool)
    requires af.Valid() && GroundedLabeling(af, g) && arg < af.n && acc <= Args(af)
    requires forall b :: b in acc ==> Skeptical(af, b)
    requires InAdmissible(af, arg)
    ensures accepted <==> Skeptical(af, arg)
  {
    var adm := new Solver();
    var _ := AddAdmTestClauses(adm, 0, af, g);
    var att := InitAttacker(af, g);
    RequireAll(adm, af.n, acc);
    RequireAll(att, af.n, acc);
    RequireAllAttacked(att, af.n, acc);
    ghost var blocked := {};
    while true
      invariant adm.pending == [] && adm.assumptions == {} && att.pending == [] && att.assumptions == {}
      invariant KnowsAbove(af, g, acc, adm.clauses)
      invariant forall v :: Models(v, att.clauses) <==> Attacker(af, g, acc, blocked, v)
      invariant BlockedAccept(af, blocked, arg)
      decreases Unblocked(af.n, blocked)
    {
      att.Assume(In(2 * af.n, arg));
      var sat := att.Solve();
      if !sat {
        NoAttackerLeft(af, g, acc, blocked, arg);
        return true;
      }
      var extended, S, accepting, clause := TryExtend(adm, att, af, g, arg, acc);
      if !extended {
        NoneAbove(af, g, acc, S, arg);
        ghost var P := PreferredAbove(af, S);
        return false;
      }
      BlockingProgress(af.n, blocked, S, accepting);
      att.AddClause(clause);
      blocked := blocked + {accepting};
    }
  }

  /** EA-PR: exactly the skeptically accepted arguments. */
  method SolveEapr(af: AAF, g: Labeling) returns (accepted: set<nat>)
    requires af.Valid() && GroundedLabeling(af, g)
    ensures forall a :: a in accepted <==> Skeptical(af, a)
  {
    var psc, oneRunOnly, _ := ComputeCore(af, g, None);
    if oneRunOnly {
      OnlyGrounded(af, g);
      return g.ins;
    }
    GroundedInCore(af, g, psc);
    assert psc + g.ins == psc;
    psc := psc + g.ins;
    if psc == {} {
      SkepticalSupported(af, psc);
      return psc;
    }
    accepted := AcceptInCore(af, g, psc);
  }

  /** From the preferred super-core on: the ideal extension, the strong super-core, the tests. */
  method AcceptInCore(af: AAF, g: Labeling, psc: set<nat>) returns (accepted: set<nat>)
    requires af.Valid() && GroundedLabeling(af, g) && SuperCore(af, psc) && psc <= Args(af) - g.outs
    ensures forall a :: a in accepted <==> Skeptical(af, a)
  {
    var ideal := IdealFromCore(af, psc);
    GroundedBelowIdeal(af, g, ideal);
    var spsc := StrongCore(af, g, psc, ideal);
    accepted := TestAll(af, g, ideal, spsc);
    SkepticalSupported(af, psc);
  }

  /** Tests the arguments of spsc in any order, accepting as it goes. */
  method TestAll(af: AAF, g: Labeling, acc: set<nat>, spsc: set<nat>) returns (accepted: set<nat>)
    requires af.Valid() && GroundedLabeling(af, g) && acc <= Args(af)
    requires forall a :: a in acc ==> Skeptical(af, a)
    requires forall a :: a in spsc ==> a < af.n && InAdmissible(af, a)
    ensures forall a :: a in accepted <==> a in acc || (a in spsc && Skeptical(af, a))
  {
    accepted := acc;
    var todo := spsc;
    while todo != {}
      invariant todo <= spsc && acc <= accepted <= Args(af)
      invariant forall a :: a in accepted ==> Skeptical(af, a) && (a in acc || a in spsc)
      invariant forall a :: a in spsc && Skeptical(af, a) ==> a in accepted || a in todo
    {
      var arg :| arg in todo;
      todo := todo - {arg};
      var yes := TestArgument(af, g, accepted, arg);
      if yes { accepted := accepted + {arg}; }
    }
  }

  lemma {:induction false} GroundedBelowIdeal(af: AAF, g: Labeling, I: set<nat>)
    requires af.Valid() && GroundedLabeling(af, g) && Ideal(af, I)
    ensures g.ins <= I
    ensures forall a :: a in I ==> a < af.n && Skeptical(af, a)
  {
    GroundedComplete(af, g.ins);
    forall P | Preferred(af, P) ensures g.ins <= P { PreferredHasGrounded(af, g.ins, P); }
  }
}
