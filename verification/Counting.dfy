/** Counting complete and stable extensions by blocking each one found. */
module CountingTasks {
  import opened Framework
  import opened Sat
  import opened Encodings
  import opened Blocking

  ghost function CompleteSets(af: AAF): set<set<nat>> { set E | E <= Args(af) && Complete(af, E) }

  ghost function StableSets(af: AAF): set<set<nat>> { set E | E <= Args(af) && Stable(af, E) }

  /** The sets of arguments not found yet. */
  ghost function Unseen(n: nat, found: set<set<nat>>): set<set<nat>> { set S | S <= UpTo(n) && S !in found }

  lemma FindingProgress(n: nat, found: set<set<nat>>, S: set<nat>)
    requires S <= UpTo(n) && S !in found
    ensures Unseen(n, found + {S}) < Unseen(n, found)
  {
    assert S in Unseen(n, found) && S !in Unseen(n, found + {S});
  }

  // ------------------------------------------------ complete extensions

  /** The valuation disagrees with S on one of the first k arguments. */
  ghost predicate Differs(S: set<nat>, k: nat, v: Valuation) {
    exists j: nat :: j < k && (j in S) != (In(0, j) in v)
  }

  lemma NextDiffers(S: set<nat>, k: nat)
    ensures forall v :: Differs(S, k + 1, v) <==> Differs(S, k, v) || (k in S) != (In(0, k) in v)
  {
  }

  lemma DiffersSets(S: set<nat>, n: nat)
    requires S <= UpTo(n)
    ensures forall v :: Differs(S, n, v) <==> InSet(n, 0, v) != S
  {
    forall v ensures Differs(S, n, v) <==> InSet(n, 0, v) != S {
      if Differs(S, n, v) {
        var j: nat :| j < n && (j in S) != (In(0, j) in v);
        assert (j in S) != (j in InSet(n, 0, v));
      }
    }
  }

  /** The clause that excludes exactly the current IN set. */
  method ExactClause(solver: Solver, n: nat) returns (clause: Clause)
    requires solver.state == SAT
    ensures |clause| == n && 0 !in clause
    ensures forall v :: Holds(v, clause) <==> InSet(n, 0, v) != InSet(n, 0, solver.model)
  {
    clause := [];
    ghost var S := InSet(n, 0, solver.model);
    for i := 0 to n
      invariant |clause| == i && 0 !in clause
      invariant forall v :: Holds(v, clause) <==> Differs(S, i, v)
    {
      NextDiffers(S, i);
      Grow(clause, -In(0, i));
      Grow(clause, In(0, i));
      if solver.Val(In(0, i)) > 0 {
        clause := clause + [-In(0, i)];
      } else {
        clause := clause + [In(0, i)];
      }
    }
    DiffersSets(S, n);
  }

  lemma {:induction false} ComValuation(af: AAF, E: set<nat>) returns (v: Valuation)
    requires Complete(af, E)
    ensures InSet(af.n, 0, v) == E && ComModel(af, 0, v)
  {
    v := Encode(0, E, Plus(af, E));
    EncodeDecodes(af.n, 0, E, Plus(af, E), {});
    assert v + {} == v;
  }

  /** CE-CO: the number of complete extensions. */
  method SolveCeco(af: AAF, g: Labeling) returns (count: nat)
    requires af.Valid() && GroundedLabeling(af, g)
    ensures count == |CompleteSets(af)|
    ensures exists all: set<set<nat>> :: |all| == count && forall E :: E in all <==> Complete(af, E)
  {
    var solver := new Solver();
    AddComTestClauses(solver, 0, af, g);
    count := 0;
    ghost var found: set<set<nat>> := {};
    while true
      invariant solver.pending == [] && solver.assumptions == {}
      invariant forall v :: Models(v, solver.clauses) <==> ComModel(af, 0, v) && InSet(af.n, 0, v) !in found
      invariant count == |found| && found <= CompleteSets(af)
      decreases Unseen(af.n, found)
    {
      var sat := solver.Solve();
      if !sat {
        forall E | Complete(af, E) ensures E in found { var v := ComValuation(af, E); }
        assert found == CompleteSets(af);
        break;
      }
      count := count + 1;
      var clause := ExactClause(solver, af.n);
      ghost var S := InSet(af.n, 0, solver.model);
      FindingProgress(af.n, found, S);
      found := found + {S};
      if |clause| == 0 {
        forall E | E in CompleteSets(af) ensures E == S { assert E <= UpTo(0) && S <= UpTo(0); }
        assert found == CompleteSets(af);
        break;
      }
      solver.AddClause(clause);
    }
  }

  // ------------------------------------------------ stable extensions

  ghost predicate StSomeNew(S: set<nat>, k: nat, v: Valuation) {
    exists j: nat :: j < k && j !in S && StIn(j) in v
  }

  lemma StNextNew(S: set<nat>, k: nat)
    ensures forall v :: StSomeNew(S, k + 1, v) <==> StSomeNew(S, k, v) || (k !in S && StIn(k) in v)
  {
  }

  lemma StAllNew(S: set<nat>, n: nat)
    ensures forall v :: StSomeNew(S, n, v) <==> !(StInSet(n, v) <= S)
  {
    forall v ensures StSomeNew(S, n, v) <==> !(StInSet(n, v) <= S) {
      if StSomeNew(S, n, v) {
        var j: nat :| j < n && j !in S && StIn(j) in v;
        assert j in StInSet(n, v);
      }
    }
  }

  /** The clause that asks for an argument outside the current extension; empty if there is none. */
  method OutsideClause(solver: Solver, n: nat) returns (clause: Clause)
    requires solver.state == SAT
    ensures 0 !in clause && (clause == [] <==> StInSet(n, solver.model) == UpTo(n))
    ensures forall v :: Holds(v, clause) <==> !(StInSet(n, v) <= StInSet(n, solver.model))
  {
    clause := [];
    ghost var S := StInSet(n, solver.model);
    for i := 0 to n
      invariant 0 !in clause && (clause == [] <==> forall j: nat :: j < i ==> j in S)
      invariant forall v :: Holds(v, clause) <==> StSomeNew(S, i, v)
    {
      StNextNew(S, i);
      Grow(clause, StIn(i));
      assert i in S <==> StIn(i) in solver.model;
      if solver.Val(StIn(i)) < 0 {
        clause := clause + [StIn(i)];
      }
    }
    StAllNew(S, n);
  }

  /** CE-ST: the number of stable extensions. */
  method SolveCest(af: AAF, g: Labeling) returns (count: nat)
    requires af.Valid() && GroundedLabeling(af, g)
    ensures count == |StableSets(af)|
    ensures exists all: set<set<nat>> :: |all| == count && forall E :: E in all <==> Stable(af, E)
  {
    var solver := new Solver();
    AddStbTestClauses(solver, af, g);
    count := 0;
    ghost var found: set<set<nat>> := {};
    while true
      invariant solver.pending == [] && solver.assumptions == {}
      invariant forall v :: Models(v, solver.clauses) <==> Stable(af, StInSet(af.n, v)) && Open(StInSet(af.n, v), found)
      invariant count == |found| && found <= StableSets(af)
      decreases Unseen(af.n, found)
    {
      var sat := solver.Solve();
      if !sat {
        AllStableFound(af, found);
        break;
      }
      count := count + 1;
      var clause := OutsideClause(solver, af.n);
      ghost var S := StInSet(af.n, solver.model);
      FindingProgress(af.n, found, S);
      found := found + {S};
      if clause == [] {
        forall E | E in StableSets(af) ensures E == S { StableIncomparable(af, E, S); }
        assert found == StableSets(af);
        break;
      }
      solver.AddClause(clause);
    }
  }

  /** Blocking all subsets of the extensions found loses no other stable extension. */
  lemma {:induction false} AllStableFound(af: AAF, found: set<set<nat>>)
    requires found <= StableSets(af)
    requires forall v :: Stable(af, StInSet(af.n, v)) ==> !Open(StInSet(af.n, v), found)
    ensures found == StableSets(af)
  {
    forall E | Stable(af, E) ensures E in found {
      StEncodeDecodes(af.n, E);
      assert !Open(E, found);
      var B :| B in found && E <= B;
      StableIncomparable(af, E, B);
    }
  }
}
