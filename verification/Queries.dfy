/** The front end: queries the grounded labelling already answers, and the rest. */
module Queries {
  import opened Framework
  import opened Sat
  import opened Encodings
  import opened Blocking
  import opened CountingTasks
  import SkepticalTasks
  import opened IdealTasks
  import opened SemiStableTasks
  import opened Loading

  datatype Track = DC_CO | DC_PR | DC_SST | DC_ID | DS_PR | DS_SST | DS_ID

  /** What the track asks about an argument. */
  ghost predicate Accepted(af: AAF, track: Track, a: nat) {
    match track
    case DC_CO => exists E :: Complete(af, E) && a in E
    case DC_PR => exists E :: Preferred(af, E) && a in E
    case DC_SST => exists E :: SemiStable(af, E) && a in E
    case DC_ID => exists E :: Ideal(af, E) && a in E
    case DS_PR => Skeptical(af, a)
    case DS_SST => forall E :: SemiStable(af, E) ==> a in E
    case DS_ID => forall E :: Ideal(af, E) ==> a in E
  }

  // ------------------------------------------------ extensions exist

  /** Some admissible set has maximal range. */
  lemma {:induction false} SemiStableAbove(af: AAF, S: set<nat>) returns (E: set<nat>)
    requires Admissible(af, S)
    ensures SemiStable(af, E)
    decreases Args(af) - Range(af, S)
  {
    if T :| Admissible(af, T) && Range(af, S) < Range(af, T) {
      assert exists x :: x in Range(af, T) && x !in Range(af, S);
      E := SemiStableAbove(af, T);
    } else {
      E := S;
    }
  }

  lemma SomeExtensions(af: AAF) returns (P: set<nat>, E: set<nat>)
    ensures Preferred(af, P) && SemiStable(af, E)
  {
    EmptyAdmissible(af);
    P := PreferredAbove(af, {});
    E := SemiStableAbove(af, {});
  }

  /** Some ideal extension lies above every admissible set that all preferred extensions contain. */
  lemma {:induction false} IdealAbove(af: AAF, S: set<nat>) returns (E: set<nat>)
    requires Admissible(af, S) && BelowPreferred(af, S)
    ensures Ideal(af, E) && S <= E
    decreases Args(af) - S
  {
    if T :| Admissible(af, T) && BelowPreferred(af, T) && !(T <= S) {
      var P := PreferredAbove(af, S);
      forall j | j in T ensures !Hits(af, S, j) { HitsInside(af, P, S, j); }
      AdmissibleUnion(af, S, T);
      assert exists x :: x in S + T && x !in S;
      E := IdealAbove(af, S + T);
    } else {
      E := S;
    }
  }

  lemma HitsInside(af: AAF, P: set<nat>, S: set<nat>, j: nat)
    requires ConflictFree(af, P) && S <= P && j in P
    ensures !Hits(af, S, j)
  {
    assert !Hits(af, P, j);
  }

  /** There is exactly one ideal extension, and it contains the grounded one. */
  lemma {:induction false} OneIdeal(af: AAF, g: Labeling) returns (E: set<nat>)
    requires GroundedLabeling(af, g)
    ensures Ideal(af, E) && g.ins <= E
    ensures forall F :: Ideal(af, F) ==> F == E
  {
    GroundedComplete(af, g.ins);
    forall P | Preferred(af, P) ensures g.ins <= P { PreferredHasGrounded(af, g.ins, P); }
    E := IdealAbove(af, g.ins);
  }

  // ------------------------------------------------ the grounded shortcuts

  /** Complete extensions suffice for credulous acceptance in preferred extensions. */
  lemma {:induction false} CredulousAlike(af: AAF, a: nat)
    requires af.Valid()
    ensures Accepted(af, DC_CO, a) <==> Accepted(af, DC_PR, a)
  {
    if E :| Complete(af, E) && a in E {
      var P := PreferredAbove(af, E);
    }
    if P :| Preferred(af, P) && a in P {
      PreferredComplete(af, P);
    }
  }

  /** What the grounded extension contains is accepted on every track. */
  lemma {:induction false} GroundedAccepted(af: AAF, g: Labeling, track: Track, a: nat)
    requires af.Valid() && GroundedLabeling(af, g) && a in g.ins
    ensures Accepted(af, track, a)
  {
    GroundedComplete(af, g.ins);
    CredulousAlike(af, a);
    var I := OneIdeal(af, g);
    var _, E := SomeExtensions(af);
    forall P | Preferred(af, P) ensures a in P { PreferredHasGrounded(af, g.ins, P); }
    forall F | SemiStable(af, F) ensures a in F { SemiStablePreferred(af, F); }
  }

  lemma {:induction false} AttackedOmitted(af: AAF, g: Labeling, P: set<nat>, a: nat)
    requires GroundedLabeling(af, g) && a in g.outs && Preferred(af, P)
    ensures a !in P
  {
    PreferredHasGrounded(af, g.ins, P);
    HitsMono(af, g.ins, P, a);
  }

  lemma {:induction false} CompleteOmits(af: AAF, g: Labeling, E: set<nat>, a: nat)
    requires GroundedLabeling(af, g) && a in g.outs && Complete(af, E)
    ensures a !in E
  {
    GroundedLeastComplete(af, g.ins, E);
    HitsMono(af, g.ins, E, a);
  }

  /** No complete, preferred, semi-stable or ideal extension contains what the grounded extension attacks. */
  lemma {:induction false} AllOmit(af: AAF, g: Labeling, a: nat)
    requires af.Valid() && GroundedLabeling(af, g) && a in g.outs
    ensures forall E :: Complete(af, E) ==> a !in E
    ensures forall P :: Preferred(af, P) ==> a !in P
    ensures forall F :: SemiStable(af, F) ==> a !in F
    ensures forall I :: Ideal(af, I) ==> a !in I
  {
    var T, _ := SomeExtensions(af);
    forall P | Preferred(af, P) ensures a !in P { AttackedOmitted(af, g, P, a); }
    forall E | Complete(af, E) ensures a !in E { CompleteOmits(af, g, E, a); }
    forall F | SemiStable(af, F) ensures a !in F { SemiStablePreferred(af, F); }
    forall I | Ideal(af, I) ensures a !in I { assert I <= T; }
  }

  /** What the grounded extension attacks is accepted on no track. */
  lemma {:induction false} AttackedRejected(af: AAF, g: Labeling, track: Track, a: nat)
    requires af.Valid() && GroundedLabeling(af, g) && a in g.outs
    ensures !Accepted(af, track, a)
  {
    AllOmit(af, g, a);
    var I := OneIdeal(af, g);
    var P, E := SomeExtensions(af);
    assert a !in P && a !in E && a !in I;
  }

  // ------------------------------------------------ why DS-ID needs the shortcuts

  /** Argument 0 attacks 1; 2 and 3 attack each other. */
  const Example := AAF(4, [[], [0], [3], [2]], [[1], [], [3], [2]])

  lemma ExampleAttacks(i: nat, j: nat)
    ensures Attacks(Example, i, j) <==> (i, j) in {(0, 1), (3, 2), (2, 3)}
  {
    if j < 4 { assert Example.parents[j] == if j == 0 then [] else if j == 1 then [0] else if j == 2 then [3] else [2]; }
  }

  lemma ExampleGrounded()
    ensures Example.Valid() && GroundedLabeling(Example, Labeling({0}, {1}))
  {
    forall i: nat, j: nat ensures Attacks(Example, i, j) <==> (i, j) in {(0, 1), (3, 2), (2, 3)} { ExampleAttacks(i, j); }
    assert Attacks(Example, 3, 2) && Attacks(Example, 2, 3) && Attacks(Example, 0, 1);
    assert Defends(Example, {0}, 0) && !Defends(Example, {0}, 1) && !Defends(Example, {0}, 2) && !Defends(Example, {0}, 3);
    forall X | X <= Args(Example) && Characteristic(Example, X) <= X ensures {0} <= X {
      assert Defends(Example, X, 0);
      assert 0 in Characteristic(Example, X);
    }
  }

  /** A query that grounded puts OUT, in no ideal extension, to which DS-ID alone answers YES. */
  lemma DecidedQueryExample()
    ensures Example.Valid() && GroundedLabeling(Example, Labeling({0}, {1}))
    ensures forall I :: Ideal(Example, I) ==> 1 !in I
    ensures exists j :: Attackable(Example, j) && j !in {1}
  {
    ExampleGrounded();
    AllOmit(Example, Labeling({0}, {1}), 1);
    forall i: nat, j: nat ensures Attacks(Example, i, j) <==> (i, j) in {(0, 1), (3, 2), (2, 3)} { ExampleAttacks(i, j); }
    assert Attacks(Example, 2, 3);
    assert Admissible(Example, {2}) && Hits(Example, {2}, 3);
    assert Attackable(Example, 3);
  }

  // ------------------------------------------------ answering

  /** DC-CO: is there a complete labelling with the query IN? */
  method SolveDcco(af: AAF, g: Labeling, arg: nat) returns (yes: bool, shown: Option<set<nat>>)
    requires af.Valid() && GroundedLabeling(af, g) && arg < af.n
    ensures yes <==> exists E :: Complete(af, E) && arg in E
    ensures yes <==> Accepted(af, DC_CO, arg)
    ensures yes ==> shown.Some? && Complete(af, shown.value) && arg in shown.value
    ensures !yes ==> shown == None
  {
    var solver := new Solver();
    AddComTestClauses(solver, 0, af, g);
    solver.Assume(In(0, arg));
    yes := solver.Solve();
    if yes {
      assert arg in InSet(af.n, 0, solver.model);
      var ins, _ := ReadModel(solver, af.n);
      shown := Some(ins);
    } else {
      shown := None;
      forall E | Complete(af, E) ensures arg !in E {
        var v := ComValuation(af, E);
        assert AllTrue(v, {In(0, arg)}) <==> arg in InSet(af.n, 0, v);
      }
    }
  }

  /** The shortcuts, then the solver loops; with a witness to print, the ideal tracks compute the whole extension. */
  method Dispatch(af: AAF, g: Labeling, track: Track, arg: nat, witnesses: bool) returns (yes: bool)
    requires af.Valid() && GroundedLabeling(af, g) && arg < af.n
    ensures yes <==> Accepted(af, track, arg)
  {
    if arg in g.ins {
      GroundedAccepted(af, g, track, arg);
      return true;
    }
    if arg in g.outs {
      AttackedRejected(af, g, track, arg);
      return false;
    }
    match track {
      case DC_CO =>
        var shown;
        yes, shown := SolveDcco(af, g, arg);
      case DC_PR =>
        CredulousAlike(af, arg);
        var shown;
        yes, shown := SolveDcco(af, g, arg);
      case DC_SST =>
        var shown;
        yes, shown := SolveDcsst(af, g, arg);
      case DS_PR =>
        var shown;
        yes, shown := SkepticalTasks.SolveDspr(af, g, arg);
      case DS_SST =>
        var shown;
        yes, shown := SolveDssst(af, g, arg);
      case DC_ID | DS_ID =>
        yes := DecideIdeal(af, g, arg, witnesses);
    }
  }

  /** DC-ID and DS-ID, which coincide because there is one ideal extension. */
  method DecideIdeal(af: AAF, g: Labeling, arg: nat, witnesses: bool) returns (yes: bool)
    requires af.Valid() && GroundedLabeling(af, g) && arg < af.n && arg !in g.ins && arg !in g.outs
    ensures yes <==> Accepted(af, DC_ID, arg)
    ensures yes <==> Accepted(af, DS_ID, arg)
  {
    var I := OneIdeal(af, g);
    if witnesses {
      var ideal := ComputeIdeal(af, g);
      yes := arg in ideal;
    } else {
      yes := SolveDsid(af, g, arg);
    }
  }

  /** The answer to a query, track by track. */
  method Answer(af: AAF, g: Labeling, track: Track, arg: nat, witnesses: bool) returns (yes: bool)
    requires af.Valid() && GroundedLabeling(af, g) && arg < af.n
    ensures track == DC_CO ==> (yes <==> exists E :: Complete(af, E) && arg in E)
    ensures track == DC_PR ==> (yes <==> exists E :: Preferred(af, E) && arg in E)
    ensures track == DC_SST ==> (yes <==> exists E :: SemiStable(af, E) && arg in E)
    ensures track == DC_ID ==> (yes <==> exists E :: Ideal(af, E) && arg in E)
    ensures track == DS_PR ==> (yes <==> forall E :: Preferred(af, E) ==> arg in E)
    ensures track == DS_SST ==> (yes <==> forall E :: SemiStable(af, E) ==> arg in E)
    ensures track == DS_ID ==> (yes <==> forall E :: Ideal(af, E) ==> arg in E)
  {
    yes := Dispatch(af, g, track, arg, witnesses);
  }

  /** From the list of attacks to the answer. */
  method Query(n: nat, attacks: seq<(nat, nat)>, track: Track, arg: nat, witnesses: bool) returns (af: AAF, yes: bool)
    requires arg < n && forall q :: q in attacks ==> q.0 < n && q.1 < n
    ensures af.n == n && forall i: nat, j: nat :: Attacks(af, i, j) <==> (i, j) in attacks
    ensures track == DC_CO ==> (yes <==> exists E :: Complete(af, E) && arg in E)
    ensures track == DC_PR ==> (yes <==> exists E :: Preferred(af, E) && arg in E)
    ensures track == DC_SST ==> (yes <==> exists E :: SemiStable(af, E) && arg in E)
    ensures track == DC_ID ==> (yes <==> exists E :: Ideal(af, E) && arg in E)
    ensures track == DS_PR ==> (yes <==> forall E :: Preferred(af, E) ==> arg in E)
    ensures track == DS_SST ==> (yes <==> forall E :: SemiStable(af, E) ==> arg in E)
    ensures track == DS_ID ==> (yes <==> forall E :: Ideal(af, E) ==> arg in E)
  {
    var g;
    af, g := Prepare(n, attacks);
    yes := Answer(af, g, track, arg, witnesses);
  }
}
