/** How the semantics, and with them the answers on the tracks, are ordered. */
module Hierarchy {
  import opened Framework
  import opened Queries

  // ------------------------------------------------ laws

  /** A stable extension is semi-stable, preferred, complete and stage. */
  lemma {:induction false} StableIsAll(af: AAF, S: set<nat>)
    requires af.Valid() && Stable(af, S)
    ensures SemiStable(af, S) && Preferred(af, S) && Complete(af, S) && Stage(af, S)
  {
    StableAdmissible(af, S);
    forall T | T <= Args(af) ensures Range(af, T) <= Range(af, S) { assert Plus(af, T) <= Args(af); }
    SemiStablePreferred(af, S);
  }

  /** If there is a stable extension, the semi-stable and the stage extensions are the stable ones. */
  lemma {:induction false} StableExists(af: AAF, S: set<nat>, E: set<nat>)
    requires af.Valid() && Stable(af, S)
    ensures SemiStable(af, E) <==> Stable(af, E)
    ensures Stage(af, E) <==> Stable(af, E)
  {
    StableIsAll(af, S);
    if Stable(af, E) { StableIsAll(af, E); }
    if ConflictFree(af, E) { assert Range(af, E) <= Range(af, S); }
  }

  /** Skeptical implies credulous, ideal implies skeptical, and so on along the semantics. */
  lemma {:induction false} TrackLaws(af: AAF, a: nat)
    requires af.Valid()
    ensures (forall E :: Ideal(af, E) ==> a in E) ==> forall E :: Preferred(af, E) ==> a in E
    ensures (forall E :: Preferred(af, E) ==> a in E) ==> forall E :: SemiStable(af, E) ==> a in E
    ensures (forall E :: SemiStable(af, E) ==> a in E) ==> exists E :: SemiStable(af, E) && a in E
    ensures (exists E :: SemiStable(af, E) && a in E) ==> exists E :: Preferred(af, E) && a in E
  {
    var P, S := SomeExtensions(af);
    EmptyAdmissible(af);
    var I := IdealAbove(af, {});
    forall E | SemiStable(af, E) ensures Preferred(af, E) { SemiStablePreferred(af, E); }
  }

  // ------------------------------------------------ no law holds the other way round

  /** 0 and 1 attack each other and 2; 2 attacks 3. */
  const Floating := AAF(4, [[1], [0], [1, 0], [2]], [[2, 1], [2, 0], [3], []])

  lemma FloatingAttacks()
    ensures Floating.Valid()
    ensures forall i: nat, j: nat :: Attacks(Floating, i, j) <==> (i, j) in {(0, 1), (1, 0), (0, 2), (1, 2), (2, 3)}
  {
    forall i: nat, j: nat ensures Attacks(Floating, i, j) <==> (i, j) in {(0, 1), (1, 0), (0, 2), (1, 2), (2, 3)} {
      if j < 4 { assert Floating.parents[j] == if j == 0 then [1] else if j == 1 then [0] else if j == 2 then [1, 0] else [2]; }
    }
  }

  lemma FloatingStable()
    ensures Floating.Valid() && Stable(Floating, {0, 3}) && Stable(Floating, {1, 3})
  {
    FloatingAttacks();
    assert Attacks(Floating, 0, 1) && Attacks(Floating, 0, 2) && Attacks(Floating, 1, 0) && Attacks(Floating, 1, 2);
    FloatingArgs();
    assert Range(Floating, {0, 3}) == {0, 1, 2, 3} && Range(Floating, {1, 3}) == {0, 1, 2, 3};
  }

  lemma FloatingArgs()
    ensures Args(Floating) == {0, 1, 2, 3}
  {
  }

  /** Floating acceptance: 3 is in every preferred extension, but in no ideal one; and
      0 is in some semi-stable extension, but not in all. */
  lemma {:induction false} FloatingStrict()
    ensures Floating.Valid()
    ensures (forall E :: Preferred(Floating, E) ==> 3 in E) && forall E :: Ideal(Floating, E) ==> 3 !in E
    ensures SemiStable(Floating, {0, 3}) && SemiStable(Floating, {1, 3})
  {
    FloatingStable();
    StableIsAll(Floating, {0, 3});
    StableIsAll(Floating, {1, 3});
    forall E | Preferred(Floating, E) ensures 3 in E { FloatingPreferred(E); }
    forall E | Ideal(Floating, E) ensures 3 !in E {
      assert E <= {0, 3} && E <= {1, 3};
      FloatingDefence(E);
    }
  }

  lemma FloatingDefence(E: set<nat>)
    requires Admissible(Floating, E) && 0 !in E && 1 !in E
    ensures 3 !in E
  {
    FloatingAttacks();
    assert Attacks(Floating, 2, 3);
    assert !Hits(Floating, E, 2);
  }

  lemma {:induction false} FloatingPreferred(E: set<nat>)
    requires Preferred(Floating, E)
    ensures 3 in E
  {
    FloatingAttacks();
    if 0 in E || 1 in E {
      PreferredComplete(Floating, E);
      assert Attacks(Floating, 0, 2) && Attacks(Floating, 1, 2);
      assert Defends(Floating, E, 3);
    } else {
      FloatingDefence(E);
      FloatingWithoutRivals(E);
      FloatingStable();
      StableAdmissible(Floating, {0, 3});
    }
  }

  lemma FloatingWithoutRivals(E: set<nat>)
    requires Admissible(Floating, E) && 0 !in E && 1 !in E && 3 !in E
    ensures E == {}
  {
    FloatingAttacks();
    FloatingArgs();
    assert Attacks(Floating, 0, 2);
    assert !Hits(Floating, E, 0);
  }

  /** 0 and 1 attack each other; 1 attacks 2, which attacks itself. */
  const Rivals := AAF(3, [[1], [0], [2, 1]], [[1], [2, 0], [2]])

  lemma RivalsAttacks()
    ensures Rivals.Valid() && Args(Rivals) == {0, 1, 2}
    ensures forall i: nat, j: nat :: Attacks(Rivals, i, j) <==> (i, j) in {(0, 1), (1, 0), (1, 2), (2, 2)}
  {
    forall i: nat, j: nat ensures Attacks(Rivals, i, j) <==> (i, j) in {(0, 1), (1, 0), (1, 2), (2, 2)} {
      if j < 3 { assert Rivals.parents[j] == if j == 0 then [1] else if j == 1 then [0] else [2, 1]; }
    }
  }

  /** 1 is in every semi-stable extension but not in every preferred one; 0 is in some
      preferred extension but in no semi-stable one. */
  lemma {:induction false} RivalsStrict()
    ensures Rivals.Valid()
    ensures (forall E :: SemiStable(Rivals, E) ==> 1 in E && 0 !in E) && Preferred(Rivals, {0})
  {
    RivalsAttacks();
    assert Attacks(Rivals, 0, 1) && Attacks(Rivals, 1, 0) && Attacks(Rivals, 1, 2) && Attacks(Rivals, 2, 2);
    assert Range(Rivals, {1}) == {0, 1, 2};
    assert Stable(Rivals, {1});
    forall E | SemiStable(Rivals, E) ensures 1 in E && 0 !in E {
      StableExists(Rivals, {1}, E);
      assert !Hits(Rivals, E, 2) || 2 !in E;
    }
    assert Admissible(Rivals, {0});
    forall T | Admissible(Rivals, T) && {0} <= T ensures T == {0} { RivalsWithZero(T); }
  }

  lemma RivalsWithZero(T: set<nat>)
    requires Admissible(Rivals, T) && 0 in T
    ensures T == {0}
  {
    RivalsAttacks();
    assert Attacks(Rivals, 0, 1) && Attacks(Rivals, 2, 2);
    assert Hits(Rivals, T, 1);
  }

  /** 0 attacks 1, 1 attacks 2 and 2 attacks 0. */
  const Cycle := AAF(3, [[2], [0], [1]], [[1], [2], [0]])

  lemma CycleAttacks()
    ensures Cycle.Valid() && Args(Cycle) == {0, 1, 2}
    ensures forall i: nat, j: nat :: Attacks(Cycle, i, j) <==> (i, j) in {(0, 1), (1, 2), (2, 0)}
  {
    forall i: nat, j: nat ensures Attacks(Cycle, i, j) <==> (i, j) in {(0, 1), (1, 2), (2, 0)} {
      if j < 3 { assert Cycle.parents[j] == if j == 0 then [2] else if j == 1 then [0] else [1]; }
    }
  }

  /** Stage extensions need not be admissible: on an odd cycle {0} is one, but only the empty set is semi-stable. */
  lemma {:induction false} CycleStrict()
    ensures Cycle.Valid() && Stage(Cycle, {0}) && !Admissible(Cycle, {0})
    ensures forall E :: SemiStable(Cycle, E) <==> E == {}
  {
    CycleAttacks();
    assert Attacks(Cycle, 0, 1) && Attacks(Cycle, 1, 2) && Attacks(Cycle, 2, 0);
    EmptyAdmissible(Cycle);
    forall T | Admissible(Cycle, T) ensures T == {} { CycleAdmissible(T); }
    forall T | ConflictFree(Cycle, T) && Range(Cycle, {0}) <= Range(Cycle, T) ensures T == {0} { CycleConflictFree(T); }
  }

  lemma CycleAdmissible(T: set<nat>)
    requires Admissible(Cycle, T)
    ensures T == {}
  {
    CycleAttacks();
    assert Attacks(Cycle, 0, 1) && Attacks(Cycle, 1, 2) && Attacks(Cycle, 2, 0);
    assert forall j :: j in T ==> Defends(Cycle, T, j) && !Hits(Cycle, T, j);
    assert 0 !in T;
    assert 1 !in T;
    assert 2 !in T;
  }

  lemma CycleConflictFree(T: set<nat>)
    requires ConflictFree(Cycle, T) && Range(Cycle, {0}) <= Range(Cycle, T)
    ensures T == {0}
  {
    CycleAttacks();
    assert Attacks(Cycle, 0, 1) && Attacks(Cycle, 1, 2) && Attacks(Cycle, 2, 0);
    assert forall j :: j in T ==> !Hits(Cycle, T, j);
    assert 0 in Range(Cycle, {0}) && 1 in Range(Cycle, {0});
    assert 0 in T || 2 in T;
    assert 1 in T || 0 in T;
  }

  /** 0 and 1 attack each other, and 1 attacks itself. */
  const Doubtful := AAF(2, [[1], [1, 0]], [[1], [1, 0]])

  lemma DoubtfulAttacks()
    ensures Doubtful.Valid() && Args(Doubtful) == {0, 1}
    ensures forall i: nat, j: nat :: Attacks(Doubtful, i, j) <==> (i, j) in {(0, 1), (1, 0), (1, 1)}
  {
    forall i: nat, j: nat ensures Attacks(Doubtful, i, j) <==> (i, j) in {(0, 1), (1, 0), (1, 1)} {
      if j < 2 { assert Doubtful.parents[j] == if j == 0 then [1] else [1, 0]; }
    }
  }

  /** The ideal extension may exceed the grounded one. */
  lemma {:induction false} DoubtfulStrict()
    ensures Doubtful.Valid() && GroundedLabeling(Doubtful, Labeling({}, {})) && Ideal(Doubtful, {0})
  {
    DoubtfulAttacks();
    assert Attacks(Doubtful, 0, 1) && Attacks(Doubtful, 1, 0) && Attacks(Doubtful, 1, 1);
    assert Admissible(Doubtful, {0});
    forall T | Admissible(Doubtful, T) ensures T <= {0} { assert Attacks(Doubtful, 1, 1); }
    forall P | Preferred(Doubtful, P) ensures {0} <= P { assert P <= {0}; }
    assert !Defends(Doubtful, {}, 0) && !Defends(Doubtful, {}, 1);
  }
}
