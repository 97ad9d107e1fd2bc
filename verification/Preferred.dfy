/** Computing and counting preferred extensions by growing admissible sets. */
module PreferredTasks {
  import opened Framework
  import opened Sat
  import opened Encodings
  import opened Blocking

  /** An admissible set that no model strictly extends is preferred. */
  lemma {:induction false} MaximalIsPreferred(af: AAF, g: Labeling, A: set<nat>)
    requires af.Valid() && GroundedLabeling(af, g) && Admissible(af, A)
    requires forall v :: AdmModel(af, g, 0, v) && A <= InSet(af.n, 0, v) ==> InSet(af.n, 0, v) <= A
    ensures Preferred(af, A)
  {
    forall T | Admissible(af, T) && A <= T ensures T == A {
      AddGrounded(af, g.ins, T);
      var v := AdmValuation(af, g, T + g.ins);
      assert T + g.ins <= A;
    }
  }

  /** A model for every admissible set above the grounded extension. */
  lemma {:induction false} AdmValuation(af: AAF, g: Labeling, S: set<nat>) returns (v: Valuation)
    requires af.Valid() && GroundedLabeling(af, g) && Admissible(af, S) && g.ins <= S
    ensures InSet(af.n, 0, v) == S && OutSet(af.n, 0, v) == Plus(af, S)
    ensures AdmModel(af, g, 0, v)
  {
    v := Encode(0, S, Plus(af, S));
    EncodeDecodes(af.n, 0, S, Plus(af, S), {});
    assert v + {} == v;
    AdmWitness(af, g, S);
  }

  /** SE-PR: a preferred extension above an optional admissible start set. */
  method SolveSepr(af: AAF, g: Labeling, initial: Option<set<nat>>) returns (ext: set<nat>)
    requires af.Valid() && GroundedLabeling(af, g)
    requires initial.Some? ==> Admissible(af, initial.value) && g.ins <= initial.value
    ensures Preferred(af, ext)
    ensures initial.Some? ==> initial.value <= ext
  {
    var solver := new Solver();
    var allGrounded := AddAdmTestClauses(solver, 0, af, g);
    if allGrounded {
      AllGrounded(af, g);
      if initial.Some? { AtPreferred(af, g.ins, initial.value); }
      return g.ins;
    }
    var admSet := if initial.None? then {} else initial.value;
    AddOutside(solver, af.n, admSet);
    RequireAll(solver, af.n, admSet);
    while true
      invariant Admissible(af, admSet) && (initial.Some? ==> initial.value <= admSet)
      invariant solver.pending == [] && solver.assumptions == {}
      invariant forall v :: Models(v, solver.clauses) <==>
        AdmModel(af, g, 0, v) && admSet <= InSet(af.n, 0, v) && !(InSet(af.n, 0, v) <= admSet)
      decreases Args(af) - admSet
    {
      var sat := solver.Solve();
      if !sat { break; }
      var ins, clause := ReadModel(solver, af.n);
      solver.AddClause(clause);
      RequireAll(solver, af.n, ins - admSet);
      admSet := ins;
    }
    MaximalIsPreferred(af, g, admSet);
    return admSet;
  }

  ghost function PreferredSets(af: AAF): set<set<nat>> { set P | P <= Args(af) && Preferred(af, P) }

  /** Everything blocked so far is empty or lies below a counted extension or below A. */
  ghost predicate BlockedBelow(blocked: set<set<nat>>, found: set<set<nat>>, A: set<nat>) {
    forall B :: B in blocked ==> B <= A || Covered(B, found)
  }

  ghost predicate Covered(B: set<nat>, found: set<set<nat>>) {
    exists P :: P in found && B <= P
  }

  lemma CoveredDown(A: set<nat>, B: set<nat>, found: set<set<nat>>)
    ensures A <= B && Covered(B, found) ==> Covered(A, found)
  {
    if A <= B && Covered(B, found) {
      var P :| P in found && B <= P;
      assert A <= P;
    }
  }

  /** What is not below a counted extension, and not below A, is open. */
  lemma AboveIsOpen(blocked: set<set<nat>>, found: set<set<nat>>, A: set<nat>, T: set<nat>)
    requires BlockedBelow(blocked, found, A) && !Covered(T, found) && !(T <= A)
    ensures Open(T, blocked)
  {
    forall B | B in blocked ensures !(T <= B) { CoveredDown(T, B, found); }
  }

  /** The end of a climb: a new preferred extension. */
  lemma {:induction false} ClimbEnds(af: AAF, g: Labeling, blocked: set<set<nat>>, found: set<set<nat>>, A: set<nat>)
    requires af.Valid() && GroundedLabeling(af, g) && Admissible(af, A)
    requires BlockedBelow(blocked, found, A) && !Covered(A, found)
    requires forall v :: AdmModel(af, g, 0, v) && Open(InSet(af.n, 0, v), blocked) ==> !(A <= InSet(af.n, 0, v))
    ensures Preferred(af, A) && A !in found
  {
    forall v | AdmModel(af, g, 0, v) && A <= InSet(af.n, 0, v) ensures InSet(af.n, 0, v) <= A {
      CoveredDown(A, InSet(af.n, 0, v), found);
      if !(InSet(af.n, 0, v) <= A) { AboveIsOpen(blocked, found, A, InSet(af.n, 0, v)); }
    }
    MaximalIsPreferred(af, g, A);
    assert A in found ==> Covered(A, found);
  }

  /** When no model is left, every non-empty preferred extension has been counted. */
  lemma {:induction false} AllCounted(af: AAF, g: Labeling, blocked: set<set<nat>>, found: set<set<nat>>, P: set<nat>)
    requires af.Valid() && GroundedLabeling(af, g) && Preferred(af, P) && P != {}
    requires BlockedBelow(blocked, found, {}) && forall Q :: Q in found ==> Preferred(af, Q)
    requires forall v :: AdmModel(af, g, 0, v) ==> !Open(InSet(af.n, 0, v), blocked)
    ensures P in found
  {
    PreferredHasGrounded(af, g.ins, P);
    var v := AdmValuation(af, g, P);
    if !Covered(P, found) { AboveIsOpen(blocked, found, {}, P); }
  }

  /** The empty set is preferred only when nothing else is. */
  lemma {:induction false} FinalCount(af: AAF, found: set<set<nat>>)
    requires forall P :: P in found <==> Preferred(af, P) && P != {}
    ensures |PreferredSets(af)| == if found == {} then 1 else |found|
  {
    EmptyAdmissible(af);
    var P := PreferredAbove(af, {});
    if found == {} {
      assert P == {};
      assert PreferredSets(af) == {P};
    } else {
      var Q :| Q in found;
      assert !Preferred(af, {}) by { assert {} <= Q; }
      assert PreferredSets(af) == found;
    }
  }

  lemma {:induction false} NoModelLeft(af: AAF, g: Labeling, blocked: set<set<nat>>, found: set<set<nat>>)
    requires af.Valid() && GroundedLabeling(af, g)
    requires BlockedBelow(blocked, found, {}) && forall P :: P in found ==> Preferred(af, P) && P != {}
    requires forall v :: AdmModel(af, g, 0, v) ==> !Open(InSet(af.n, 0, v), blocked)
    ensures |PreferredSets(af)| == if found == {} then 1 else |found|
  {
    forall P ensures P in found <==> Preferred(af, P) && P != {} {
      if Preferred(af, P) && P != {} { AllCounted(af, g, blocked, found, P); }
    }
    FinalCount(af, found);
  }

  /** What the solver of CE-PR knows: admissible sets not below any set seen so far. */
  ghost predicate Seeks(af: AAF, g: Labeling, clauses: seq<Clause>, blocked: set<set<nat>>) {
    forall v :: Models(v, clauses) <==> AdmModel(af, g, 0, v) && Open(InSet(af.n, 0, v), blocked)
  }

  /** The inner loop of CE-PR: climbs a strict chain of admissible sets. */
  method Climb(solver: Solver, af: AAF, g: Labeling, ghost before: set<set<nat>>, ghost found: set<set<nat>>)
    returns (admSet: set<nat>, noFurther: bool, ghost blocked: set<set<nat>>)
    requires af.Valid() && GroundedLabeling(af, g) && solver.pending == [] && solver.assumptions == {}
    requires Seeks(af, g, solver.clauses, before) && BlockedBelow(before, found, {})
    requires {} in before && forall P :: P in found ==> P in before
    modifies solver
    ensures solver.pending == [] && solver.assumptions == {} && Seeks(af, g, solver.clauses, blocked)
    ensures before <= blocked
    ensures noFurther ==> blocked == before && forall v :: AdmModel(af, g, 0, v) ==> !Open(InSet(af.n, 0, v), blocked)
    ensures !noFurther ==> admSet != {} && Preferred(af, admSet) && admSet !in found
    ensures !noFurther ==> BlockedBelow(blocked, found, admSet) && Unblocked(af.n, blocked) < Unblocked(af.n, before)
  {
    admSet, noFurther, blocked := {}, true, before;
    while true
      invariant solver.pending == []
      invariant forall v :: AllTrue(v, solver.assumptions) <==> admSet <= InSet(af.n, 0, v)
      invariant Seeks(af, g, solver.clauses, blocked)
      invariant before <= blocked && Admissible(af, admSet) && BlockedBelow(blocked, found, admSet)
      invariant if noFurther then admSet == {} && blocked == before
        else admSet != {} && !Covered(admSet, found) && Unblocked(af.n, blocked) < Unblocked(af.n, before)
      decreases Unblocked(af.n, blocked)
    {
      var sat := solver.Solve();
      if !sat { break; }
      var ins, clause := ReadModel(solver, af.n);
      Higher(af.n, before, blocked, found, admSet, ins, noFurther);
      noFurther := false;
      solver.AddClause(clause);
      blocked := blocked + {ins};
      admSet := admSet + ins;
      assert admSet == ins;
      AssumeAll(solver, af.n, ins);
    }
    if !noFurther { ClimbEnds(af, g, blocked, found, admSet); }
  }

  /** One step up the chain. */
  lemma Higher(n: nat, before: set<set<nat>>, blocked: set<set<nat>>, found: set<set<nat>>, A: set<nat>, S: set<nat>, first: bool)
    requires BlockedBelow(blocked, found, A) && Open(S, blocked) && A <= S <= UpTo(n)
    requires {} in before
    requires if first then blocked == before && forall P :: P in found ==> P in before
      else !Covered(A, found) && Unblocked(n, blocked) < Unblocked(n, before)
    ensures S != {} && !Covered(S, found) && BlockedBelow(blocked + {S}, found, S)
    ensures Unblocked(n, blocked + {S}) < Unblocked(n, blocked)
    ensures Unblocked(n, blocked + {S}) < Unblocked(n, before)
  {
    BlockingProgress(n, blocked, S, S);
    CoveredDown(A, S, found);
  }

  /** CE-PR: the number of preferred extensions. */
  method SolveCepr(af: AAF, g: Labeling) returns (count: nat)
    requires af.Valid() && GroundedLabeling(af, g)
    ensures count == |PreferredSets(af)|
    ensures exists all: set<set<nat>> :: |all| == count && forall E :: E in all <==> Preferred(af, E)
  {
    var solver := new Solver();
    var _ := AddAdmTestClauses(solver, 0, af, g);
    AddOutside(solver, af.n, {});
    count := 0;
    ghost var blocked, found: set<set<nat>> := {{}}, {};
    while true
      invariant solver.pending == [] && solver.assumptions == {}
      invariant Seeks(af, g, solver.clauses, blocked) && {} in blocked
      invariant BlockedBelow(blocked, found, {})
      invariant count == |found| && forall P :: P in found ==> Preferred(af, P) && P != {} && P in blocked
      decreases Unblocked(af.n, blocked)
    {
      var admSet, noFurther;
      ghost var seen;
      admSet, noFurther, seen := Climb(solver, af, g, blocked, found);
      if noFurther { break; }
      count := count + 1;
      AddOutside(solver, af.n, admSet);
      AlsoBlocked(af.n, seen, found, admSet);
      blocked, found := seen + {admSet}, found + {admSet};
    }
    NoModelLeft(af, g, blocked, found);
    if count == 0 { count := 1; }
  }

  lemma AlsoBlocked(n: nat, seen: set<set<nat>>, found: set<set<nat>>, A: set<nat>)
    requires BlockedBelow(seen, found, A)
    ensures BlockedBelow(seen + {A}, found + {A}, {})
    ensures Unblocked(n, seen + {A}) <= Unblocked(n, seen)
  {
    forall B | B in seen + {A} ensures Covered(B, found + {A}) {
      if Covered(B, found) {
        var P :| P in found && B <= P;
        assert P in found + {A};
      } else {
        assert A in found + {A};
      }
    }
    assert forall T :: Open(T, seen + {A}) ==> Open(T, seen);
  }
}
