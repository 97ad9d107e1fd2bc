/** Range maximisation: semi-stable and stage extensions. */
module SemiStableTasks {
  import opened Framework
  import opened Sat
  import opened Encodings
  import opened Blocking
  import opened PreferredTasks

  // ------------------------------------------------ which arguments a model decides

  predicate IsDecided(j: nat, v: Valuation) { In(0, j) in v || Out(0, j) in v }

  /** The arguments that are IN or OUT. */
  function Decided(n: nat, v: Valuation): set<nat> { set j: nat | j < n && IsDecided(j, v) }

  lemma DecidedSplits(n: nat, v: Valuation)
    ensures Decided(n, v) == InSet(n, 0, v) + OutSet(n, 0, v)
  {
  }

  /** One of the first k arguments outside N is decided. */
  ghost predicate SomeDecided(N: set<nat>, k: nat, v: Valuation) {
    exists j: nat :: j < k && j !in N && IsDecided(j, v)
  }

  lemma NextDecided(N: set<nat>, k: nat)
    ensures forall v :: SomeDecided(N, k + 1, v) <==> SomeDecided(N, k, v) || (k !in N && IsDecided(k, v))
  {
  }

  lemma AllSomeDecided(N: set<nat>, n: nat)
    ensures forall v :: SomeDecided(N, n, v) <==> !(Decided(n, v) <= N)
  {
    forall v ensures SomeDecided(N, n, v) <==> !(Decided(n, v) <= N) {
      if SomeDecided(N, n, v) {
        var j: nat :| j < n && j !in N && IsDecided(j, v);
        assert j in Decided(n, v);
      }
    }
  }

  ghost predicate AllDecided(N: set<nat>, k: nat, v: Valuation) {
    forall j: nat :: j < k && j in N ==> IsDecided(j, v)
  }

  lemma NextAllDecided(N: set<nat>, k: nat)
    ensures forall v :: AllDecided(N, k + 1, v) <==> AllDecided(N, k, v) && (k in N ==> IsDecided(k, v))
  {
  }

  lemma EveryDecided(N: set<nat>, n: nat)
    requires N <= UpTo(n)
    ensures forall v :: AllDecided(N, n, v) <==> N <= Decided(n, v)
  {
  }

  /** The clause that asks for a decided argument outside N. */
  method AddUndecided(solver: Solver, n: nat, N: set<nat>)
    requires solver.pending == []
    modifies solver
    ensures solver.pending == [] && solver.assumptions == old(solver.assumptions)
    ensures forall v :: Models(v, solver.clauses) <==> Models(v, old(solver.clauses)) && !(Decided(n, v) <= N)
  {
    for i := 0 to n
      invariant solver.clauses == old(solver.clauses) && solver.assumptions == old(solver.assumptions)
      invariant forall v :: Holds(v, solver.pending) <==> SomeDecided(N, i, v)
    {
      NextDecided(N, i);
      if i !in N {
        Grow(solver.pending, In(0, i));
        solver.Add(In(0, i));
        Grow(solver.pending, Out(0, i));
        solver.Add(Out(0, i));
      }
    }
    AllSomeDecided(N, n);
    solver.Add(0);
  }

  /** A clause "IN or OUT" for every member of N. */
  method RequireDecided(solver: Solver, n: nat, N: set<nat>)
    requires solver.pending == [] && N <= UpTo(n)
    modifies solver
    ensures solver.pending == [] && solver.assumptions == old(solver.assumptions)
    ensures forall v :: Models(v, solver.clauses) <==> Models(v, old(solver.clauses)) && N <= Decided(n, v)
  {
    for i := 0 to n
      invariant solver.pending == [] && solver.assumptions == old(solver.assumptions)
      invariant forall v :: Models(v, solver.clauses) <==> Models(v, old(solver.clauses)) && AllDecided(N, i, v)
    {
      NextAllDecided(N, i);
      if i in N { solver.AddClause2(In(0, i), Out(0, i)); }
    }
    EveryDecided(N, n);
  }

  /** What the current model has IN, what it decides, and the clause asking for something else decided. */
  method ReadDecided(solver: Solver, n: nat) returns (ins: set<nat>, decided: set<nat>, clause: Clause)
    requires solver.state == SAT
    ensures ins == InSet(n, 0, solver.model) && decided == Decided(n, solver.model)
    ensures 0 !in clause && forall v :: Holds(v, clause) <==> !(Decided(n, v) <= decided)
  {
    ins, decided, clause := {}, {}, [];
    ghost var N := Decided(n, solver.model);
    for i := 0 to n
      invariant forall j: nat :: j in ins <==> j < i && In(0, j) in solver.model
      invariant forall j: nat :: j in decided <==> j < i && IsDecided(j, solver.model)
      invariant 0 !in clause && forall v :: Holds(v, clause) <==> SomeDecided(N, i, v)
    {
      NextDecided(N, i);
      assert i in N <==> IsDecided(i, solver.model);
      if solver.Val(In(0, i)) > 0 || solver.Val(Out(0, i)) > 0 {
        decided := decided + {i};
        if solver.Val(In(0, i)) > 0 { ins := ins + {i}; }
      } else {
        Grow(clause, In(0, i));
        Grow(clause + [In(0, i)], Out(0, i));
        clause := clause + [In(0, i)] + [Out(0, i)];
      }
    }
    AllSomeDecided(N, n);
  }

  // ------------------------------------------------ growing the decided set

  /** Shared by SE-SST and SE-STG: climbs to a model of base whose decided set no model of base exceeds. */
  method GrowRange(solver: Solver, n: nat) returns (ins: set<nat>, notUndec: set<nat>)
    requires solver.pending == [] && solver.assumptions == {}
    modifies solver
    ensures (ins == notUndec == {}) ||
            exists v :: Models(v, old(solver.clauses)) && InSet(n, 0, v) == ins && Decided(n, v) == notUndec
    ensures forall v :: Models(v, old(solver.clauses)) && notUndec <= Decided(n, v) ==> Decided(n, v) == notUndec
  {
    ghost var base := solver.clauses;
    AddUndecided(solver, n, {});
    ins, notUndec := {}, {};
    while true
      invariant solver.pending == [] && solver.assumptions == {} && notUndec <= UpTo(n)
      invariant (ins == notUndec == {}) ||
                exists v :: Models(v, base) && InSet(n, 0, v) == ins && Decided(n, v) == notUndec
      invariant forall v :: Models(v, solver.clauses) <==>
        Models(v, base) && notUndec <= Decided(n, v) && !(Decided(n, v) <= notUndec)
      decreases UpTo(n) - notUndec
    {
      var sat := solver.Solve();
      if !sat { break; }
      ghost var v := solver.model;
      var decided, clause;
      ins, decided, clause := ReadDecided(solver, n);
      solver.AddClause(clause);
      RequireDecided(solver, n, decided - notUndec);
      notUndec := notUndec + decided;
      assert notUndec == decided;
    }
  }

  /** A model that decides the whole range of an admissible set. */
  lemma {:induction false} RangeValuation(af: AAF, g: Labeling, T: set<nat>) returns (v: Valuation)
    requires af.Valid() && GroundedLabeling(af, g) && Admissible(af, T)
    ensures AdmModel(af, g, 0, v) && T <= InSet(af.n, 0, v)
    ensures g.ins <= T ==> InSet(af.n, 0, v) == T
    ensures Range(af, T) <= Decided(af.n, v) && Decided(af.n, v) == Range(af, InSet(af.n, 0, v))
  {
    AddGrounded(af, g.ins, T);
    PlusMono(af, T, T + g.ins);
    v := AdmValuation(af, g, T + g.ins);
    DecidedSplits(af.n, v);
    assert g.ins <= T ==> T + g.ins == T;
  }

  lemma AdmDecidedInRange(af: AAF, g: Labeling, v: Valuation)
    requires AdmModel(af, g, 0, v)
    ensures Decided(af.n, v) <= Range(af, InSet(af.n, 0, v))
  {
    DecidedSplits(af.n, v);
  }

  /** No admissible set exceeds a decided set that no model exceeds. */
  lemma {:induction false} MaximalIsSemiStable(af: AAF, g: Labeling, S: set<nat>, N: set<nat>)
    requires af.Valid() && GroundedLabeling(af, g) && Admissible(af, S) && N <= Range(af, S)
    requires forall v :: AdmModel(af, g, 0, v) && N <= Decided(af.n, v) ==> Decided(af.n, v) == N
    ensures SemiStable(af, S)
  {
    forall T | Admissible(af, T) && Range(af, S) <= Range(af, T) ensures Range(af, T) == Range(af, S) {
      var v := RangeValuation(af, g, T);
      assert N <= Decided(af.n, v);
    }
  }

  /** SE-SST: a semi-stable extension. */
  method SolveSesst(af: AAF, g: Labeling) returns (ext: set<nat>)
    requires af.Valid() && GroundedLabeling(af, g)
    ensures SemiStable(af, ext)
  {
    var solver := new Solver();
    var allGrounded := AddAdmTestClauses(solver, 0, af, g);
    if allGrounded {
      AllGrounded(af, g);
      return g.ins;
    }
    var notUndec;
    ext, notUndec := GrowRange(solver, af.n);
    forall v | AdmModel(af, g, 0, v) && InSet(af.n, 0, v) == ext && Decided(af.n, v) == notUndec
      ensures notUndec <= Range(af, ext)
    {
      AdmDecidedInRange(af, g, v);
    }
    MaximalIsSemiStable(af, g, ext, notUndec);
  }

  lemma {:induction false} CfValuation(af: AAF, T: set<nat>) returns (v: Valuation)
    requires ConflictFree(af, T)
    ensures CfModel(af, 0, v) && InSet(af.n, 0, v) == T && Decided(af.n, v) == Range(af, T)
  {
    v := Encode(0, T, Plus(af, T));
    EncodeDecodes(af.n, 0, T, Plus(af, T), {});
    assert v + {} == v;
    DecidedSplits(af.n, v);
  }

  lemma {:induction false} MaximalIsStage(af: AAF, S: set<nat>, N: set<nat>)
    requires ConflictFree(af, S) && N <= Range(af, S)
    requires forall v :: CfModel(af, 0, v) && N <= Decided(af.n, v) ==> Decided(af.n, v) == N
    ensures Stage(af, S)
  {
    forall T | ConflictFree(af, T) && Range(af, S) <= Range(af, T) ensures Range(af, T) == Range(af, S) {
      var v := CfValuation(af, T);
      assert N <= Decided(af.n, v);
    }
  }

  /** SE-STG: a stage extension. */
  method SolveSestg(af: AAF, g: Labeling) returns (ext: set<nat>)
    requires af.Valid() && GroundedLabeling(af, g)
    ensures Stage(af, ext)
  {
    var solver := new Solver();
    var allGrounded := AddCfTestClauses(solver, 0, af, g);
    if allGrounded {
      AllGrounded(af, g);
      return g.ins;
    }
    var notUndec;
    ext, notUndec := GrowRange(solver, af.n);
    forall v | CfModel(af, 0, v) && InSet(af.n, 0, v) == ext && Decided(af.n, v) == notUndec
      ensures notUndec <= Range(af, ext)
    {
      DecidedSplits(af.n, v);
    }
    MaximalIsStage(af, ext, notUndec);
  }

  // ------------------------------------------------ semi-stable extensions with or without the query

  /** The admissible set S, its decided set D and the recorded set N during the inner loop.
      N may lag behind D by the query, which the loop never records. */
  ghost predicate Climbing(af: AAF, arg: nat, blocked: set<set<nat>>, S: set<nat>, D: set<nat>, N: set<nat>) {
    && Admissible(af, S) && N <= D <= N + {arg} && D <= Range(af, S)
    && D in blocked && forall B :: B in blocked && D <= B ==> B == D
  }

  /** A decided set strictly above D is still open. */
  lemma AboveStillOpen(af: AAF, arg: nat, blocked: set<set<nat>>, S: set<nat>, D: set<nat>, N: set<nat>, X: set<nat>)
    requires Climbing(af, arg, blocked, S, D, N) && D <= X && X != D
    ensures Open(X, blocked)
  {
    forall B | B in blocked ensures !(X <= B) { assert X <= B ==> B == D; }
  }

  /** No model left in the inner solver: the set reached is semi-stable. */
  lemma {:induction false} InnerDone(af: AAF, g: Labeling, arg: nat, blocked: set<set<nat>>, S: set<nat>, D: set<nat>, N: set<nat>)
    requires af.Valid() && GroundedLabeling(af, g) && Climbing(af, arg, blocked, S, D, N)
    requires forall v :: AdmModel(af, g, 0, v) && N <= Decided(af.n, v) ==> !Open(Decided(af.n, v), blocked)
    ensures SemiStable(af, S)
  {
    forall T | Admissible(af, T) && Range(af, S) <= Range(af, T) ensures Range(af, T) == Range(af, S) {
      var v := RangeValuation(af, g, T);
      if Decided(af.n, v) != D { AboveStillOpen(af, arg, blocked, S, D, N, Decided(af.n, v)); }
    }
  }

  /** A model left in the inner solver: no semi-stable extension has its range inside N. */
  lemma {:induction false} InnerExceeded(af: AAF, g: Labeling, arg: nat, blocked: set<set<nat>>, S: set<nat>, D: set<nat>, N: set<nat>, v: Valuation)
    requires Climbing(af, arg, blocked, S, D, N)
    requires AdmModel(af, g, 0, v) && N <= Decided(af.n, v) && Open(Decided(af.n, v), blocked)
    ensures forall E :: SemiStable(af, E) ==> !(Range(af, E) <= N)
  {
    AdmDecidedInRange(af, g, v);
    var T := InSet(af.n, 0, v);
    assert !(Decided(af.n, v) <= D);
    forall E | SemiStable(af, E) ensures !(Range(af, E) <= N) {
      assert Range(af, E) <= N ==> Range(af, E) <= Range(af, T);
    }
  }

  /** One model further up in the inner loop. */
  lemma Step(af: AAF, g: Labeling, arg: nat, blocked: set<set<nat>>, N: set<nat>, v: Valuation)
    requires AdmModel(af, g, 0, v) && N <= Decided(af.n, v) && Open(Decided(af.n, v), blocked)
    ensures var D := Decided(af.n, v);
      Climbing(af, arg, blocked + {D}, InSet(af.n, 0, v), D, N + (D - {arg}))
    ensures Unblocked(af.n, blocked + {Decided(af.n, v)}) < Unblocked(af.n, blocked)
  {
    AdmDecidedInRange(af, g, v);
    BlockingProgress(af.n, blocked, Decided(af.n, v), Decided(af.n, v));
  }

  /** The query is IN exactly if wanted. */
  function Wanted(arg: nat, want: bool): int { if want then In(0, arg) else -In(0, arg) }

  lemma WantedMeans(arg: nat, want: bool, v: Valuation)
    ensures True(v, Wanted(arg, want)) <==> (In(0, arg) in v <==> want)
  {
  }

  /** The inner solver: admissible sets that decide N and whose decided set is open. */
  ghost predicate InnerKnows(af: AAF, g: Labeling, clauses: seq<Clause>, blocked: set<set<nat>>, N: set<nat>) {
    forall v :: Models(v, clauses) <==> AdmModel(af, g, 0, v) && N <= Decided(af.n, v) && Open(Decided(af.n, v), blocked)
  }

  /** A fresh inner solver that keeps what the outer model decides and asks for more. */
  method StartInner(outer: Solver, af: AAF, g: Labeling, arg: nat) returns (inner: Solver, inArg: set<nat>, notUndec: set<nat>)
    requires af.Valid() && GroundedLabeling(af, g) && arg < af.n && outer.state == SAT && AdmModel(af, g, 0, outer.model)
    ensures fresh(inner) && inner.pending == [] && inner.assumptions == {}
    ensures arg in inArg <==> In(0, arg) in outer.model
    ensures notUndec == Decided(af.n, outer.model)
    ensures InnerKnows(af, g, inner.clauses, {notUndec}, notUndec)
    ensures Climbing(af, arg, {notUndec}, inArg, notUndec, notUndec)
  {
    inner := new Solver();
    var _ := AddAdmTestClauses(inner, 0, af, g);
    var clause;
    inArg, notUndec, clause := ReadDecided(outer, af.n);
    RequireDecided(inner, af.n, notUndec);
    inner.AddClause(clause);
    AdmDecidedInRange(af, g, outer.model);
  }

  /** The inner loop of DC-SST and DS-SST: from the model of the outer solver, climbs with the
      query kept as wanted. Either the set reached is semi-stable, or no semi-stable
      extension has its range inside notUndec. */
  method MaximiseRange(outer: Solver, af: AAF, g: Labeling, arg: nat, want: bool)
    returns (found: bool, inArg: set<nat>, notUndec: set<nat>)
    requires af.Valid() && GroundedLabeling(af, g) && arg < af.n && outer.state == SAT
    requires AdmModel(af, g, 0, outer.model) && True(outer.model, Wanted(arg, want))
    ensures Decided(af.n, outer.model) <= notUndec
    ensures found ==> SemiStable(af, inArg) && (arg in inArg <==> want)
    ensures !found ==> forall E :: SemiStable(af, E) ==> !(Range(af, E) <= notUndec)
  {
    var inner;
    inner, inArg, notUndec := StartInner(outer, af, g, arg);
    ghost var D, blocked := notUndec, {notUndec};
    while true
      invariant inner.pending == [] && inner.assumptions == {}
      invariant InnerKnows(af, g, inner.clauses, blocked, notUndec)
      invariant Climbing(af, arg, blocked, inArg, D, notUndec) && (arg in inArg <==> want)
      invariant Decided(af.n, outer.model) <= notUndec
      decreases Unblocked(af.n, blocked)
    {
      inner.Assume(Wanted(arg, want));
      assert Wanted(arg, want) in inner.assumptions;
      var sat := inner.Solve();
      if !sat {
        found := Conclude(inner, af, g, arg, blocked, inArg, D, notUndec);
        return;
      }
      WantedMeans(arg, want, inner.model);
      assert In(0, arg) in inner.model <==> want;
      ghost var decided := Decided(af.n, inner.model);
      inArg, notUndec := ClimbOnce(inner, af, g, arg, blocked, notUndec);
      D, blocked := decided, blocked + {decided};
    }
  }

  /** Nothing further up with the query as wanted: is there anything further up at all? */
  method Conclude(inner: Solver, af: AAF, g: Labeling, arg: nat, ghost blocked: set<set<nat>>, S: set<nat>, ghost D: set<nat>, N: set<nat>)
    returns (found: bool)
    requires af.Valid() && GroundedLabeling(af, g) && inner.pending == [] && inner.assumptions == {}
    requires InnerKnows(af, g, inner.clauses, blocked, N) && Climbing(af, arg, blocked, S, D, N)
    modifies inner
    ensures found ==> SemiStable(af, S)
    ensures !found ==> forall E :: SemiStable(af, E) ==> !(Range(af, E) <= N)
  {
    var sat := inner.Solve();
    if sat {
      InnerExceeded(af, g, arg, blocked, S, D, N, inner.model);
    } else {
      InnerDone(af, g, arg, blocked, S, D, N);
    }
    found := !sat;
  }

  /** Takes over the model just found, recording everything it decides except the query. */
  method ClimbOnce(inner: Solver, af: AAF, g: Labeling, arg: nat, ghost blocked: set<set<nat>>, N: set<nat>)
    returns (inArg: set<nat>, notUndec: set<nat>)
    requires arg < af.n && inner.state == SAT && inner.pending == [] && inner.assumptions == {}
    requires InnerKnows(af, g, inner.clauses, blocked, N) && Models(inner.model, inner.clauses)
    modifies inner
    ensures inner.pending == [] && inner.assumptions == {}
    ensures (arg in inArg <==> In(0, arg) in old(inner.model)) && N <= notUndec
    ensures var D := Decided(af.n, old(inner.model));
      && InnerKnows(af, g, inner.clauses, blocked + {D}, notUndec)
      && Climbing(af, arg, blocked + {D}, inArg, D, notUndec)
      && Unblocked(af.n, blocked + {D}) < Unblocked(af.n, blocked)
  {
    Step(af, g, arg, blocked, N, inner.model);
    var decided, clause;
    inArg, decided, clause := ReadDecided(inner, af.n);
    RequireDecided(inner, af.n, decided - {arg} - N);
    notUndec := N + (decided - {arg});
    inner.AddClause(clause);
  }

  /** The outer solver loses no semi-stable extension. */
  ghost predicate KeepsSemiStable(af: AAF, blocked: set<set<nat>>) {
    forall E :: SemiStable(af, E) ==> Open(Range(af, E), blocked)
  }

  lemma {:induction false} NoSemiStable(af: AAF, g: Labeling, blocked: set<set<nat>>, arg: nat, want: bool)
    requires af.Valid() && GroundedLabeling(af, g) && arg < af.n && KeepsSemiStable(af, blocked)
    requires forall v :: AdmModel(af, g, 0, v) && Open(Decided(af.n, v), blocked) ==> !True(v, Wanted(arg, want))
    ensures forall E :: SemiStable(af, E) ==> (arg in E <==> !want)
  {
    forall E | SemiStable(af, E) ensures arg in E <==> !want {
      var v := SemiStableValuation(af, g, E);
      assert arg in InSet(af.n, 0, v) <==> In(0, arg) in v;
    }
  }

  lemma {:induction false} SemiStableValuation(af: AAF, g: Labeling, E: set<nat>) returns (v: Valuation)
    requires af.Valid() && GroundedLabeling(af, g) && SemiStable(af, E)
    ensures InSet(af.n, 0, v) == E && Decided(af.n, v) == Range(af, E)
    ensures AdmModel(af, g, 0, v)
  {
    SemiStablePreferred(af, E);
    PreferredHasGrounded(af, g.ins, E);
    v := RangeValuation(af, g, E);
  }

  /** Is there a semi-stable extension that contains (or omits) the query? */
  method FindSemiStable(af: AAF, g: Labeling, arg: nat, want: bool) returns (found: bool, inArg: set<nat>)
    requires af.Valid() && GroundedLabeling(af, g) && arg < af.n
    ensures found ==> SemiStable(af, inArg) && (arg in inArg <==> want)
    ensures !found ==> forall E :: SemiStable(af, E) ==> (arg in E <==> !want)
  {
    var solver := new Solver();
    var allGrounded := AddAdmTestClauses(solver, 0, af, g);
    if allGrounded {
      AllGrounded(af, g);
      forall E | SemiStable(af, E) ensures E == g.ins { SemiStablePreferred(af, E); }
      return (arg in g.ins) == want, g.ins;
    }
    ghost var blocked := {};
    while true
      invariant solver.pending == [] && solver.assumptions == {} && KeepsSemiStable(af, blocked)
      invariant forall v :: Models(v, solver.clauses) <==> AdmModel(af, g, 0, v) && Open(Decided(af.n, v), blocked)
      decreases Unblocked(af.n, blocked)
    {
      solver.Assume(Wanted(arg, want));
      var sat := solver.Solve();
      if !sat {
        NoSemiStable(af, g, blocked, arg, want);
        return false, {};
      }
      var notUndec;
      found, inArg, notUndec := MaximiseRange(solver, af, g, arg, want);
      if found { return; }
      BlockingProgress(af.n, blocked, Decided(af.n, solver.model), notUndec);
      AddUndecided(solver, af.n, notUndec);
      blocked := blocked + {notUndec};
    }
  }

  /** DS-SST: is the query in every semi-stable extension? A negative answer shows one that omits it. */
  method SolveDssst(af: AAF, g: Labeling, arg: nat) returns (yes: bool, shown: Option<set<nat>>)
    requires af.Valid() && GroundedLabeling(af, g) && arg < af.n
    ensures yes <==> forall E :: SemiStable(af, E) ==> arg in E
    ensures yes ==> shown == None
    ensures !yes ==> shown.Some? && SemiStable(af, shown.value) && arg !in shown.value
  {
    var found, inArg := FindSemiStable(af, g, arg, false);
    return !found, if found then Some(inArg) else None;
  }

  /** DC-SST: is the query in some semi-stable extension? A positive answer shows one that contains it. */
  method SolveDcsst(af: AAF, g: Labeling, arg: nat) returns (yes: bool, shown: Option<set<nat>>)
    requires af.Valid() && GroundedLabeling(af, g) && arg < af.n
    ensures yes <==> exists E :: SemiStable(af, E) && arg in E
    ensures yes ==> shown.Some? && SemiStable(af, shown.value) && arg in shown.value
    ensures !yes ==> shown == None
  {
    var found, inArg := FindSemiStable(af, g, arg, true);
    return found, if found then Some(inArg) else None;
  }
}
