/** The ideal extension: the preferred super-core, then its largest self-defending part. */
module IdealTasks {
  import opened Framework
  import opened Sat
  import opened Encodings
  import opened Blocking
  import opened PreferredTasks
  import opened RaSets

  // ------------------------------------------------ theory

  ghost predicate Attackable(af: AAF, j: nat) {
    exists T :: Admissible(af, T) && Hits(af, T, j)
  }

  /** The preferred super-core: what no admissible set attacks. */
  ghost predicate SuperCore(af: AAF, C: set<nat>) {
    forall j: nat :: j in C <==> j < af.n && !Attackable(af, j)
  }

  ghost predicate SelfDefending(af: AAF, X: set<nat>) {
    forall a :: a in X ==> Defends(af, X, a)
  }

  /** X is the largest self-defending subset of Y. */
  ghost predicate LargestDefending(af: AAF, Y: set<nat>, X: set<nat>) {
    && X <= Y && SelfDefending(af, X)
    && forall Z :: Z <= Y && SelfDefending(af, Z) ==> Z <= X
  }

  /** The members of C that no member of C attacks. */
  ghost predicate UnattackedPart(af: AAF, C: set<nat>, Y: set<nat>) {
    forall a :: a in Y <==> a in C && !Hits(af, C, a)
  }

  /** Whatever lies in all preferred extensions is in the super-core. */
  lemma {:induction false} BelowIsCore(af: AAF, C: set<nat>, S: set<nat>)
    requires SuperCore(af, C) && BelowPreferred(af, S) && S <= Args(af)
    ensures S <= C
  {
    forall j | j in S ensures j in C {
      assert j < af.n;
      if Attackable(af, j) {
        var T :| Admissible(af, T) && Hits(af, T, j);
        var P := PreferredAbove(af, T);
        HitsMono(af, T, P, j);
      }
    }
  }

  /** An admissible set inside the super-core lies in every preferred extension. */
  lemma {:induction false} CoreIsBelow(af: AAF, C: set<nat>, S: set<nat>)
    requires SuperCore(af, C) && Admissible(af, S) && S <= C
    ensures BelowPreferred(af, S)
  {
    forall P | Preferred(af, P) ensures S <= P {
      forall j | j in S ensures !Hits(af, P, j) { assert !Attackable(af, j); }
      if !(S <= P) { PreferredConflict(af, P, S); }
    }
  }

  /** An admissible set in all preferred extensions is unattacked inside the super-core. */
  lemma {:induction false} BelowUnattacked(af: AAF, C: set<nat>, T: set<nat>)
    requires SuperCore(af, C) && Admissible(af, T) && BelowPreferred(af, T)
    ensures SelfDefending(af, T)
    ensures forall a :: a in T ==> a in C && !Hits(af, C, a)
  {
    BelowIsCore(af, C, T);
    forall a | a in T ensures !Hits(af, C, a) {
      forall p: nat | Attacks(af, p, a) ensures p !in C {
        assert Defends(af, T, a);
        assert Attackable(af, p);
      }
    }
  }

  /** The construction yields the ideal extension. */
  lemma {:induction false} IdealOfCore(af: AAF, C: set<nat>, Y: set<nat>, X: set<nat>)
    requires af.Valid() && SuperCore(af, C) && UnattackedPart(af, C, Y) && LargestDefending(af, Y, X)
    ensures Ideal(af, X)
  {
    assert Admissible(af, X) by {
      forall j | j in X ensures j < af.n && !Hits(af, X, j) && Defends(af, X, j) {
        assert j in C;
        if Hits(af, X, j) { HitsMono(af, X, C, j); }
      }
    }
    CoreIsBelow(af, C, X);
    forall T | Admissible(af, T) && BelowPreferred(af, T) ensures T <= X { BelowUnattacked(af, C, T); }
  }

  /** What an admissible set attacks is not in the ideal extension, nor in the grounded one. */
  lemma {:induction false} AttackableOut(af: AAF, g: Labeling, a: nat)
    requires af.Valid() && GroundedLabeling(af, g) && Attackable(af, a)
    ensures forall I :: Ideal(af, I) ==> a !in I
    ensures a !in g.ins
  {
    var T :| Admissible(af, T) && Hits(af, T, a);
    GroundedNotHit(af, g.ins, T);
    var P := PreferredAbove(af, T);
    HitsMono(af, T, P, a);
  }

  /** If no admissible set attacks anything the grounded extension does not attack,
      the grounded extension is the only preferred extension, and ideal. */
  lemma {:induction false} OnlyGrounded(af: AAF, g: Labeling)
    requires af.Valid() && GroundedLabeling(af, g)
    requires forall j :: Attackable(af, j) ==> j in g.outs
    ensures Ideal(af, g.ins)
    ensures forall P :: Preferred(af, P) <==> P == g.ins
  {
    GroundedComplete(af, g.ins);
    forall E | Admissible(af, E) ensures E <= g.ins {
      forall a | a in E ensures a in g.ins {
        forall i: nat | Attacks(af, i, a) ensures Hits(af, g.ins, i) {
          assert Defends(af, E, a);
          assert Attackable(af, i);
        }
        assert Defends(af, g.ins, a);
      }
    }
    forall P | Preferred(af, P) ensures P == g.ins { PreferredHasGrounded(af, g.ins, P); }
  }

  /** The grounded extension lies in the super-core, unattacked, and defends itself. */
  lemma {:induction false} GroundedInCore(af: AAF, g: Labeling, C: set<nat>)
    requires af.Valid() && GroundedLabeling(af, g) && SuperCore(af, C)
    ensures SelfDefending(af, g.ins)
    ensures forall a :: a in g.ins ==> a in C && !Hits(af, C, a)
    ensures forall a :: a in g.outs ==> a !in C
  {
    GroundedComplete(af, g.ins);
    forall j | j in g.outs ensures j !in C { assert Attackable(af, j); }
    forall a | a in g.ins ensures a in C && !Hits(af, C, a) {
      forall T | Admissible(af, T) ensures !Hits(af, T, a) { GroundedNotHit(af, g.ins, T); }
      forall p: nat | Attacks(af, p, a) ensures p !in C {
        assert Defends(af, g.ins, a);
        assert p in g.outs;
      }
    }
  }

  // ------------------------------------------------ the preferred super-core

  /** Some attacker of one of the first k arguments of C is IN. */
  ghost predicate HitsOneOf(af: AAF, C: set<nat>, k: nat, v: Valuation)
    requires k <= |af.parents|
  {
    exists j: nat :: j < k && j in C && SomeIn(0, af.parents[j], v)
  }

  lemma NextHit(af: AAF, C: set<nat>, k: nat)
    requires k < |af.parents|
    ensures forall v :: HitsOneOf(af, C, k + 1, v) <==> HitsOneOf(af, C, k, v) || (k in C && SomeIn(0, af.parents[k], v))
  {
  }

  lemma HitsCore(af: AAF, C: set<nat>)
    requires af.Valid() && C <= Args(af)
    ensures forall v :: HitsOneOf(af, C, af.n, v) <==> exists j :: j in C && Hits(af, InSet(af.n, 0, v), j)
  {
    forall v ensures HitsOneOf(af, C, af.n, v) <==> exists j :: j in C && Hits(af, InSet(af.n, 0, v), j) {
      forall j | j in C ensures j < af.n && (SomeIn(0, af.parents[j], v) <==> Hits(af, InSet(af.n, 0, v), j)) {
        FromParents(0, af, j, v);
      }
    }
  }

  /** Starts the clause "some attacker of psc is IN"; the clause stays empty if psc has no attackers. */
  method AddAttackersOf(solver: Solver, af: AAF, psc: set<nat>) returns (emptyClause: bool)
    requires af.Valid() && psc <= Args(af) && solver.pending == []
    modifies solver
    ensures solver.clauses == old(solver.clauses) && solver.assumptions == old(solver.assumptions)
    ensures emptyClause <==> solver.pending == []
    ensures forall v :: Holds(v, solver.pending) <==> exists j :: j in psc && Hits(af, InSet(af.n, 0, v), j)
  {
    emptyClause := true;
    for i := 0 to af.n
      invariant solver.clauses == old(solver.clauses) && solver.assumptions == old(solver.assumptions)
      invariant emptyClause <==> solver.pending == []
      invariant forall v :: Holds(v, solver.pending) <==> HitsOneOf(af, psc, i, v)
    {
      NextHit(af, psc, i);
      if i in psc {
        var ps := af.parents[i];
        ghost var before := solver.pending;
        for k := 0 to |ps|
          invariant solver.clauses == old(solver.clauses) && solver.assumptions == old(solver.assumptions)
          invariant emptyClause <==> solver.pending == []
          invariant forall v :: Holds(v, solver.pending) <==> Holds(v, before) || SomeIn(0, ps[..k], v)
        {
          emptyClause := false;
          Next(0, i, ps, k);
          Grow(solver.pending, In(0, ps[k]));
          solver.Add(In(0, ps[k]));
        }
        assert ps[..|ps|] == ps;
      }
    }
    HitsCore(af, psc);
  }

  /** Removes everything S attacks from psc, stopping early if the query goes. */
  method RemoveAttacked(af: AAF, S: set<nat>, psc: set<nat>, query: Option<nat>) returns (left: set<nat>, hit: bool)
    requires af.Valid() && S <= Args(af) && psc <= Args(af)
    ensures hit <==> query.Some? && query.value in psc && Hits(af, S, query.value)
    ensures !hit ==> left == psc - Plus(af, S)
  {
    left := psc;
    ghost var done := {};
    for i := 0 to af.n
      invariant done <= S && forall a: nat :: a < i && a in S ==> a in done
      invariant left == psc - Plus(af, done)
      invariant !(query.Some? && query.value in psc && Hits(af, done, query.value))
    {
      if i in S {
        var cs := af.children[i];
        for k := 0 to |cs|
          invariant forall j :: j in left <==> j in psc && !Hits(af, done, j) && j !in cs[..k]
          invariant query.Some? && query.value in psc ==> query.value !in cs[..k]
        {
          if cs[k] in left {
            if query == Some(cs[k]) {
              AttacksChildren(af, i, cs[k]);
              assert Attacks(af, i, cs[k]);
              return left, true;
            }
            left := left - {cs[k]};
          }
        }
        assert cs[..|cs|] == cs;
        forall j: nat | j < af.n ensures Hits(af, done + {i}, j) <==> Hits(af, done, j) || j in cs {
          AttacksChildren(af, i, j);
          HitsUnion(af, done, {i}, j);
        }
        done := done + {i};
      }
    }
    assert done == S;
    hit := false;
  }

  ghost predicate HitsSome(af: AAF, S: set<nat>, C: set<nat>) {
    exists j :: j in C && Hits(af, S, j)
  }

  /** Everything outside psc is attackable, and nothing in it is grounded OUT. */
  ghost predicate Shrinking(af: AAF, g: Labeling, psc: set<nat>) {
    psc <= Args(af) - g.outs && forall j: nat :: j < af.n && j !in psc ==> Attackable(af, j)
  }

  lemma {:induction false} CoreReached(af: AAF, g: Labeling, psc: set<nat>)
    requires af.Valid() && GroundedLabeling(af, g) && Shrinking(af, g, psc)
    requires forall v :: AdmModel(af, g, 0, v) ==> !HitsSome(af, InSet(af.n, 0, v), psc)
    ensures SuperCore(af, psc)
  {
    forall j | j in psc ensures !Attackable(af, j) {
      forall T | Admissible(af, T) ensures !Hits(af, T, j) {
        AddGrounded(af, g.ins, T);
        var v := AdmValuation(af, g, T + g.ins);
        HitsUnion(af, T, g.ins, j);
      }
    }
  }

  /** The clauses still allow every admissible set that attacks the rest of psc. */
  ghost predicate KnowsCore(af: AAF, g: Labeling, psc: set<nat>, clauses: seq<Clause>) {
    && (forall v :: Models(v, clauses) ==> AdmModel(af, g, 0, v))
    && (forall v :: AdmModel(af, g, 0, v) && HitsSome(af, InSet(af.n, 0, v), psc) ==> Models(v, clauses))
  }

  lemma StillKnowsCore(af: AAF, g: Labeling, core: set<nat>, psc: set<nat>, before: seq<Clause>, after: seq<Clause>)
    requires KnowsCore(af, g, core, before) && psc <= core
    requires forall v :: Models(v, after) <==> Models(v, before) && HitsSome(af, InSet(af.n, 0, v), core)
    ensures KnowsCore(af, g, psc, after)
  {
  }

  /** The loop shared by SE-ID, DS-ID and EA-PR; a query stops it as soon as it is attacked. */
  method ComputeCore(af: AAF, g: Labeling, query: Option<nat>) returns (psc: set<nat>, oneRunOnly: bool, hit: bool)
    requires af.Valid() && GroundedLabeling(af, g)
    ensures hit ==> query.Some? && Attackable(af, query.value) && query.value !in g.outs
    ensures !hit ==> SuperCore(af, psc)
    ensures !hit && query.Some? && query.value < af.n && query.value !in g.outs ==> query.value in psc
    ensures oneRunOnly && !hit ==> forall j :: Attackable(af, j) ==> j in g.outs
    ensures !oneRunOnly || hit ==> exists j :: Attackable(af, j) && j !in g.outs
  {
    var solver := new Solver();
    var _ := AddAdmTestClauses(solver, 0, af, g);
    psc, oneRunOnly, hit := Args(af) - g.outs, true, false;
    InitialCore(af, g);
    while true
      invariant solver.pending == [] && solver.assumptions == {} && Shrinking(af, g, psc)
      invariant query.Some? && query.value < af.n && query.value !in g.outs ==> query.value in psc
      invariant if oneRunOnly then psc == Args(af) - g.outs else exists j :: Attackable(af, j) && j !in g.outs
      invariant KnowsCore(af, g, psc, solver.clauses)
      decreases psc
    {
      ghost var before, core := solver.clauses, psc;
      var emptyClause := AddAttackersOf(solver, af, psc);
      if emptyClause {
        assert forall v :: !Holds(v, solver.pending);
        assert forall v :: !HitsSome(af, InSet(af.n, 0, v), psc);
        break;
      }
      solver.Add(0);
      var sat := solver.Solve();
      if !sat { break; }
      var S, _ := ReadModel(solver, af.n);
      assert forall v :: Models(v, solver.clauses) <==> Models(v, before) && HitsSome(af, InSet(af.n, 0, v), core);
      ghost var j :| j in psc && Hits(af, S, j);
      assert Attackable(af, j);
      psc, hit := RemoveAttacked(af, S, psc, query);
      if hit { return; }
      StillKnowsCore(af, g, core, psc, before, solver.clauses);
      oneRunOnly := false;
    }
    CoreReached(af, g, psc);
  }

  lemma {:induction false} InitialCore(af: AAF, g: Labeling)
    requires af.Valid() && GroundedLabeling(af, g)
    ensures Shrinking(af, g, Args(af) - g.outs)
  {
    GroundedComplete(af, g.ins);
    forall j: nat | j < af.n && j !in Args(af) - g.outs ensures Attackable(af, j) { assert Hits(af, g.ins, j); }
  }

  // ------------------------------------------------ its self-defending part

  method HasAttackerIn(af: AAF, i: nat, S: set<nat>) returns (found: bool)
    requires af.Valid() && i < af.n
    ensures found <==> Hits(af, S, i)
  {
    var ps := af.parents[i];
    for k := 0 to |ps|
      invariant forall p :: p in ps[..k] ==> p !in S
    {
      if ps[k] in S {
        assert Attacks(af, ps[k], i);
        return true;
      }
    }
    assert ps[..|ps|] == ps;
    return false;
  }

  ghost predicate Collected(af: AAF, C: set<nat>, i: nat, Y: set<nat>) {
    forall a: nat :: a in Y <==> a < i && a in C && !Hits(af, C, a)
  }

  lemma NextCollected(af: AAF, C: set<nat>, i: nat, Y: set<nat>)
    requires Collected(af, C, i, Y)
    ensures Collected(af, C, i + 1, if i in C && !Hits(af, C, i) then Y + {i} else Y)
  {
  }

  /** The members of psc without an attacker in psc, unless the query is one that has. */
  method Unattacked(af: AAF, psc: set<nat>, query: Option<nat>) returns (ideal: RaSet, hit: bool)
    requires af.Valid() && psc <= Args(af)
    ensures fresh(ideal) && fresh(ideal.Repr) && ideal.Valid() && ideal.max == af.n
    ensures hit ==> query.Some? && query.value in psc && Hits(af, psc, query.value)
    ensures !hit ==> UnattackedPart(af, psc, ideal.Contents)
    ensures !hit && query.Some? && query.value in psc ==> !Hits(af, psc, query.value)
  {
    ideal := new RaSet(af.n);
    for i := 0 to af.n
      invariant ideal.Valid() && ideal.max == af.n && fresh(ideal.Repr)
      invariant Collected(af, psc, i, ideal.Contents)
      invariant query.Some? && query.value in psc && query.value < i ==> !Hits(af, psc, query.value)
    {
      if i in psc {
        var isAttacked := HasAttackerIn(af, i, psc);
        if isAttacked && query == Some(i) { return ideal, true; }
        NextCollected(af, psc, i, ideal.Contents);
        if !isAttacked { var _ := ideal.Add(i); }
      } else {
        NextCollected(af, psc, i, ideal.Contents);
      }
    }
    hit := false;
  }

  method IsDefended(af: AAF, S: RaSet, arg: nat) returns (keep: bool)
    requires af.Valid() && S.Valid() && S.max == af.n && arg < af.n
    ensures keep <==> Defends(af, S.Contents, arg)
  {
    var ps := af.parents[arg];
    for k := 0 to |ps|
      invariant forall p: nat :: p in ps[..k] ==> Hits(af, S.Contents, p)
    {
      assert ps[k] in ps;
      var ds, found := af.parents[ps[k]], false;
      for m := 0 to |ds|
        invariant !found && forall d: nat :: d in ds[..m] ==> d !in S.Contents
      {
        assert ds[m] in ds;
        if S.Contains(ds[m]) {
          found := true;
          assert Attacks(af, ds[m], ps[k]);
          break;
        }
      }
      assert ds[..|ds|] == ds;
      if !found {
        assert Attacks(af, ps[k], arg);
        return false;
      }
    }
    assert ps[..|ps|] == ps;
    return true;
  }

  /** Every self-defending subset of Y is still there. */
  ghost predicate KeepsDefending(af: AAF, Y: set<nat>, X: set<nat>) {
    X <= Y && forall Z :: Z <= Y && SelfDefending(af, Z) ==> Z <= X
  }

  lemma DropUndefended(af: AAF, Y: set<nat>, X: set<nat>, a: nat)
    requires KeepsDefending(af, Y, X) && !Defends(af, X, a)
    ensures KeepsDefending(af, Y, X - {a})
    ensures forall Z :: Z <= Y && SelfDefending(af, Z) ==> a !in Z
  {
    forall Z | Z <= Y && SelfDefending(af, Z) ensures a !in Z {
      assert Z <= X;
      if Defends(af, Z, a) { DefendsMono(af, Z, X, a); }
    }
  }

  /** Nothing was removed, or something was. */
  ghost predicate Swept(X: set<nat>, now: set<nat>, changed: bool) {
    if changed then now < X else now == X
  }

  ghost predicate AllDefended(af: AAF, X: set<nat>, s: seq<nat>) {
    forall a :: a in s ==> Defends(af, X, a)
  }

  lemma NextDefended(af: AAF, X: set<nat>, s: seq<nat>, i: nat)
    requires i < |s| && AllDefended(af, X, s[..i]) && Defends(af, X, s[i])
    ensures AllDefended(af, X, s[..i + 1])
  {
    Prefix(s, i);
  }

  /** One sweep over the set in place, removing what it does not defend. */
  method Sweep(af: AAF, ideal: RaSet, query: Option<nat>, ghost Y: set<nat>) returns (changed: bool, hit: bool)
    requires af.Valid() && ideal.Valid() && ideal.max == af.n && KeepsDefending(af, Y, ideal.Contents)
    requires query.Some? && query.value in Y ==> query.value in ideal.Contents
    modifies ideal.Repr
    ensures ideal.Valid() && KeepsDefending(af, Y, ideal.Contents)
    ensures Swept(old(ideal.Contents), ideal.Contents, changed)
    ensures !changed && !hit ==> SelfDefending(af, ideal.Contents)
    ensures hit ==> query.Some? && query.value in Y && forall Z :: Z <= Y && SelfDefending(af, Z) ==> query.value !in Z
    ensures !hit && query.Some? && query.value in Y ==> query.value in ideal.Contents
  {
    changed := false;
    var i := 0;
    while i < ideal.count
      invariant ideal.Valid() && KeepsDefending(af, Y, ideal.Contents) && 0 <= i <= ideal.count
      invariant query.Some? && query.value in Y ==> query.value in ideal.Contents
      invariant Swept(old(ideal.Contents), ideal.Contents, changed)
      invariant !changed ==> AllDefended(af, ideal.Contents, ideal.arr[..ideal.count][..i])
      decreases ideal.count - i
    {
      var arg := ideal.At(i);
      var keep := IsDefended(af, ideal, arg);
      if !keep {
        DropUndefended(af, Y, ideal.Contents, arg);
        if query == Some(arg) { return changed, true; }
        changed := true;
        var _ := ideal.Remove(arg);
        i := i - 1;
      } else if !changed {
        NextDefended(af, ideal.Contents, ideal.arr[..ideal.count], i);
      }
      i := i + 1;
    }
    ideal.Listing();
    hit := false;
  }

  /** Sweeps until nothing changes. */
  method KeepDefended(af: AAF, ideal: RaSet, query: Option<nat>) returns (hit: bool)
    requires af.Valid() && ideal.Valid() && ideal.max == af.n
    modifies ideal.Repr
    ensures ideal.Valid()
    ensures !hit ==> LargestDefending(af, old(ideal.Contents), ideal.Contents)
    ensures hit ==> query.Some? && query.value in old(ideal.Contents)
    ensures hit ==> forall Z :: Z <= old(ideal.Contents) && SelfDefending(af, Z) ==> query.value !in Z
    ensures !hit && query.Some? && query.value in old(ideal.Contents) ==> query.value in ideal.Contents
  {
    ghost var Y := ideal.Contents;
    var changed := true;
    while changed
      invariant ideal.Valid() && KeepsDefending(af, Y, ideal.Contents)
      invariant !changed ==> SelfDefending(af, ideal.Contents)
      invariant query.Some? && query.value in Y ==> query.value in ideal.Contents
      decreases ideal.Contents, changed
    {
      changed, hit := Sweep(af, ideal, query, Y);
      if hit { return; }
    }
    hit := false;
  }

  // ------------------------------------------------ the tasks

  lemma EmptyCoreIdeal(af: AAF, C: set<nat>)
    requires af.Valid() && SuperCore(af, C) && C == {}
    ensures Ideal(af, {})
  {
    assert UnattackedPart(af, C, {}) && LargestDefending(af, {}, {});
    IdealOfCore(af, C, {}, {});
  }

  /** The second half of the ideal computation, shared with EA-PR. */
  method IdealFromCore(af: AAF, psc: set<nat>) returns (ext: set<nat>)
    requires af.Valid() && SuperCore(af, psc)
    ensures Ideal(af, ext)
  {
    var ideal, _ := Unattacked(af, psc, None);
    ghost var Y := ideal.Contents;
    var _ := KeepDefended(af, ideal, None);
    IdealOfCore(af, psc, Y, ideal.Contents);
    ext := ideal.Listed();
  }

  /** SE-ID: the ideal extension. */
  method ComputeIdeal(af: AAF, g: Labeling) returns (ext: set<nat>)
    requires af.Valid() && GroundedLabeling(af, g)
    ensures Ideal(af, ext)
  {
    var psc, oneRunOnly, _ := ComputeCore(af, g, None);
    if oneRunOnly {
      OnlyGrounded(af, g);
      GroundedComplete(af, g.ins);
      assert g.ins - g.outs == g.ins;
      return g.ins - g.outs;
    }
    if psc == {} {
      EmptyCoreIdeal(af, psc);
      return psc;
    }
    ext := IdealFromCore(af, psc);
  }

  /** What is not in a self-defending, unattacked part of the super-core is not ideal. */
  lemma {:induction false} NotIdeal(af: AAF, g: Labeling, C: set<nat>, a: nat)
    requires af.Valid() && GroundedLabeling(af, g) && SuperCore(af, C) && a in C
    requires forall Z :: SelfDefending(af, Z) && (forall x :: x in Z ==> x in C && !Hits(af, C, x)) ==> a !in Z
    ensures forall I :: Ideal(af, I) ==> a !in I
    ensures a !in g.ins && a !in g.outs
  {
    GroundedInCore(af, g, C);
    forall I | Ideal(af, I) ensures a !in I { BelowUnattacked(af, C, I); }
  }

  /** DS-ID. For an argument the grounded labelling leaves undecided the answer is
      membership in the ideal extension; for a decided one it is whether some
      admissible set attacks beyond the grounded OUT set. */
  method SolveDsid(af: AAF, g: Labeling, arg: nat) returns (yes: bool)
    requires af.Valid() && GroundedLabeling(af, g) && arg < af.n
    ensures arg !in g.ins && arg !in g.outs ==> forall I :: Ideal(af, I) ==> (yes <==> arg in I)
    ensures arg in g.ins || arg in g.outs ==> (yes <==> exists j :: Attackable(af, j) && j !in g.outs)
  {
    var psc, oneRunOnly, hit := ComputeCore(af, g, Some(arg));
    if hit {
      AttackableOut(af, g, arg);
      return false;
    }
    if oneRunOnly {
      OnlyGrounded(af, g);
      return false;
    }
    GroundedInCore(af, g, psc);
    if psc == {} {
      return false;
    }
    var ideal;
    ideal, hit := Unattacked(af, psc, Some(arg));
    if hit {
      NotIdeal(af, g, psc, arg);
      return false;
    }
    ghost var Y := ideal.Contents;
    hit := KeepDefended(af, ideal, Some(arg));
    if hit {
      NotIdeal(af, g, psc, arg);
      return false;
    }
    IdealOfCore(af, psc, Y, ideal.Contents);
    return true;
  }
}
