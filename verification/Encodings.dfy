/** The five clause encodings, each specified by exactly the sets its models describe. */
module Encodings {
  import opened Framework
  import opened Sat

  /** Argument i is IN, in the block of variables that starts after b. */
  function In(b: nat, i: nat): int { b + 2 * i + 1 }

  /** Argument i is OUT. */
  function Out(b: nat, i: nat): int { b + 2 * i + 2 }

  /** The stable encoding uses one variable per argument. */
  function StIn(i: nat): int { i + 1 }

  function InSet(n: nat, b: nat, v: Valuation): set<nat> { set i: nat | i < n && In(b, i) in v }

  function OutSet(n: nat, b: nat, v: Valuation): set<nat> { set i: nat | i < n && Out(b, i) in v }

  /** The valuation that writes S and O into the block after b. */
  function Encode(b: nat, S: set<nat>, O: set<nat>): Valuation {
    (set i | i in S :: In(b, i)) + (set i | i in O :: Out(b, i))
  }

  lemma EncodeDecodes(n: nat, b: nat, S: set<nat>, O: set<nat>, rest: Valuation)
    requires S <= UpTo(n) && O <= UpTo(n)
    requires forall x :: x in rest ==> x <= b || x > b + 2 * n
    ensures InSet(n, b, Encode(b, S, O) + rest) == S
    ensures OutSet(n, b, Encode(b, S, O) + rest) == O
  {
    var v := Encode(b, S, O) + rest;
    forall i: nat | i < n ensures (In(b, i) in v <==> i in S) && (Out(b, i) in v <==> i in O) {
      assert In(b, i) !in rest && Out(b, i) !in rest;
    }
  }

  lemma EncodeRange(n: nat, b: nat, S: set<nat>, O: set<nat>)
    requires S <= UpTo(n) && O <= UpTo(n)
    ensures forall x :: x in Encode(b, S, O) ==> b < x <= b + 2 * n
  {
  }

  // ------------------------------------------------ what the models mean

  /** S is admissible and contains the grounded extension; O is any set between
      what attacks S (or is grounded OUT) and what S attacks. */
  ghost predicate AdmLabelling(af: AAF, g: Labeling, S: set<nat>, O: set<nat>) {
    Admissible(af, S) && g.ins <= S && g.outs <= O && Minus(af, S) <= O && O <= Plus(af, S)
  }

  ghost predicate AdmModel(af: AAF, g: Labeling, b: nat, v: Valuation) {
    AdmLabelling(af, g, InSet(af.n, b, v), OutSet(af.n, b, v))
  }

  ghost predicate CfModel(af: AAF, b: nat, v: Valuation) {
    var S := InSet(af.n, b, v);
    ConflictFree(af, S) && OutSet(af.n, b, v) == Plus(af, S)
  }

  ghost predicate ComModel(af: AAF, b: nat, v: Valuation) {
    var S := InSet(af.n, b, v);
    Complete(af, S) && OutSet(af.n, b, v) == Plus(af, S)
  }

  /** Every admissible superset of the grounded extension is a model, with everything it attacks OUT. */
  lemma AdmWitness(af: AAF, g: Labeling, S: set<nat>)
    requires af.Valid() && GroundedLabeling(af, g) && Admissible(af, S) && g.ins <= S
    ensures AdmLabelling(af, g, S, Plus(af, S))
  {
    PlusMono(af, g.ins, S);
    forall i | i in Minus(af, S) ensures i in Plus(af, S) {
      var j :| j in S && Attacks(af, i, j);
      assert Defends(af, S, j);
    }
  }

  // ------------------------------------------------ admissible sets

  /** What the clauses written for argument i say. */
  ghost predicate AdmAt(af: AAF, g: Labeling, S: set<nat>, O: set<nat>, i: nat) {
    && !(i in S && i in O)
    && (if i in g.ins then i in S
        else if i in g.outs then i in O
        else (i in S ==> forall p: nat :: Attacks(af, p, i) ==> p in O) && (i in O ==> Hits(af, S, i)))
  }

  lemma AdmExact(af: AAF, g: Labeling, S: set<nat>, O: set<nat>)
    requires af.Valid() && GroundedLabeling(af, g) && S <= Args(af) && O <= Args(af)
    ensures (forall i: nat :: i < af.n ==> AdmAt(af, g, S, O, i)) <==> AdmLabelling(af, g, S, O)
  {
    GroundedComplete(af, g.ins);
    if forall i: nat :: i < af.n ==> AdmAt(af, g, S, O, i) {
      AdmSound(af, g, S, O);
    }
    if AdmLabelling(af, g, S, O) {
      forall i: nat | i < af.n ensures AdmAt(af, g, S, O, i) {
        assert i in S ==> !Hits(af, S, i);
        forall p: nat | i in S && Attacks(af, p, i) ensures p in O { assert p in Minus(af, S); }
      }
    }
  }

  lemma AdmSound(af: AAF, g: Labeling, S: set<nat>, O: set<nat>)
    requires af.Valid() && GroundedLabeling(af, g) && S <= Args(af) && O <= Args(af)
    requires forall i: nat :: i < af.n ==> AdmAt(af, g, S, O, i)
    ensures AdmLabelling(af, g, S, O)
  {
    GroundedComplete(af, g.ins);
    assert g.ins <= S by { forall i | i in g.ins ensures i in S { assert AdmAt(af, g, S, O, i); } }
    PlusMono(af, g.ins, S);
    forall i | i in g.outs ensures i in O {
      assert AdmAt(af, g, S, O, i);
      assert i !in g.ins;
    }
    assert Minus(af, S) <= O by {
      forall i | i in Minus(af, S) ensures i in O {
        var j :| j in S && Attacks(af, i, j);
        assert AdmAt(af, g, S, O, j);
        assert j in g.ins ==> Defends(af, g.ins, j);
      }
    }
    assert O <= Plus(af, S) by {
      forall i | i in O ensures i in Plus(af, S) { assert AdmAt(af, g, S, O, i); }
    }
    assert forall i :: i in S ==> i !in O by {
      forall i | i in S ensures i !in O { assert AdmAt(af, g, S, O, i); }
    }
    forall i: nat, j | j in S && Attacks(af, i, j) ensures i !in S && Hits(af, S, i) {
      assert i in Minus(af, S);
    }
  }

  // ------------------------------------------------ what the loops over attackers build

  /** If i is IN, the listed attackers are OUT. */
  ghost predicate AttackersOut(b: nat, i: nat, ps: seq<nat>, v: Valuation) {
    In(b, i) in v ==> forall p :: p in ps ==> Out(b, p) in v
  }

  /** If a listed attacker is IN, i is OUT. */
  ghost predicate AttackedOut(b: nat, i: nat, ps: seq<nat>, v: Valuation) {
    Out(b, i) !in v ==> forall p :: p in ps ==> In(b, p) !in v
  }

  ghost predicate SomeIn(b: nat, ps: seq<nat>, v: Valuation) { exists p :: p in ps && In(b, p) in v }

  ghost predicate SomeNotOut(b: nat, ps: seq<nat>, v: Valuation) { exists p :: p in ps && Out(b, p) !in v }

  /** Looking at one more attacker. */
  lemma Next(b: nat, i: nat, ps: seq<nat>, k: nat)
    requires k < |ps|
    ensures forall v :: AttackersOut(b, i, ps[..k + 1], v) <==> AttackersOut(b, i, ps[..k], v) && (In(b, i) !in v || Out(b, ps[k]) in v)
    ensures forall v :: AttackedOut(b, i, ps[..k + 1], v) <==> AttackedOut(b, i, ps[..k], v) && (In(b, ps[k]) !in v || Out(b, i) in v)
    ensures forall v :: SomeIn(b, ps[..k + 1], v) <==> SomeIn(b, ps[..k], v) || In(b, ps[k]) in v
    ensures forall v :: SomeNotOut(b, ps[..k + 1], v) <==> SomeNotOut(b, ps[..k], v) || Out(b, ps[k]) !in v
  {
    assert forall p :: p in ps[..k + 1] <==> p in ps[..k] || p == ps[k];
    assert ps[k] in ps[..k + 1];
  }

  lemma FromParents(b: nat, af: AAF, i: nat, v: Valuation)
    requires af.Valid() && i < af.n
    ensures In(b, i) in v <==> i in InSet(af.n, b, v)
    ensures Out(b, i) in v <==> i in OutSet(af.n, b, v)
    ensures AttackersOut(b, i, af.parents[i], v) <==>
      (i in InSet(af.n, b, v) ==> forall p: nat :: Attacks(af, p, i) ==> p in OutSet(af.n, b, v))
    ensures AttackedOut(b, i, af.parents[i], v) <==> (Hits(af, InSet(af.n, b, v), i) ==> i in OutSet(af.n, b, v))
    ensures SomeIn(b, af.parents[i], v) <==> Hits(af, InSet(af.n, b, v), i)
    ensures !SomeNotOut(b, af.parents[i], v) <==> forall p: nat :: Attacks(af, p, i) ==> p in OutSet(af.n, b, v)
  {
    forall p: nat ensures Attacks(af, p, i) <==> p in af.parents[i] && p < af.n {
    }
    assert forall p: nat :: p < af.n ==> (In(b, p) in v <==> p in InSet(af.n, b, v)) && (Out(b, p) in v <==> p in OutSet(af.n, b, v));
  }

  ghost predicate AdmAtV(af: AAF, g: Labeling, b: nat, i: nat, v: Valuation) {
    AdmAt(af, g, InSet(af.n, b, v), OutSet(af.n, b, v), i)
  }

  ghost predicate AdmUpto(af: AAF, g: Labeling, b: nat, k: nat, v: Valuation) {
    k != 0 ==> AdmUpto(af, g, b, k - 1, v) && AdmAtV(af, g, b, k - 1, v)
  }

  lemma {:induction false} AdmUptoAll(af: AAF, g: Labeling, b: nat, k: nat, v: Valuation)
    ensures AdmUpto(af, g, b, k, v) <==> forall i: nat :: i < k ==> AdmAt(af, g, InSet(af.n, b, v), OutSet(af.n, b, v), i)
  {
    if k != 0 { AdmUptoAll(af, g, b, k - 1, v); }
  }

  lemma AdmEncoding(af: AAF, g: Labeling, b: nat)
    requires af.Valid() && GroundedLabeling(af, g)
    ensures forall v :: AdmUpto(af, g, b, af.n, v) <==> AdmModel(af, g, b, v)
  {
    forall v ensures AdmUpto(af, g, b, af.n, v) <==> AdmModel(af, g, b, v) {
      AdmUptoAll(af, g, b, af.n, v);
      AdmExact(af, g, InSet(af.n, b, v), OutSet(af.n, b, v));
    }
  }

  lemma AllArgs(af: AAF, g: Labeling)
    ensures (forall j: nat :: j < af.n ==> j in g.ins || j in g.outs) <==> Args(af) <= g.ins + g.outs
  {
    if Args(af) <= g.ins + g.outs {
      forall j: nat | j < af.n ensures j in g.ins || j in g.outs { assert j in Args(af); }
    }
  }

  method AddAdmTestClauses(solver: Solver, b: nat, af: AAF, g: Labeling) returns (allGrounded: bool)
    requires af.Valid() && GroundedLabeling(af, g) && solver.pending == []
    modifies solver
    ensures solver.pending == [] && solver.assumptions == old(solver.assumptions)
    ensures allGrounded <==> Args(af) <= g.ins + g.outs
    ensures forall v :: Models(v, solver.clauses) <==> Models(v, old(solver.clauses)) && AdmModel(af, g, b, v)
  {
    allGrounded := true;
    for i := 0 to af.n
      invariant solver.pending == [] && solver.assumptions == old(solver.assumptions)
      invariant allGrounded <==> forall j: nat :: j < i ==> j in g.ins || j in g.outs
      invariant forall v :: Models(v, solver.clauses) <==> Models(v, old(solver.clauses)) && AdmUpto(af, g, b, i, v)
    {
      AddAdmClausesAt(solver, b, af, g, i);
      if i !in g.ins && i !in g.outs {
        allGrounded := false;
      }
    }
    AdmEncoding(af, g, b);
    AllArgs(af, g);
  }

  method AddAdmClausesAt(solver: Solver, b: nat, af: AAF, g: Labeling, i: nat)
    requires af.Valid() && i < af.n && solver.pending == []
    modifies solver
    ensures solver.pending == [] && solver.assumptions == old(solver.assumptions)
    ensures forall v :: Models(v, solver.clauses) <==> Models(v, old(solver.clauses)) && AdmAtV(af, g, b, i, v)
  {
    forall v { FromParents(b, af, i, v); }
    solver.AddClause2(-In(b, i), -Out(b, i));
    if i in g.ins {
      solver.AddClause1(In(b, i));
    } else if i in g.outs {
      solver.AddClause1(Out(b, i));
    } else {
      AddAttackerClauses(solver, b, i, af.parents[i]);
    }
  }

  /** If i is IN all its attackers are OUT; if i is OUT some attacker is IN. */
  method AddAttackerClauses(solver: Solver, b: nat, i: nat, ps: seq<nat>)
    requires solver.pending == []
    modifies solver
    ensures solver.pending == [] && solver.assumptions == old(solver.assumptions)
    ensures forall v :: Models(v, solver.clauses) <==>
      Models(v, old(solver.clauses)) && AttackersOut(b, i, ps, v) && (Out(b, i) !in v || SomeIn(b, ps, v))
  {
    var clause := [-Out(b, i)];
    Short(-Out(b, i), 0, 0);
    for k := 0 to |ps|
      invariant solver.pending == [] && solver.assumptions == old(solver.assumptions)
      invariant 0 !in clause && forall v :: Holds(v, clause) <==> Out(b, i) !in v || SomeIn(b, ps[..k], v)
      invariant forall v :: Models(v, solver.clauses) <==> Models(v, old(solver.clauses)) && AttackersOut(b, i, ps[..k], v)
    {
      Next(b, i, ps, k);
      Grow(clause, In(b, ps[k]));
      solver.AddClause2(-In(b, i), Out(b, ps[k]));
      clause := clause + [In(b, ps[k])];
    }
    assert ps[..|ps|] == ps;
    solver.AddClause(clause);
  }

  // ------------------------------------------------ conflict-free sets

  ghost predicate CfAt(af: AAF, S: set<nat>, O: set<nat>, i: nat) {
    !(i in S && i in O) && (i in O <==> Hits(af, S, i))
  }

  lemma CfExact(af: AAF, S: set<nat>, O: set<nat>)
    requires af.Valid() && S <= Args(af) && O <= Args(af)
    ensures (forall i: nat :: i < af.n ==> CfAt(af, S, O, i)) <==> ConflictFree(af, S) && O == Plus(af, S)
  {
    if forall i: nat :: i < af.n ==> CfAt(af, S, O, i) {
      assert forall i: nat :: i in O <==> i in Plus(af, S) by {
        forall i: nat ensures i in O <==> i in Plus(af, S) { assert i < af.n ==> CfAt(af, S, O, i); }
      }
      forall i | i in S ensures !Hits(af, S, i) { assert CfAt(af, S, O, i); }
    }
  }

  ghost predicate CfAtV(af: AAF, b: nat, i: nat, v: Valuation) {
    CfAt(af, InSet(af.n, b, v), OutSet(af.n, b, v), i)
  }

  ghost predicate CfUpto(af: AAF, b: nat, k: nat, v: Valuation) {
    k != 0 ==> CfUpto(af, b, k - 1, v) && CfAtV(af, b, k - 1, v)
  }

  lemma {:induction false} CfUptoAll(af: AAF, b: nat, k: nat, v: Valuation)
    ensures CfUpto(af, b, k, v) <==> forall i: nat :: i < k ==> CfAt(af, InSet(af.n, b, v), OutSet(af.n, b, v), i)
  {
    if k != 0 { CfUptoAll(af, b, k - 1, v); }
  }

  lemma CfEncoding(af: AAF, b: nat)
    requires af.Valid()
    ensures forall v :: CfUpto(af, b, af.n, v) <==> CfModel(af, b, v)
  {
    forall v ensures CfUpto(af, b, af.n, v) <==> CfModel(af, b, v) {
      CfUptoAll(af, b, af.n, v);
      CfExact(af, InSet(af.n, b, v), OutSet(af.n, b, v));
    }
  }

  method AddCfTestClauses(solver: Solver, b: nat, af: AAF, g: Labeling) returns (allGrounded: bool)
    requires af.Valid() && solver.pending == []
    modifies solver
    ensures solver.pending == [] && solver.assumptions == old(solver.assumptions)
    ensures allGrounded <==> Args(af) <= g.ins + g.outs
    ensures forall v :: Models(v, solver.clauses) <==> Models(v, old(solver.clauses)) && CfModel(af, b, v)
  {
    allGrounded := true;
    for i := 0 to af.n
      invariant solver.pending == [] && solver.assumptions == old(solver.assumptions)
      invariant allGrounded <==> forall j: nat :: j < i ==> j in g.ins || j in g.outs
      invariant forall v :: Models(v, solver.clauses) <==> Models(v, old(solver.clauses)) && CfUpto(af, b, i, v)
    {
      AddCfClausesAt(solver, b, af, i);
      if i !in g.ins && i !in g.outs {
        allGrounded := false;
      }
    }
    CfEncoding(af, b);
    AllArgs(af, g);
  }

  method AddCfClausesAt(solver: Solver, b: nat, af: AAF, i: nat)
    requires af.Valid() && i < af.n && solver.pending == []
    modifies solver
    ensures solver.pending == [] && solver.assumptions == old(solver.assumptions)
    ensures forall v :: Models(v, solver.clauses) <==> Models(v, old(solver.clauses)) && CfAtV(af, b, i, v)
  {
    forall v { FromParents(b, af, i, v); }
    solver.AddClause2(-In(b, i), -Out(b, i));
    AddAttackedClauses(solver, b, i, af.parents[i]);
  }

  /** i is OUT exactly if some attacker is IN. */
  method AddAttackedClauses(solver: Solver, b: nat, i: nat, ps: seq<nat>)
    requires solver.pending == []
    modifies solver
    ensures solver.pending == [] && solver.assumptions == old(solver.assumptions)
    ensures forall v :: Models(v, solver.clauses) <==>
      Models(v, old(solver.clauses)) && AttackedOut(b, i, ps, v) && (Out(b, i) !in v || SomeIn(b, ps, v))
  {
    var clause := [-Out(b, i)];
    Short(-Out(b, i), 0, 0);
    for k := 0 to |ps|
      invariant solver.pending == [] && solver.assumptions == old(solver.assumptions)
      invariant 0 !in clause && forall v :: Holds(v, clause) <==> Out(b, i) !in v || SomeIn(b, ps[..k], v)
      invariant forall v :: Models(v, solver.clauses) <==> Models(v, old(solver.clauses)) && AttackedOut(b, i, ps[..k], v)
    {
      Next(b, i, ps, k);
      Grow(clause, In(b, ps[k]));
      solver.AddClause2(-In(b, ps[k]), Out(b, i));
      clause := clause + [In(b, ps[k])];
    }
    assert ps[..|ps|] == ps;
    solver.AddClause(clause);
  }

  // ------------------------------------------------ complete extensions

  ghost predicate ComAt(af: AAF, g: Labeling, S: set<nat>, O: set<nat>, i: nat) {
    && AdmAt(af, g, S, O, i)
    && (i !in g.ins && i !in g.outs ==> (Hits(af, S, i) ==> i in O) && ((forall p: nat :: Attacks(af, p, i) ==> p in O) ==> i in S))
  }

  lemma ComExact(af: AAF, g: Labeling, S: set<nat>, O: set<nat>)
    requires af.Valid() && GroundedLabeling(af, g) && S <= Args(af) && O <= Args(af)
    ensures (forall i: nat :: i < af.n ==> ComAt(af, g, S, O, i)) <==> Complete(af, S) && O == Plus(af, S)
  {
    GroundedComplete(af, g.ins);
    AdmExact(af, g, S, O);
    if forall i: nat :: i < af.n ==> ComAt(af, g, S, O, i) {
      ComSound(af, g, S, O);
    }
    if Complete(af, S) && O == Plus(af, S) {
      GroundedLeastComplete(af, g.ins, S);
      AdmWitness(af, g, S);
      forall i: nat | i < af.n ensures ComAt(af, g, S, O, i) {
        if forall p: nat :: Attacks(af, p, i) ==> p in O { assert Defends(af, S, i); }
      }
    }
  }

  lemma ComSound(af: AAF, g: Labeling, S: set<nat>, O: set<nat>)
    requires af.Valid() && GroundedLabeling(af, g) && S <= Args(af) && O <= Args(af)
    requires forall i: nat :: i < af.n ==> ComAt(af, g, S, O, i)
    ensures Complete(af, S) && O == Plus(af, S)
  {
    assert forall i: nat :: i < af.n ==> AdmAt(af, g, S, O, i) by {
      forall i: nat | i < af.n ensures AdmAt(af, g, S, O, i) { assert ComAt(af, g, S, O, i); }
    }
    AdmSound(af, g, S, O);
    GroundedNotHit(af, g.ins, S);
    forall i | i in Plus(af, S) ensures i in O { assert ComAt(af, g, S, O, i); }
    forall i: nat | i < af.n && Defends(af, S, i) ensures i in S {
      assert ComAt(af, g, S, O, i);
      assert forall p: nat :: Attacks(af, p, i) ==> p in O;
      if i in g.outs {
        HitsMono(af, g.ins, S, i);
        NoSelfDefeat(af, S, i);
      }
    }
  }

  lemma NoSelfDefeat(af: AAF, S: set<nat>, i: nat)
    requires ConflictFree(af, S) && Defends(af, S, i)
    ensures !Hits(af, S, i)
  {
  }

  ghost predicate ComAtV(af: AAF, g: Labeling, b: nat, i: nat, v: Valuation) {
    ComAt(af, g, InSet(af.n, b, v), OutSet(af.n, b, v), i)
  }

  ghost predicate ComUpto(af: AAF, g: Labeling, b: nat, k: nat, v: Valuation) {
    k != 0 ==> ComUpto(af, g, b, k - 1, v) && ComAtV(af, g, b, k - 1, v)
  }

  lemma {:induction false} ComUptoAll(af: AAF, g: Labeling, b: nat, k: nat, v: Valuation)
    ensures ComUpto(af, g, b, k, v) <==> forall i: nat :: i < k ==> ComAt(af, g, InSet(af.n, b, v), OutSet(af.n, b, v), i)
  {
    if k != 0 { ComUptoAll(af, g, b, k - 1, v); }
  }

  lemma ComEncoding(af: AAF, g: Labeling, b: nat)
    requires af.Valid() && GroundedLabeling(af, g)
    ensures forall v :: ComUpto(af, g, b, af.n, v) <==> ComModel(af, b, v)
  {
    forall v ensures ComUpto(af, g, b, af.n, v) <==> ComModel(af, b, v) {
      ComUptoAll(af, g, b, af.n, v);
      ComExact(af, g, InSet(af.n, b, v), OutSet(af.n, b, v));
    }
  }

  method AddComTestClauses(solver: Solver, b: nat, af: AAF, g: Labeling)
    requires af.Valid() && GroundedLabeling(af, g) && solver.pending == []
    modifies solver
    ensures solver.pending == [] && solver.assumptions == old(solver.assumptions)
    ensures forall v :: Models(v, solver.clauses) <==> Models(v, old(solver.clauses)) && ComModel(af, b, v)
  {
    for i := 0 to af.n
      invariant solver.pending == [] && solver.assumptions == old(solver.assumptions)
      invariant forall v :: Models(v, solver.clauses) <==> Models(v, old(solver.clauses)) && ComUpto(af, g, b, i, v)
    {
      AddComClausesAt(solver, b, af, g, i);
    }
    ComEncoding(af, g, b);
  }

  method AddComClausesAt(solver: Solver, b: nat, af: AAF, g: Labeling, i: nat)
    requires af.Valid() && i < af.n && solver.pending == []
    modifies solver
    ensures solver.pending == [] && solver.assumptions == old(solver.assumptions)
    ensures forall v :: Models(v, solver.clauses) <==> Models(v, old(solver.clauses)) && ComAtV(af, g, b, i, v)
  {
    forall v { FromParents(b, af, i, v); }
    solver.AddClause2(-In(b, i), -Out(b, i));
    if i in g.ins {
      solver.AddClause1(In(b, i));
    } else if i in g.outs {
      solver.AddClause1(Out(b, i));
    } else {
      AddLabellingClauses(solver, b, i, af.parents[i]);
    }
  }

  /** i is OUT exactly if some attacker is IN, and IN exactly if all attackers are OUT. */
  method AddLabellingClauses(solver: Solver, b: nat, i: nat, ps: seq<nat>)
    requires solver.pending == []
    modifies solver
    ensures solver.pending == [] && solver.assumptions == old(solver.assumptions)
    ensures forall v :: Models(v, solver.clauses) <==>
      Models(v, old(solver.clauses)) && AttackersOut(b, i, ps, v) && AttackedOut(b, i, ps, v)
      && (Out(b, i) !in v || SomeIn(b, ps, v)) && (In(b, i) in v || SomeNotOut(b, ps, v))
  {
    var clause, clause2 := [-Out(b, i)], [In(b, i)];
    Short(-Out(b, i), 0, 0);
    Short(In(b, i), 0, 0);
    for k := 0 to |ps|
      invariant solver.pending == [] && solver.assumptions == old(solver.assumptions)
      invariant 0 !in clause && forall v :: Holds(v, clause) <==> Out(b, i) !in v || SomeIn(b, ps[..k], v)
      invariant 0 !in clause2 && forall v :: Holds(v, clause2) <==> In(b, i) in v || SomeNotOut(b, ps[..k], v)
      invariant forall v :: Models(v, solver.clauses) <==>
        Models(v, old(solver.clauses)) && AttackersOut(b, i, ps[..k], v) && AttackedOut(b, i, ps[..k], v)
    {
      Next(b, i, ps, k);
      Grow(clause, In(b, ps[k]));
      Grow(clause2, -Out(b, ps[k]));
      solver.AddClause2(-In(b, i), Out(b, ps[k]));
      solver.AddClause2(-In(b, ps[k]), Out(b, i));
      clause, clause2 := clause + [In(b, ps[k])], clause2 + [-Out(b, ps[k])];
    }
    assert ps[..|ps|] == ps;
    solver.AddClause(clause);
    solver.AddClause(clause2);
  }

  // ------------------------------------------------ stable extensions

  function StInSet(n: nat, v: Valuation): set<nat> { set i: nat | i < n && StIn(i) in v }

  function StEncode(S: set<nat>): Valuation { set i | i in S :: StIn(i) }

  lemma StEncodeDecodes(n: nat, S: set<nat>)
    requires S <= UpTo(n)
    ensures StInSet(n, StEncode(S)) == S
  {
    forall i: nat | i < n ensures StIn(i) in StEncode(S) <==> i in S {
    }
  }

  ghost predicate StAt(af: AAF, g: Labeling, S: set<nat>, i: nat)
  {
    && (i in g.ins ==> i in S) && (i !in g.ins && i in g.outs ==> i !in S)
    && (i in S ==> !Hits(af, S, i)) && (i < |af.parents| && af.parents[i] != [] ==> i in S || Hits(af, S, i))
  }

  /** No clause is written for an unattacked argument; the grounded units make up for it. */
  lemma StExact(af: AAF, g: Labeling, S: set<nat>)
    requires af.Valid() && GroundedLabeling(af, g) && S <= Args(af)
    ensures (forall i: nat :: i < af.n ==> StAt(af, g, S, i)) <==> Stable(af, S)
  {
    if forall i: nat :: i < af.n ==> StAt(af, g, S, i) {
      forall i: nat | i < af.n ensures i in Range(af, S) {
        assert StAt(af, g, S, i);
        if af.parents[i] == [] { assert i in Characteristic(af, g.ins); }
      }
      forall i | i in S ensures !Hits(af, S, i) { assert StAt(af, g, S, i); }
    }
    if Stable(af, S) {
      StableAdmissible(af, S);
      GroundedLeastComplete(af, g.ins, S);
      PlusMono(af, g.ins, S);
      forall i: nat | i < af.n ensures StAt(af, g, S, i) {
        assert i in Range(af, S);
        assert i in g.outs ==> i in Plus(af, S);
      }
    }
  }

  ghost predicate StAtV(af: AAF, g: Labeling, i: nat, v: Valuation) { StAt(af, g, StInSet(af.n, v), i) }

  ghost predicate StUpto(af: AAF, g: Labeling, k: nat, v: Valuation) {
    k != 0 ==> StUpto(af, g, k - 1, v) && StAtV(af, g, k - 1, v)
  }

  lemma {:induction false} StUptoAll(af: AAF, g: Labeling, k: nat, v: Valuation)
    ensures StUpto(af, g, k, v) <==> forall i: nat :: i < k ==> StAt(af, g, StInSet(af.n, v), i)
  {
    if k != 0 { StUptoAll(af, g, k - 1, v); }
  }

  lemma StEncoding(af: AAF, g: Labeling)
    requires af.Valid() && GroundedLabeling(af, g)
    ensures forall v :: StUpto(af, g, af.n, v) <==> Stable(af, StInSet(af.n, v))
  {
    forall v ensures StUpto(af, g, af.n, v) <==> Stable(af, StInSet(af.n, v)) {
      StUptoAll(af, g, af.n, v);
      StExact(af, g, StInSet(af.n, v));
    }
  }

  method AddStbTestClauses(solver: Solver, af: AAF, g: Labeling)
    requires af.Valid() && GroundedLabeling(af, g) && solver.pending == []
    modifies solver
    ensures solver.pending == [] && solver.assumptions == old(solver.assumptions)
    ensures forall v :: Models(v, solver.clauses) <==> Models(v, old(solver.clauses)) && Stable(af, StInSet(af.n, v))
  {
    for i := 0 to af.n
      invariant solver.pending == [] && solver.assumptions == old(solver.assumptions)
      invariant forall v :: Models(v, solver.clauses) <==> Models(v, old(solver.clauses)) && StUpto(af, g, i, v)
    {
      AddStbClausesAt(solver, af, g, i);
    }
    StEncoding(af, g);
  }

  method AddStbClausesAt(solver: Solver, af: AAF, g: Labeling, i: nat)
    requires af.Valid() && i < af.n && solver.pending == []
    modifies solver
    ensures solver.pending == [] && solver.assumptions == old(solver.assumptions)
    ensures forall v :: Models(v, solver.clauses) <==> Models(v, old(solver.clauses)) && StAtV(af, g, i, v)
  {
    forall v { StFromParents(af, i, v); }
    if i in g.ins {
      solver.AddClause1(StIn(i));
    } else if i in g.outs {
      solver.AddClause1(-StIn(i));
    }
    AddStableClauses(solver, i, af.parents[i]);
  }

  ghost predicate StSomeIn(ps: seq<nat>, v: Valuation) { exists p :: p in ps && StIn(p) in v }

  lemma StNext(ps: seq<nat>, k: nat)
    requires k < |ps|
    ensures forall v :: StSomeIn(ps[..k + 1], v) <==> StSomeIn(ps[..k], v) || StIn(ps[k]) in v
  {
    assert forall p :: p in ps[..k + 1] <==> p in ps[..k] || p == ps[k];
    assert ps[k] in ps[..k + 1];
  }

  lemma StFromParents(af: AAF, i: nat, v: Valuation)
    requires af.Valid() && i < af.n
    ensures StIn(i) in v <==> i in StInSet(af.n, v)
    ensures StSomeIn(af.parents[i], v) <==> Hits(af, StInSet(af.n, v), i)
  {
    forall p: nat ensures Attacks(af, p, i) <==> p in af.parents[i] && p < af.n {
    }
    assert forall p: nat :: p < af.n ==> (StIn(p) in v <==> p in StInSet(af.n, v));
  }

  /** i and an attacker are not both IN; one of them is, unless there is no attacker. */
  method AddStableClauses(solver: Solver, i: nat, ps: seq<nat>)
    requires solver.pending == []
    modifies solver
    ensures solver.pending == [] && solver.assumptions == old(solver.assumptions)
    ensures forall v :: Models(v, solver.clauses) <==>
      Models(v, old(solver.clauses)) && !(StIn(i) in v && StSomeIn(ps, v)) && (ps == [] || StIn(i) in v || StSomeIn(ps, v))
  {
    var clause, emptyClause := [StIn(i)], true;
    Short(StIn(i), 0, 0);
    for k := 0 to |ps|
      invariant solver.pending == [] && solver.assumptions == old(solver.assumptions)
      invariant emptyClause <==> k == 0
      invariant 0 !in clause && forall v :: Holds(v, clause) <==> StIn(i) in v || StSomeIn(ps[..k], v)
      invariant forall v :: Models(v, solver.clauses) <==>
        Models(v, old(solver.clauses)) && !(StIn(i) in v && StSomeIn(ps[..k], v))
    {
      StNext(ps, k);
      Grow(clause, StIn(ps[k]));
      solver.AddClause2(-StIn(i), -StIn(ps[k]));
      clause, emptyClause := clause + [StIn(ps[k])], false;
    }
    assert ps[..|ps|] == ps;
    if !emptyClause {
      solver.AddClause(clause);
    }
  }

  // ------------------------------------------------ pairs of attacking sets

  /** The attacks (attacker, attacked) on argument i from the listed attackers. */
  function PairsOn(i: nat, ps: seq<nat>): seq<(nat, nat)> {
    if ps == [] then [] else PairsOn(i, ps[..|ps| - 1]) + [(ps[|ps| - 1], i)]
  }

  /** All attacks on the first k arguments, in the order the encoding numbers them. */
  function AttackPairs(af: AAF, k: nat): seq<(nat, nat)>
    requires k <= |af.parents|
  {
    if k == 0 then [] else AttackPairs(af, k - 1) + PairsOn(k - 1, af.parents[k - 1])
  }

  lemma {:induction false} PairsOnMember(i: nat, ps: seq<nat>, q: (nat, nat))
    ensures q in PairsOn(i, ps) <==> q.1 == i && q.0 in ps
  {
    if ps != [] {
      PairsOnMember(i, ps[..|ps| - 1], q);
      assert ps == ps[..|ps| - 1] + [ps[|ps| - 1]];
    }
  }

  lemma {:induction false} AttackPairsMember(af: AAF, k: nat, q: (nat, nat))
    requires k <= |af.parents|
    ensures q in AttackPairs(af, k) <==> q.1 < k && Attacks(af, q.0, q.1)
  {
    if k != 0 {
      AttackPairsMember(af, k - 1, q);
      PairsOnMember(k - 1, af.parents[k - 1], q);
    }
  }

  /** Variable off + m stands for the m-th attack, between an IN argument of the
      first block and an IN argument of the second. */
  ghost predicate AttackVarsMean(off: nat, qs: seq<(nat, nat)>, b0: nat, b1: nat, v: Valuation) {
    forall m: nat :: m < |qs| ==> (off + m in v <==> In(b0, qs[m].0) in v && In(b1, qs[m].1) in v)
  }

  ghost predicate SomeAttackVar(off: nat, m: nat, v: Valuation) { exists x :: off <= x < off + m && x in v }

  lemma NextAttack(off: nat, qs: seq<(nat, nat)>, q: (nat, nat), b0: nat, b1: nat)
    ensures forall v :: AttackVarsMean(off, qs + [q], b0, b1, v) <==>
      AttackVarsMean(off, qs, b0, b1, v) && (off + |qs| in v <==> In(b0, q.0) in v && In(b1, q.1) in v)
  {
    var rs := qs + [q];
    assert rs[|qs|] == q;
    assert forall m: nat :: m < |qs| ==> rs[m] == qs[m];
  }

  lemma NextVar(off: nat, m: nat)
    ensures forall v :: SomeAttackVar(off, m + 1, v) <==> SomeAttackVar(off, m, v) || off + m in v
  {
  }

  /** The attack variables say which attacks lead from the first set to the second, and there is one. */
  ghost predicate AttackModel(af: AAF, off: nat, b0: nat, b1: nat, v: Valuation)
    requires af.Valid()
  {
    var qs := AttackPairs(af, af.n);
    AttackVarsMean(off, qs, b0, b1, v) && SomeAttackVar(off, |qs|, v)
  }

  lemma JoinAttacks(off: nat, qs: seq<(nat, nat)>, rs: seq<(nat, nat)>, b0: nat, b1: nat)
    ensures forall v :: AttackVarsMean(off, qs + rs, b0, b1, v) <==>
      AttackVarsMean(off, qs, b0, b1, v) && AttackVarsMean(off + |qs|, rs, b0, b1, v)
  {
    var ts := qs + rs;
    assert forall m: nat :: m < |qs| ==> ts[m] == qs[m];
    assert forall m: nat :: m < |rs| ==> ts[|qs| + m] == rs[m] && off + (|qs| + m) == off + |qs| + m;
    forall v | AttackVarsMean(off, qs, b0, b1, v) && AttackVarsMean(off + |qs|, rs, b0, b1, v)
      ensures AttackVarsMean(off, ts, b0, b1, v)
    {
      forall m: nat | m < |ts| ensures off + m in v <==> In(b0, ts[m].0) in v && In(b1, ts[m].1) in v {
        if m >= |qs| { assert off + |qs| + (m - |qs|) == off + m; }
      }
    }
    forall v | AttackVarsMean(off, ts, b0, b1, v)
      ensures AttackVarsMean(off, qs, b0, b1, v) && AttackVarsMean(off + |qs|, rs, b0, b1, v)
    {
    }
  }

  method AddAttackClauses(solver: Solver, b0: nat, b1: nat, off: nat, af: AAF)
    requires af.Valid() && off > 0 && solver.pending == []
    modifies solver
    ensures solver.pending == [] && solver.assumptions == old(solver.assumptions)
    ensures forall v :: Models(v, solver.clauses) <==> Models(v, old(solver.clauses)) && AttackModel(af, off, b0, b1, v)
  {
    var oneAttack: Clause := [];
    for i := 0 to af.n
      invariant solver.pending == [] && solver.assumptions == old(solver.assumptions)
      invariant |oneAttack| == |AttackPairs(af, i)| && 0 !in oneAttack
      invariant forall v :: Holds(v, oneAttack) <==> SomeAttackVar(off, |oneAttack|, v)
      invariant forall v :: Models(v, solver.clauses) <==>
        Models(v, old(solver.clauses)) && AttackVarsMean(off, AttackPairs(af, i), b0, b1, v)
    {
      JoinAttacks(off, AttackPairs(af, i), PairsOn(i, af.parents[i]), b0, b1);
      oneAttack := AddAttacksOn(solver, b0, b1, off, i, af.parents[i], oneAttack);
    }
    solver.AddClause(oneAttack);
  }

  /** The variables for the attacks on i; each is true exactly if attacker and attacked are IN. */
  method AddAttacksOn(solver: Solver, b0: nat, b1: nat, off: nat, i: nat, ps: seq<nat>, one: Clause)
    returns (oneAttack: Clause)
    requires off > 0 && solver.pending == [] && 0 !in one
    requires forall v :: Holds(v, one) <==> SomeAttackVar(off, |one|, v)
    modifies solver
    ensures solver.pending == [] && solver.assumptions == old(solver.assumptions)
    ensures |oneAttack| == |one| + |PairsOn(i, ps)| && 0 !in oneAttack
    ensures forall v :: Holds(v, oneAttack) <==> SomeAttackVar(off, |oneAttack|, v)
    ensures forall v :: Models(v, solver.clauses) <==>
      Models(v, old(solver.clauses)) && AttackVarsMean(off + |one|, PairsOn(i, ps), b0, b1, v)
  {
    oneAttack := one;
    ghost var qs := [];
    for k := 0 to |ps|
      invariant solver.pending == [] && solver.assumptions == old(solver.assumptions)
      invariant qs == PairsOn(i, ps[..k]) && |oneAttack| == |one| + |qs| && 0 !in oneAttack
      invariant forall v :: Holds(v, oneAttack) <==> SomeAttackVar(off, |oneAttack|, v)
      invariant forall v :: Models(v, solver.clauses) <==>
        Models(v, old(solver.clauses)) && AttackVarsMean(off + |one|, qs, b0, b1, v)
    {
      var idx := off + |oneAttack|;
      NextAttack(off + |one|, qs, (ps[k], i), b0, b1);
      NextVar(off, |oneAttack|);
      Grow(oneAttack, idx);
      qs := qs + [(ps[k], i)];
      assert ps[..k + 1][..k] == ps[..k];
      oneAttack := oneAttack + [idx];
      solver.AddClause2(-idx, In(b0, ps[k]));
      solver.AddClause2(-idx, In(b1, i));
      solver.AddClause3(idx, -In(b1, i), -In(b0, ps[k]));
    }
    assert ps[..|ps|] == ps;
  }

  /** The meaning of the two-set solver: an admissible set S attacking an admissible set T. */
  ghost predicate PairModel(af: AAF, g: Labeling, v: Valuation)
    requires af.Valid()
  {
    AdmModel(af, g, 0, v) && AdmModel(af, g, 2 * af.n, v) && AttackModel(af, 4 * af.n + 1, 0, 2 * af.n, v)
  }

  lemma {:induction false} PairSound(af: AAF, g: Labeling, v: Valuation)
    requires af.Valid() && PairModel(af, g, v)
    ensures exists j :: j in InSet(af.n, 2 * af.n, v) && Hits(af, InSet(af.n, 0, v), j)
  {
    var qs, off := AttackPairs(af, af.n), 4 * af.n + 1;
    var x :| off <= x < off + |qs| && x in v;
    var q := qs[x - off];
    assert off + (x - off) == x;
    AttackPairsMember(af, af.n, q);
    assert q.0 in InSet(af.n, 0, v) && q.1 in InSet(af.n, 2 * af.n, v);
  }

  /** The attack variables for S attacking T. */
  function AttackBits(off: nat, qs: seq<(nat, nat)>, S: set<nat>, T: set<nat>): Valuation {
    set m | 0 <= m < |qs| && qs[m].0 in S && qs[m].1 in T :: off + m
  }

  function EncodePair(af: AAF, S: set<nat>, O: set<nat>, T: set<nat>, Q: set<nat>): Valuation
    requires af.Valid()
  {
    Encode(0, S, O) + (Encode(2 * af.n, T, Q) + AttackBits(4 * af.n + 1, AttackPairs(af, af.n), S, T))
  }

  lemma {:induction false} EncodePairDecodes(af: AAF, S: set<nat>, O: set<nat>, T: set<nat>, Q: set<nat>)
    requires af.Valid() && S <= Args(af) && O <= Args(af) && T <= Args(af) && Q <= Args(af)
    ensures var v := EncodePair(af, S, O, T, Q);
      InSet(af.n, 0, v) == S && OutSet(af.n, 0, v) == O && InSet(af.n, 2 * af.n, v) == T && OutSet(af.n, 2 * af.n, v) == Q
    ensures forall x :: x > 4 * af.n ==>
      (x in EncodePair(af, S, O, T, Q) <==> x in AttackBits(4 * af.n + 1, AttackPairs(af, af.n), S, T))
  {
    var v0, v1 := Encode(0, S, O), Encode(2 * af.n, T, Q);
    var bits := AttackBits(4 * af.n + 1, AttackPairs(af, af.n), S, T);
    EncodeRange(af.n, 0, S, O);
    EncodeRange(af.n, 2 * af.n, T, Q);
    EncodeDecodes(af.n, 0, S, O, v1 + bits);
    EncodeDecodes(af.n, 2 * af.n, T, Q, v0 + bits);
    assert EncodePair(af, S, O, T, Q) == v1 + (v0 + bits);
  }

  /** v writes S and T with everything they attack OUT. */
  ghost predicate Writes(af: AAF, S: set<nat>, T: set<nat>, v: Valuation) {
    && InSet(af.n, 0, v) == S && OutSet(af.n, 0, v) == Plus(af, S)
    && InSet(af.n, 2 * af.n, v) == T && OutSet(af.n, 2 * af.n, v) == Plus(af, T)
  }

  lemma {:induction false} PairWitness(af: AAF, g: Labeling, S: set<nat>, T: set<nat>) returns (v: Valuation)
    requires af.Valid() && GroundedLabeling(af, g)
    requires Admissible(af, S) && Admissible(af, T) && g.ins <= S && g.ins <= T
    requires exists j :: j in T && Hits(af, S, j)
    ensures Writes(af, S, T, v)
    ensures PairModel(af, g, v)
  {
    v := WrittenPair(af, S, T);
    WrittenIsModel(af, g, S, T, v);
  }

  lemma {:induction false} WrittenPair(af: AAF, S: set<nat>, T: set<nat>) returns (v: Valuation)
    requires af.Valid() && S <= Args(af) && T <= Args(af) && exists j :: j in T && Hits(af, S, j)
    ensures Writes(af, S, T, v) && AttackModel(af, 4 * af.n + 1, 0, 2 * af.n, v)
  {
    v := EncodePair(af, S, Plus(af, S), T, Plus(af, T));
    EncodePairDecodes(af, S, Plus(af, S), T, Plus(af, T));
    AttackVarsWitness(af, S, T, v);
  }

  lemma {:induction false} WrittenIsModel(af: AAF, g: Labeling, S: set<nat>, T: set<nat>, v: Valuation)
    requires af.Valid() && GroundedLabeling(af, g)
    requires Admissible(af, S) && Admissible(af, T) && g.ins <= S && g.ins <= T
    requires Writes(af, S, T, v) && AttackModel(af, 4 * af.n + 1, 0, 2 * af.n, v)
    ensures PairModel(af, g, v)
  {
    AdmWitness(af, g, S);
    AdmWitness(af, g, T);
  }

  lemma {:induction false} AttackVarsWitness(af: AAF, S: set<nat>, T: set<nat>, v: Valuation)
    requires af.Valid() && InSet(af.n, 0, v) == S && InSet(af.n, 2 * af.n, v) == T
    requires forall x :: x > 4 * af.n ==> (x in v <==> x in AttackBits(4 * af.n + 1, AttackPairs(af, af.n), S, T))
    requires exists j :: j in T && Hits(af, S, j)
    ensures AttackModel(af, 4 * af.n + 1, 0, 2 * af.n, v)
  {
    var n, qs, off := af.n, AttackPairs(af, af.n), 4 * af.n + 1;
    forall m: nat | m < |qs| ensures off + m in v <==> In(0, qs[m].0) in v && In(2 * n, qs[m].1) in v {
      AttackPairsMember(af, n, qs[m]);
      assert In(0, qs[m].0) in v <==> qs[m].0 in InSet(n, 0, v);
      assert In(2 * n, qs[m].1) in v <==> qs[m].1 in InSet(n, 2 * n, v);
    }
    var j :| j in T && Hits(af, S, j);
    var i :| i in S && Attacks(af, i, j);
    AttackPairsMember(af, n, (i, j));
    var m :| 0 <= m < |qs| && qs[m] == (i, j);
    assert off + m in v;
  }
}
