/** What the solver loops share: reading a set out of a model, and clauses that
    ask for something outside a set already seen. */
module Blocking {
  import opened Framework
  import opened Sat
  import opened Encodings

  /** One of the first k arguments is IN and outside S. */
  ghost predicate SomeNew(S: set<nat>, k: nat, v: Valuation) {
    exists j: nat :: j < k && j !in S && In(0, j) in v
  }

  lemma NextNew(S: set<nat>, k: nat)
    ensures forall v :: SomeNew(S, k + 1, v) <==> SomeNew(S, k, v) || (k !in S && In(0, k) in v)
  {
  }

  lemma AllNew(S: set<nat>, n: nat)
    ensures forall v :: SomeNew(S, n, v) <==> !(InSet(n, 0, v) <= S)
  {
    forall v ensures SomeNew(S, n, v) <==> !(InSet(n, 0, v) <= S) {
      if SomeNew(S, n, v) {
        var j: nat :| j < n && j !in S && In(0, j) in v;
        assert j in InSet(n, 0, v);
      }
    }
  }

  /** The sets of arguments that no blocking set covers. */
  ghost function Unblocked(n: nat, blocked: set<set<nat>>): set<set<nat>> {
    set S | S <= UpTo(n) && Open(S, blocked)
  }

  ghost predicate Open(S: set<nat>, blocked: set<set<nat>>) {
    forall B :: B in blocked ==> !(S <= B)
  }

  /** Blocking a superset of an open set leaves strictly fewer open sets. */
  lemma BlockingProgress(n: nat, blocked: set<set<nat>>, S: set<nat>, B: set<nat>)
    requires S <= UpTo(n) && Open(S, blocked) && S <= B
    ensures Unblocked(n, blocked + {B}) < Unblocked(n, blocked)
  {
    assert forall T :: Open(T, blocked + {B}) ==> Open(T, blocked);
    assert S in Unblocked(n, blocked) && S !in Unblocked(n, blocked + {B});
  }

  /** The IN set of the current model, and the clause that asks for an argument outside it. */
  method ReadModel(solver: Solver, n: nat) returns (ins: set<nat>, clause: Clause)
    requires solver.state == SAT
    ensures ins == InSet(n, 0, solver.model)
    ensures 0 !in clause && forall v :: Holds(v, clause) <==> !(InSet(n, 0, v) <= ins)
  {
    ins, clause := {}, [];
    for i := 0 to n
      invariant forall j: nat :: j in ins <==> j < i && In(0, j) in solver.model
      invariant 0 !in clause && forall v :: Holds(v, clause) <==> SomeNew(InSet(n, 0, solver.model), i, v)
    {
      NextNew(InSet(n, 0, solver.model), i);
      Grow(clause, In(0, i));
      if solver.Val(In(0, i)) > 0 {
        ins := ins + {i};
      } else if solver.Val(In(0, i)) < 0 {
        clause := clause + [In(0, i)];
      }
    }
    AllNew(ins, n);
  }

  ghost predicate AllIn(S: set<nat>, k: nat, v: Valuation) {
    forall j: nat :: j < k && j in S ==> In(0, j) in v
  }

  lemma NextIn(S: set<nat>, k: nat)
    ensures forall v :: AllIn(S, k + 1, v) <==> AllIn(S, k, v) && (k in S ==> In(0, k) in v)
  {
  }

  lemma EveryIn(S: set<nat>, n: nat)
    requires S <= UpTo(n)
    ensures forall v :: AllIn(S, n, v) <==> S <= InSet(n, 0, v)
  {
  }

  /** A unit clause for every member of S. */
  method RequireAll(solver: Solver, n: nat, S: set<nat>)
    requires solver.pending == [] && S <= UpTo(n)
    modifies solver
    ensures solver.pending == [] && solver.assumptions == old(solver.assumptions)
    ensures forall v :: Models(v, solver.clauses) <==> Models(v, old(solver.clauses)) && S <= InSet(n, 0, v)
  {
    for i := 0 to n
      invariant solver.pending == [] && solver.assumptions == old(solver.assumptions)
      invariant forall v :: Models(v, solver.clauses) <==> Models(v, old(solver.clauses)) && AllIn(S, i, v)
    {
      NextIn(S, i);
      if i in S { solver.AddClause1(In(0, i)); }
    }
    EveryIn(S, n);
  }

  /** The clause that asks for an argument outside S. */
  method AddOutside(solver: Solver, n: nat, S: set<nat>)
    requires solver.pending == []
    modifies solver
    ensures solver.pending == [] && solver.assumptions == old(solver.assumptions)
    ensures forall v :: Models(v, solver.clauses) <==> Models(v, old(solver.clauses)) && !(InSet(n, 0, v) <= S)
  {
    for i := 0 to n
      invariant solver.clauses == old(solver.clauses) && solver.assumptions == old(solver.assumptions)
      invariant forall v :: Holds(v, solver.pending) <==> SomeNew(S, i, v)
    {
      NextNew(S, i);
      Grow(solver.pending, In(0, i));
      if i !in S { solver.Add(In(0, i)); }
    }
    AllNew(S, n);
    solver.Add(0);
  }

  /** An assumption for every member of S. */
  method AssumeAll(solver: Solver, n: nat, S: set<nat>)
    requires solver.pending == [] && S <= UpTo(n)
    modifies solver
    ensures solver.pending == [] && solver.clauses == old(solver.clauses)
    ensures forall v :: AllTrue(v, solver.assumptions) <==> AllTrue(v, old(solver.assumptions)) && S <= InSet(n, 0, v)
  {
    for i := 0 to n
      invariant solver.pending == [] && solver.clauses == old(solver.clauses)
      invariant forall v :: AllTrue(v, solver.assumptions) <==> AllTrue(v, old(solver.assumptions)) && AllIn(S, i, v)
    {
      NextIn(S, i);
      if i in S { solver.Assume(In(0, i)); }
    }
    EveryIn(S, n);
  }
}
