/** The incremental SAT solver behind the IPASIR interface. Callers see only the
    contracts; the bodies show that the contracts can be met. */
module Sat {

  type Clause = seq<int>
  /** The variables that are true; all others are false. */
  type Valuation = set<int>

  datatype State = INPUT | SAT | UNSAT

  predicate True(v: Valuation, lit: int) {
    if lit < 0 then -lit !in v else lit in v
  }

  predicate Holds(v: Valuation, c: Clause) {
    exists lit :: lit in c && True(v, lit)
  }

  predicate Models(v: Valuation, clauses: seq<Clause>) {
    forall c :: c in clauses ==> Holds(v, c)
  }

  predicate AllTrue(v: Valuation, lits: set<int>) {
    forall lit :: lit in lits ==> True(v, lit)
  }

  function Abs(x: int): int { if x < 0 then -x else x }

  function Variables(clauses: seq<Clause>, lits: set<int>): set<int> {
    (set c, lit | c in clauses && lit in c :: Abs(lit)) + (set lit | lit in lits :: Abs(lit))
  }

  /** Only the variables that occur matter. */
  lemma RestrictModel(v: Valuation, clauses: seq<Clause>, lits: set<int>)
    ensures var w := v * Variables(clauses, lits);
      (Models(v, clauses) <==> Models(w, clauses)) && (AllTrue(v, lits) <==> AllTrue(w, lits))
  {
    var w := v * Variables(clauses, lits);
    forall c, lit | c in clauses && lit in c ensures True(v, lit) == True(w, lit) {
      assert Abs(lit) in Variables(clauses, lits);
    }
    forall c | c in clauses ensures Holds(v, c) == Holds(w, c) {
      if Holds(v, c) {
        var lit :| lit in c && True(v, lit);
        assert True(w, lit);
      }
      if Holds(w, c) {
        var lit :| lit in c && True(w, lit);
        assert True(v, lit);
      }
    }
    forall lit | lit in lits ensures True(v, lit) == True(w, lit) {
      assert Abs(lit) in Variables(clauses, lits);
    }
  }

  lemma Extend(clauses: seq<Clause>, c: Clause)
    ensures forall v :: Models(v, clauses + [c]) <==> Models(v, clauses) && Holds(v, c)
  {
    assert forall d :: d in clauses + [c] <==> d in clauses || d == c;
  }

  lemma Grow(c: Clause, lit: int)
    ensures forall v :: Holds(v, c + [lit]) <==> Holds(v, c) || True(v, lit)
  {
    assert forall l :: l in c + [lit] <==> l in c || l == lit;
    forall v ensures Holds(v, c + [lit]) <==> Holds(v, c) || True(v, lit) {
      if Holds(v, c) {
        var l :| l in c && True(v, l);
        assert l in c + [lit];
      }
      if True(v, lit) { assert lit in c + [lit]; }
    }
  }

  lemma Short(a: int, b: int, c: int)
    ensures forall v :: Holds(v, [a]) <==> True(v, a)
    ensures forall v :: Holds(v, [a, b]) <==> True(v, a) || True(v, b)
    ensures forall v :: Holds(v, [a, b, c]) <==> True(v, a) || True(v, b) || True(v, c)
  {
    assert a in [a] && a in [a, b] && b in [a, b] && a in [a, b, c] && b in [a, b, c] && c in [a, b, c];
  }

  class Solver {
    var clauses: seq<Clause>
    var pending: Clause
    var assumptions: set<int>
    var state: State
    var model: Valuation

    constructor ()
      ensures clauses == [] && pending == [] && assumptions == {} && state == INPUT
    {
      clauses, pending, assumptions, state, model := [], [], {}, INPUT, {};
    }

    /** Adds a literal to the clause being built; 0 ends the clause. */
    method Add(lit: int)
      modifies this
      ensures state == INPUT && assumptions == old(assumptions)
      ensures lit == 0 ==> pending == [] &&
                           forall v :: Models(v, clauses) <==> Models(v, old(clauses)) && Holds(v, old(pending))
      ensures lit != 0 ==> clauses == old(clauses) && pending == old(pending) + [lit]
    {
      state := INPUT;
      if lit == 0 {
        Extend(clauses, pending);
        clauses, pending := clauses + [pending], [];
      } else {
        pending := pending + [lit];
      }
    }

    method AddClause(c: Clause)
      requires pending == [] && 0 !in c
      modifies this
      ensures state == INPUT && assumptions == old(assumptions) && pending == []
      ensures forall v :: Models(v, clauses) <==> Models(v, old(clauses)) && Holds(v, c)
    {
      for i := 0 to |c|
        invariant clauses == old(clauses) && assumptions == old(assumptions)
        invariant pending == c[..i]
      {
        Add(c[i]);
      }
      assert c[..|c|] == c;
      Add(0);
    }

    method AddClause1(a: int)
      requires pending == [] && a != 0
      modifies this
      ensures state == INPUT && assumptions == old(assumptions) && pending == []
      ensures forall v :: Models(v, clauses) <==> Models(v, old(clauses)) && True(v, a)
    {
      Short(a, a, a);
      AddClause([a]);
    }

    method AddClause2(a: int, b: int)
      requires pending == [] && a != 0 && b != 0
      modifies this
      ensures state == INPUT && assumptions == old(assumptions) && pending == []
      ensures forall v :: Models(v, clauses) <==> Models(v, old(clauses)) && (True(v, a) || True(v, b))
    {
      Short(a, b, b);
      AddClause([a, b]);
    }

    method AddClause3(a: int, b: int, c: int)
      requires pending == [] && a != 0 && b != 0 && c != 0
      modifies this
      ensures state == INPUT && assumptions == old(assumptions) && pending == []
      ensures forall v :: Models(v, clauses) <==> Models(v, old(clauses)) && (True(v, a) || True(v, b) || True(v, c))
    {
      Short(a, b, c);
      AddClause([a, b, c]);
    }

    method Assume(lit: int)
      modifies this
      ensures state == INPUT && clauses == old(clauses) && pending == old(pending)
      ensures assumptions == old(assumptions) + {lit}
    {
      state := INPUT;
      assumptions := assumptions + {lit};
    }

    /** True for answer 10, false for answer 20. */
    method Solve() returns (sat: bool)
      requires pending == []
      modifies this
      ensures clauses == old(clauses) && pending == [] && assumptions == {}
      ensures sat ==> state == SAT && Models(model, clauses) && AllTrue(model, old(assumptions))
      ensures !sat ==> state == UNSAT && forall v :: Models(v, clauses) ==> !AllTrue(v, old(assumptions))
    {
      var vars := Variables(clauses, assumptions);
      if v: Valuation :| v <= vars && Models(v, clauses) && AllTrue(v, assumptions) {
        model, state, sat := v, SAT, true;
      } else {
        forall v | Models(v, clauses) ensures !AllTrue(v, assumptions) {
          RestrictModel(v, clauses, assumptions);
          assert v * vars <= vars;
        }
        state, sat := UNSAT, false;
      }
      assumptions := {};
    }

    /** Only meaningful right after a satisfiable answer. */
    function Val(lit: int): (r: int)
      requires state == SAT && lit != 0
      reads this
      ensures r > 0 <==> (if lit > 0 then True(model, lit) else !True(model, lit))
    {
      if True(model, lit) then lit else -lit
    }
  }
}
