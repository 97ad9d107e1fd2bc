/** The tracer that the solver calls for every original and every derived clause. */
module Tracer {
  import opened Sat
  import opened Aigs
  import opened Interpolation
  import opened Craig
  import LeafForms

  function Literals(c: Clause): set<int> { set l | l in c }

  // ------------------------------------------------ resolution chains

  /** What is left after some steps of a chain, and the variables resolved on so far. */
  datatype Resolution = Resolution(literals: set<int>, pivots: set<int>)

  /** The clause clashes with the resolvent in exactly one literal, is no tautology, repeats
      no literal and mentions no variable resolved on before. */
  ghost predicate Clashes(s: Resolution, d: Clause, pivot: int) {
    && pivot in d && -pivot in s.literals
    && (forall l :: l in d && -l in s.literals ==> l == pivot)
    && (forall l :: l in d ==> l != 0 && -l !in d && Abs(l) !in s.pivots)
    && (forall i, j :: 0 <= i < j < |d| ==> d[i] != d[j])
  }

  ghost function Pivot(s: Resolution, d: Clause): (pivot: int)
    ensures (exists l :: Clashes(s, d, l)) ==> Clashes(s, d, pivot)
  {
    if exists l :: Clashes(s, d, l) then var l :| Clashes(s, d, l); l else 0
  }

  ghost function Resolvent(s: Resolution, d: Clause, pivot: int): Resolution {
    Resolution((s.literals - {-pivot}) + (Literals(d) - {pivot}), s.pivots + {Abs(pivot)})
  }

  ghost predicate Known(clauses: seq<Clause>, chain: seq<nat>) {
    |chain| > 0 && forall k :: 0 <= k < |chain| ==> chain[k] < |clauses|
  }

  /** The last clause of the chain resolved with those before it, down to number i. */
  ghost function After(clauses: seq<Clause>, chain: seq<nat>, i: nat): Resolution
    requires Known(clauses, chain) && i < |chain|
    decreases |chain| - i
  {
    var d := clauses[chain[i]];
    if i == |chain| - 1 then Resolution(Literals(d), {})
    else
      var s := After(clauses, chain, i + 1);
      Resolvent(s, d, Pivot(s, d))
  }

  ghost predicate StepOk(clauses: seq<Clause>, chain: seq<nat>, i: nat)
    requires Known(clauses, chain) && i < |chain| - 1
  {
    var s, d := After(clauses, chain, i + 1), clauses[chain[i]];
    Clashes(s, d, Pivot(s, d))
  }

  /** The chain resolves to a subset of the goal, with a single clash at every step. */
  ghost predicate ChainOk(clauses: seq<Clause>, chain: seq<nat>, goal: set<int>) {
    && Known(clauses, chain)
    && (forall i {:trigger StepOk(clauses, chain, i)} :: 0 <= i < |chain| - 1 ==> StepOk(clauses, chain, i))
    && After(clauses, chain, 0).literals <= goal
  }

  /** The marks are exactly the resolvent and both signs of every pivot. */
  ghost predicate MarksAre(m: Marker, s: Resolution)
    reads m
  {
    forall l {:trigger m.IsMarked(l)} :: l != 0 ==> (m.IsMarked(l) <==> l in s.literals || Abs(l) in s.pivots)
  }

  // ------------------------------------------------ the tracer

  /** One partial interpolant per enabled construction. */
  type CraigData = seq<Edge>

  /** The enabled constructions side by side, each with a graph of its own. */
  class Columns {
    const columns: seq<Column>

    ghost predicate Separate() {
      forall i, j :: 0 <= i < j < |columns| ==> columns[i] != columns[j] && columns[i].aig != columns[j].aig
    }

    ghost function Graphs(): set<object> { set k | 0 <= k < |columns| :: columns[k].aig }

    ghost function Lists(): set<object> { set k | 0 <= k < |columns| :: columns[k] }

    ghost function Objects(): set<object> { Graphs() + Lists() }

    ghost predicate Fit(labels: Labels, proofs: seq<Proof>)
      reads Objects()
    {
      Separate() && forall k :: 0 <= k < |columns| ==> columns[k].Fits(labels, proofs)
    }

    constructor (enabled: seq<Construction>)
      ensures |columns| == |enabled| && forall k :: 0 <= k < |columns| ==> columns[k].kind == enabled[k]
      ensures forall labels :: Fit(labels, [])
      ensures fresh(Objects())
    {
      var made: seq<Column> := [];
      for n := 0 to |enabled|
        invariant |made| == n && forall k :: 0 <= k < n ==> made[k].kind == enabled[k]
        invariant forall k :: 0 <= k < n ==> fresh(made[k]) && fresh(made[k].aig)
        invariant forall i, j :: 0 <= i < j < n ==> made[i] != made[j] && made[i].aig != made[j].aig
        invariant forall labels, k :: 0 <= k < n ==> made[k].Fits(labels, [])
      {
        var column := new Column(enabled[n]);
        made := made + [column];
      }
      columns := made;
    }

    method AddOriginal(labels: Labels, c: Clause, ty: ClauseType, ghost proofs: seq<Proof>)
      requires Fit(labels, proofs) && forall l :: l in c ==> Labelled(labels, l)
      modifies Objects()
      ensures Fit(labels, proofs + [Original(c, ty)])
    {
      for n := 0 to |columns|
        invariant forall k :: 0 <= k < n ==> columns[k].Fits(labels, proofs + [Original(c, ty)])
        invariant forall k :: n <= k < |columns| ==> columns[k].Fits(labels, proofs)
      {
        columns[n].AddOriginal(labels, c, ty, proofs);
      }
    }

    /** The data stands for the proof in every enabled construction. */
    ghost predicate AllStand(labels: Labels, data: CraigData, p: Proof)
      reads Graphs()
    {
      |data| == |columns| && forall k :: 0 <= k < |columns| ==> columns[k].Holds(labels, data[k], p)
    }

    /** The data of clause i. */
    method Copy(labels: Labels, i: nat, ghost proofs: seq<Proof>) returns (data: CraigData)
      requires Fit(labels, proofs) && i < |proofs|
      ensures AllStand(labels, data, proofs[i])
    {
      data := [];
      for n := 0 to |columns|
        invariant |data| == n && forall k :: 0 <= k < n ==> columns[k].Holds(labels, data[k], proofs[i])
      {
        data := data + [columns[n].edges[i]];
      }
    }

    method Extend(labels: Labels, lit: int, data: CraigData, j: nat, ghost p: Proof, ghost proofs: seq<Proof>) returns (more: CraigData)
      requires Fit(labels, proofs) && j < |proofs| && Labelled(labels, lit) && AllStand(labels, data, p)
      modifies Graphs()
      ensures Fit(labels, proofs) && AllStand(labels, more, Resolve(p, lit, proofs[j]))
    {
      more := [];
      for n := 0 to |columns|
        invariant Fit(labels, proofs) && |more| == n
        invariant forall k :: 0 <= k < n ==> columns[k].Holds(labels, more[k], Resolve(p, lit, proofs[j]))
        invariant forall k :: n <= k < |columns| ==> columns[k].Holds(labels, data[k], p)
      {
        var e := columns[n].Extend(labels, lit, data[n], j, p, proofs);
        more := more + [e];
      }
    }

    method Store(labels: Labels, data: CraigData, ghost p: Proof, ghost literals: set<int>, ghost proofs: seq<Proof>)
      requires Fit(labels, proofs) && AllStand(labels, data, p)
      modifies Lists()
      ensures Fit(labels, proofs + [Weaken(p, literals)])
    {
      for n := 0 to |columns|
        invariant forall k :: n <= k < |columns| ==> columns[k].Holds(labels, data[k], p)
        invariant forall k :: 0 <= k < n ==> columns[k].Fits(labels, proofs + [Weaken(p, literals)])
        invariant forall k :: n <= k < |columns| ==> columns[k].Fits(labels, proofs)
      {
        columns[n].Store(labels, data[n], p, literals, proofs);
      }
    }

    /** Marks a literal of clause j and resolves on it if its negation was marked. */
    method VisitLiteral(labels: Labels, marker: Marker, data: CraigData, lit: int, j: nat, ghost p: Proof, ghost proofs: seq<Proof>)
      returns (more: CraigData, ghost q: Proof)
      requires Fit(labels, proofs) && j < |proofs| && Labelled(labels, lit) && AllStand(labels, data, p)
      requires marker.Valid()
      modifies Graphs(), marker
      ensures marker.Valid() && forall k :: k != 0 ==> (marker.IsMarked(k) <==> k == lit || old(marker.IsMarked(k)))
      ensures q == if old(marker.IsMarked(-lit)) then Resolve(p, -lit, proofs[j]) else p
      ensures Fit(labels, proofs) && AllStand(labels, more, q)
    {
      var inverse := marker.MarkLiteral(lit);
      more, q := data, p;
      if inverse {
        q := Resolve(p, -lit, proofs[j]);
        more := Extend(labels, -lit, data, j, p, proofs);
      }
    }

    /** Resolves with clause j, whose literals are d: the pivot is the literal whose negation is marked. */
    method ResolveWith(labels: Labels, marker: Marker, data: CraigData, d: Clause, j: nat, ghost p: Proof, ghost proofs: seq<Proof>,
                       ghost s: Resolution, ghost pivot: int)
      returns (more: CraigData)
      requires Fit(labels, proofs) && j < |proofs| && AllStand(labels, data, p)
      requires Clashes(s, d, pivot) && forall l :: l in d ==> Labelled(labels, l)
      requires marker.Valid() && MarksAre(marker, s)
      modifies Graphs(), marker
      ensures Fit(labels, proofs) && AllStand(labels, more, Resolve(p, -pivot, proofs[j]))
      ensures marker.Valid() && MarksAre(marker, Resolvent(s, d, pivot))
    {
      more := data;
      ghost var q := p;
      for k := 0 to |d|
        invariant Fit(labels, proofs) && marker.Valid()
        invariant MarksAre(marker, Half(s, d, k))
        invariant q == if pivot in d[..k] then Resolve(p, -pivot, proofs[j]) else p
        invariant AllStand(labels, more, q)
      {
        NextMark(s, d, pivot, k);
        more, q := VisitLiteral(labels, marker, more, d[k], j, q, proofs);
      }
      AllMarked(s, d, pivot);
    }
  }

  /** What is marked after k literals of a clause. */
  ghost function Half(s: Resolution, d: Clause, k: nat): Resolution
    requires k <= |d|
  {
    Resolution(s.literals + Literals(d[..k]), s.pivots)
  }

  /** Before literal k: its negation is marked just when it is the pivot. */
  lemma NextMark(s: Resolution, d: Clause, pivot: int, k: nat)
    requires Clashes(s, d, pivot) && k < |d|
    ensures d[k] != 0 && Abs(d[k]) !in s.pivots
    ensures -d[k] in Half(s, d, k).literals <==> d[k] == pivot
    ensures pivot !in d[..k] || d[k] != pivot
    ensures Half(s, d, k + 1) == Half(s, d, k).(literals := Half(s, d, k).literals + {d[k]})
    ensures pivot in d[..k + 1] <==> pivot in d[..k] || pivot == d[k]
  {
    assert d[..k + 1] == d[..k] + [d[k]] && d[k] in d;
    assert forall l :: l in d[..k] ==> l in d;
  }

  lemma AllMarked(s: Resolution, d: Clause, pivot: int)
    requires Clashes(s, d, pivot)
    ensures d[..|d|] == d
    ensures forall l :: l in Half(s, d, |d|).literals || Abs(l) in s.pivots
                   <==> l in Resolvent(s, d, pivot).literals || Abs(l) in Resolvent(s, d, pivot).pivots
  {
    assert d[..|d|] == d;
  }

  /** The clauses given for A and for B, and the proof of every clause. */
  datatype Trace = Trace(a: seq<Clause>, b: seq<Clause>, proofs: seq<Proof>)

  /** Every clause has a proof from A and B, and its literals are labelled. */
  ghost predicate ProofsOk(labels: Labels, a: seq<Clause>, b: seq<Clause>, proofs: seq<Proof>, clauses: seq<Clause>) {
    && |proofs| == |clauses|
    && (forall i :: 0 <= i < |proofs| ==> ProofOk(labels, a, b, proofs[i]) && Conclusion(proofs[i]) == Literals(clauses[i]))
    && (forall i, l :: 0 <= i < |clauses| && l in clauses[i] ==> Labelled(labels, l))
  }

  lemma AddProof(labels: Labels, a: seq<Clause>, b: seq<Clause>, a': seq<Clause>, b': seq<Clause>, proofs: seq<Proof>, clauses: seq<Clause>, p: Proof, c: Clause)
    requires ProofsOk(labels, a, b, proofs, clauses) && a <= a' && b <= b'
    requires ProofOk(labels, a', b', p) && Conclusion(p) == Literals(c) && forall l :: l in c ==> Labelled(labels, l)
    ensures ProofsOk(labels, a', b', proofs + [p], clauses + [c])
  {
    forall i | 0 <= i < |proofs| ensures ProofOk(labels, a', b', proofs[i]) {
      ProofGrows(labels, a, b, a', b', proofs[i]);
    }
  }

  /** The proof of what is left of a chain. */
  ghost function ChainProof(clauses: seq<Clause>, proofs: seq<Proof>, chain: seq<nat>, i: nat): Proof
    requires Known(clauses, chain) && i < |chain| && |proofs| == |clauses|
    decreases |chain| - i
  {
    if i == |chain| - 1 then proofs[chain[i]]
    else
      Resolve(ChainProof(clauses, proofs, chain, i + 1), -Pivot(After(clauses, chain, i + 1), clauses[chain[i]]), proofs[chain[i]])
  }

  /** A derived clause rests on the leaves of exactly the clauses of its chain. */
  lemma {:induction false} ChainLeaves(clauses: seq<Clause>, proofs: seq<Proof>, chain: seq<nat>, i: nat, q: Proof)
    requires Known(clauses, chain) && i < |chain| && |proofs| == |clauses|
    ensures q in LeafForms.Leaves(ChainProof(clauses, proofs, chain, i)) <==>
      exists k :: i <= k < |chain| && q in LeafForms.Leaves(proofs[chain[k]])
    decreases |chain| - i
  {
    if i < |chain| - 1 { ChainLeaves(clauses, proofs, chain, i + 1, q); }
  }

  /** Clause i of the chain is the next to resolve with. */
  lemma StepProof(labels: Labels, t: Trace, clauses: seq<Clause>, chain: seq<nat>, i: nat, p: Proof, goal: set<int>)
    requires ProofsOk(labels, t.a, t.b, t.proofs, clauses) && ChainOk(clauses, chain, goal)
    requires i < |chain| - 1 && ProofOk(labels, t.a, t.b, p) && Conclusion(p) == After(clauses, chain, i + 1).literals
    ensures chain[i] < |clauses|
    ensures var s, d := After(clauses, chain, i + 1), clauses[chain[i]];
            var pivot := Pivot(s, d);
            var q := Resolve(p, -pivot, t.proofs[chain[i]]);
            && Clashes(s, d, pivot) && Labelled(labels, pivot)
            && After(clauses, chain, i) == Resolvent(s, d, pivot)
            && ProofOk(labels, t.a, t.b, q) && Conclusion(q) == After(clauses, chain, i).literals
  {
    assert StepOk(clauses, chain, i);
    var pivot := Pivot(After(clauses, chain, i + 1), clauses[chain[i]]);
    assert Labelled(labels, pivot) && Labelled(labels, -pivot) && - -pivot == pivot;
  }

  class CraigTracer {
    const labels: Labels
    const columns: Columns
    const marker: Marker
    var clauses: seq<Clause>
    ghost var trace: Trace

    ghost function Repr(): set<object> { columns.Objects() + {marker} }

    ghost predicate Valid()
      reads this, Repr()
    {
      && columns.Fit(labels, trace.proofs) && ProofsOk(labels, trace.a, trace.b, trace.proofs, clauses)
      && marker.Valid() && MarksAre(marker, Resolution({}, {}))
    }

    constructor (labels: Labels, enabled: seq<Construction>)
      ensures Valid() && this.labels == labels && fresh(Repr())
      ensures clauses == [] && trace == Trace([], [], [])
    {
      this.labels, clauses, trace := labels, [], Trace([], [], []);
      columns := new Columns(enabled);
      marker := new Marker();
    }

    /** A clause of A or of B, with its partial interpolant in every enabled construction. */
    method AddOriginalClause(c: Clause, ty: ClauseType)
      requires Valid() && ty != L_CLAUSE && Consistent(labels, c, ty)
      modifies this, Repr()
      ensures Valid() && clauses == old(clauses) + [c]
      ensures trace.a == old(trace.a) + (if ty == A_CLAUSE then [c] else [])
      ensures trace.b == old(trace.b) + (if ty == A_CLAUSE then [] else [c])
      ensures trace.proofs == old(trace.proofs) + [Original(c, ty)]
    {
      ghost var before := trace;
      ghost var after := Trace(before.a + (if ty == A_CLAUSE then [c] else []), before.b + (if ty == A_CLAUSE then [] else [c]),
                               before.proofs + [Original(c, ty)]);
      AddProof(labels, before.a, before.b, after.a, after.b, before.proofs, clauses, Original(c, ty), c);
      columns.AddOriginal(labels, c, ty, before.proofs);
      clauses, trace := clauses + [c], after;
    }

    method MarkAll(c: Clause)
      requires marker.Valid() && MarksAre(marker, Resolution({}, {})) && forall l :: l in c ==> l != 0
      modifies marker
      ensures marker.Valid() && MarksAre(marker, Resolution(Literals(c), {}))
    {
      for k := 0 to |c|
        invariant marker.Valid() && MarksAre(marker, Resolution(Literals(c[..k]), {}))
      {
        assert c[..k + 1] == c[..k] + [c[k]] && c[k] in c;
        var _ := marker.MarkLiteral(c[k]);
      }
      assert c[..|c|] == c;
    }

    /** In the middle of a chain: p is the proof of the resolvent, data its partial interpolants. */
    ghost predicate Running(chain: seq<nat>, i: nat, data: CraigData, p: Proof)
      reads this, Repr()
    {
      && Known(clauses, chain) && i < |chain| && Conclusion(p) == After(clauses, chain, i).literals
      && |trace.proofs| == |clauses| && p == ChainProof(clauses, trace.proofs, chain, i)
      && marker.Valid() && MarksAre(marker, After(clauses, chain, i))
      && ProofsOk(labels, trace.a, trace.b, trace.proofs, clauses) && ProofOk(labels, trace.a, trace.b, p)
      && columns.Fit(labels, trace.proofs) && columns.AllStand(labels, data, p)
    }

    method StartChain(chain: seq<nat>, ghost goal: set<int>) returns (data: CraigData, ghost p: Proof)
      requires Valid() && ChainOk(clauses, chain, goal)
      modifies Repr()
      ensures clauses == old(clauses) && trace == old(trace) && Running(chain, |chain| - 1, data, p)
    {
      var last := chain[|chain| - 1];
      assert forall l :: l in clauses[last] ==> Labelled(labels, l);
      data := columns.Copy(labels, last, trace.proofs);
      p := trace.proofs[last];
      MarkAll(clauses[last]);
    }

    method ResolveNext(chain: seq<nat>, i: nat, ghost goal: set<int>, data: CraigData, ghost p: Proof)
      returns (more: CraigData, ghost q: Proof)
      requires 0 < i && Running(chain, i, data, p) && ChainOk(clauses, chain, goal)
      modifies Repr()
      ensures clauses == old(clauses) && trace == old(trace) && Running(chain, i - 1, more, q)
    {
      StepProof(labels, trace, clauses, chain, i - 1, p, goal);
      var j := chain[i - 1];
      ghost var s := After(clauses, chain, i);
      ghost var pivot := Pivot(s, clauses[j]);
      q := Resolve(p, -pivot, trace.proofs[j]);
      more := columns.ResolveWith(labels, marker, data, clauses[j], j, p, trace.proofs, s, pivot);
    }

    /** Resolves with all clauses of the chain but the last, backwards. */
    method ResolveBackwards(chain: seq<nat>, ghost goal: set<int>, start: CraigData, ghost p0: Proof) returns (data: CraigData, ghost p: Proof)
      requires ChainOk(clauses, chain, goal) && Running(chain, |chain| - 1, start, p0)
      modifies Repr()
      ensures clauses == old(clauses) && trace == old(trace) && Running(chain, 0, data, p)
    {
      data, p := start, p0;
      var i: nat := |chain| - 1;
      while i > 0
        invariant clauses == old(clauses) && trace == old(trace)
        invariant true == Running(chain, i, data, p)  // compared as a whole, not unfolded
      {
        data, p := ResolveNext(chain, i, goal, data, p);
        i := i - 1;
      }
    }

    /** The partial interpolants of the last clause of the chain resolved with the others. */
    method ResolveChain(chain: seq<nat>, ghost goal: set<int>) returns (data: CraigData, ghost p: Proof)
      requires Valid() && ChainOk(clauses, chain, goal)
      modifies Repr()
      ensures Valid() && columns.AllStand(labels, data, p) && clauses == old(clauses) && trace == old(trace)
      ensures ProofOk(labels, trace.a, trace.b, p) && Conclusion(p) <= goal && p == ChainProof(clauses, trace.proofs, chain, 0)
    {
      data, p := StartChain(chain, goal);
      data, p := ResolveBackwards(chain, goal, data, p);
      marker.UnmarkAll();
    }

    /** A clause derived by resolving the clauses of the chain. */
    method AddDerivedClause(c: Clause, chain: seq<nat>)
      requires Valid() && (forall l :: l in c ==> Labelled(labels, l))
      requires ChainOk(clauses, chain, Literals(c))
      modifies this, Repr()
      ensures Valid() && clauses == old(clauses) + [c]
      ensures trace == old(Trace(trace.a, trace.b, trace.proofs + [Weaken(ChainProof(clauses, trace.proofs, chain, 0), Literals(c))]))
    {
      ghost var before := trace;
      var data, p := ResolveChain(chain, Literals(c));
      ghost var q := Weaken(p, Literals(c));
      columns.Store(labels, data, p, Literals(c), before.proofs);
      AddProof(labels, before.a, before.b, before.a, before.b, before.proofs, clauses, q, c);
      clauses, trace := clauses + [c], Trace(before.a, before.b, before.proofs + [q]);
    }

    /** What every stored partial interpolant means: A entails the A-part of the clause or the
        partial interpolant, B entails the B-part or its negation, and only global variables matter.
        The dual symmetric construction stores the negation. */
    lemma {:induction false} ClauseInvariant(i: nat, k: nat, v: Valuation, w: Valuation)
      requires Valid() && i < |clauses| && k < |columns.columns|
      ensures
        var column := columns.columns[k];
        && |column.edges| == |clauses| && EdgeIn(column.edges[i], |column.aig.nodes|)
        && var kind := if column.kind == DUAL_SYMMETRIC then SYMMETRIC else column.kind;
           var F := column.InterpolantOf(column.edges[i]);
           && (Models(v, trace.a) ==> v in F || SomeOnA(kind, labels, Literals(clauses[i]), v))
           && (Models(v, trace.b) ==> v !in F || SomeOnB(kind, labels, Literals(clauses[i]), v))
           && (v * Globals(labels) == w * Globals(labels) ==> (v in F <==> w in F))
    {
      var column, p := columns.columns[k], trace.proofs[i];
      assert column.Fits(labels, trace.proofs);
      assert Stands(column.kind, labels, column.aig.nodes, column.edges[i], p);
      if column.kind == DUAL_SYMMETRIC {
        DualIsNegation(labels, trace.a, trace.b, p, v);
        PartialSound(SYMMETRIC, labels, trace.a, trace.b, p, v);
      } else {
        PartialSound(column.kind, labels, trace.a, trace.b, p, v);
      }
      if v * Globals(labels) == w * Globals(labels) {
        EdgeDepends(column.aig.nodes, column.edges[i], Globals(labels), v, w);
      }
    }

    /** Every enabled construction gives an interpolant of A and B. */
    ghost predicate Concluded(data: CraigData)
      reads this, columns.Graphs()
    {
      && |data| == |columns.columns|
      && forall k {:trigger data[k]} :: 0 <= k < |data| ==>
           var column := columns.columns[k];
           && column.aig.Valid() && EdgeIn(data[k], |column.aig.nodes|)
           && IsInterpolant(column.InterpolantOf(data[k]), Globals(labels), trace.a, trace.b)
    }

    /** The conclusion from an empty clause. */
    method ConcludeUnsat(i: nat) returns (data: CraigData)
      requires Valid() && i < |clauses| && clauses[i] == []
      ensures Concluded(data) && ProofOk(labels, trace.a, trace.b, trace.proofs[i]) && Conclusion(trace.proofs[i]) == {}
      ensures forall k, v :: 0 <= k < |data| ==>
        (v in columns.columns[k].InterpolantOf(data[k]) <==> Interpolant(columns.columns[k].kind, labels, trace.proofs[i], v))
    {
      ghost var p := trace.proofs[i];
      data := columns.Copy(labels, i, trace.proofs);
      assert ProofOk(labels, trace.a, trace.b, p) && Conclusion(p) == {};
      forall k | 0 <= k < |data|
        ensures IsInterpolant(columns.columns[k].InterpolantOf(data[k]), Globals(labels), trace.a, trace.b)
      {
        columns.columns[k].RefutationInterpolates(labels, trace.a, trace.b, data[k], p);
      }
    }
  }
}
