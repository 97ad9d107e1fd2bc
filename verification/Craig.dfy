/** The interpolation tracer: follows the solver's proof and updates one partial
    interpolant per construction for every clause. */
module Craig {
  import opened Sat
  import opened Aigs
  import opened Interpolation

  /** The edge stands for the partial interpolant of the proof and depends on global variables only. */
  ghost predicate Stands(kind: Construction, labels: Labels, nodes: seq<Node>, e: Edge, p: Proof)
    requires NodesOk(nodes)
  {
    && EdgeIn(e, |nodes|)
    && (forall v :: Value(nodes, e, v) == Partial(kind, labels, p, v))
    && Uses(nodes, e, Globals(labels))
  }

  lemma {:induction false} StillStands(kind: Construction, labels: Labels, old_: seq<Node>, nodes: seq<Node>, e: Edge, p: Proof)
    requires NodesOk(old_) && NodesOk(nodes) && old_ <= nodes && Stands(kind, labels, old_, e, p)
    ensures Stands(kind, labels, nodes, e, p)
  {
    Grows(old_, nodes, e);
  }

  /** The global literals of a clause, negated if asked. */
  method GlobalEdges(aig: Aig, labels: Labels, c: Clause, negate: bool) returns (edges: seq<Edge>)
    requires aig.Valid() && forall l :: l in c ==> Labelled(labels, l)
    modifies aig
    ensures aig.Valid() && old(aig.nodes) <= aig.nodes && EdgesIn(edges, |aig.nodes|)
    ensures AllUse(aig.nodes, edges, Globals(labels))
    ensures !negate ==> forall v :: SomeValue(aig.nodes, edges, v) <==> SomeGlobal(labels, c, v)
    ensures negate ==> forall v :: AllValue(aig.nodes, edges, v) <==> !SomeGlobal(labels, c, v)
  {
    edges := [];
    for k := 0 to |c|
      invariant aig.Valid() && old(aig.nodes) <= aig.nodes && EdgesIn(edges, |aig.nodes|)
      invariant AllUse(aig.nodes, edges, Globals(labels))
      invariant !negate ==> forall v :: SomeValue(aig.nodes, edges, v) <==> SomeGlobal(labels, c[..k], v)
      invariant negate ==> forall v :: AllValue(aig.nodes, edges, v) <==> !SomeGlobal(labels, c[..k], v)
    {
      NextGlobal(labels, c, k);
      if LabelOf(labels, c[k]) == GLOBAL {
        edges := AppendLiteral(aig, edges, if negate then -c[k] else c[k], Globals(labels));
      }
    }
    assert c[..|c|] == c;
  }

  method AppendLiteral(aig: Aig, edges: seq<Edge>, lit: int, ghost G: set<int>) returns (more: seq<Edge>)
    requires aig.Valid() && EdgesIn(edges, |aig.nodes|) && AllUse(aig.nodes, edges, G) && lit != 0 && Abs(lit) in G
    modifies aig
    ensures aig.Valid() && old(aig.nodes) <= aig.nodes && EdgesIn(more, |aig.nodes|) && AllUse(aig.nodes, more, G)
    ensures forall v :: SomeValue(aig.nodes, more, v) <==> SomeValue(old(aig.nodes), edges, v) || True(v, lit)
    ensures forall v :: AllValue(aig.nodes, more, v) <==> AllValue(old(aig.nodes), edges, v) && True(v, lit)
  {
    ghost var before := aig.nodes;
    var e := aig.CreateLiteral(lit);
    GrowAll(before, aig.nodes, edges);
    GrowSome(before, aig.nodes, edges);
    AppendAll(aig.nodes, edges, e);
    AppendSome(aig.nodes, edges, e);
    more := edges + [e];
  }

  lemma NextGlobal(labels: Labels, c: Clause, k: nat)
    requires k < |c| && Labelled(labels, c[k])
    ensures c[k] in c
    ensures forall v :: SomeGlobal(labels, c[..k + 1], v) <==>
      SomeGlobal(labels, c[..k], v) || (LabelOf(labels, c[k]) == GLOBAL && True(v, c[k]))
  {
    assert forall l :: l in c[..k + 1] <==> l in c[..k] || l == c[k];
    assert c[k] in c[..k + 1];
  }

  lemma {:induction false} GrowSome(old_: seq<Node>, nodes: seq<Node>, edges: seq<Edge>)
    requires NodesOk(old_) && NodesOk(nodes) && old_ <= nodes && EdgesIn(edges, |old_|)
    ensures EdgesIn(edges, |nodes|)
    ensures forall v :: SomeValue(nodes, edges, v) == SomeValue(old_, edges, v)
  {
    forall j | 0 <= j < |edges| ensures EdgeIn(edges[j], |nodes|) && forall v :: Value(nodes, edges[j], v) == Value(old_, edges[j], v) {
      Grows(old_, nodes, edges[j]);
    }
  }

  lemma {:induction false} AppendSome(nodes: seq<Node>, edges: seq<Edge>, e: Edge)
    requires NodesOk(nodes) && EdgesIn(edges, |nodes|) && EdgeIn(e, |nodes|)
    ensures EdgesIn(edges + [e], |nodes|)
    ensures forall v :: SomeValue(nodes, edges + [e], v) <==> SomeValue(nodes, edges, v) || Value(nodes, e, v)
  {
    var more := edges + [e];
    assert more[|edges|] == e && forall j :: 0 <= j < |edges| ==> more[j] == edges[j];
  }

  /** The partial interpolant of an original clause. */
  method CreateForClause(kind: Construction, aig: Aig, labels: Labels, c: Clause, ty: ClauseType) returns (e: Edge)
    requires aig.Valid() && forall l :: l in c ==> Labelled(labels, l)
    modifies aig
    ensures aig.Valid() && old(aig.nodes) <= aig.nodes
    ensures Stands(kind, labels, aig.nodes, e, Original(c, ty))
  {
    e := TRUE;
    match kind {
      case SYMMETRIC =>
        if ty == A_CLAUSE { e := FALSE; }
      case ASYMMETRIC =>
        if ty == A_CLAUSE {
          var literals := GlobalEdges(aig, labels, c, false);
          e := aig.CreateOrAll(literals);
        }
      case DUAL_SYMMETRIC =>
        if ty == B_CLAUSE { e := FALSE; }
      case DUAL_ASYMMETRIC =>
        if ty == A_CLAUSE {
          e := FALSE;
        } else if ty == B_CLAUSE {
          var literals := GlobalEdges(aig, labels, c, true);
          e := aig.CreateAndAll(literals);
        }
    }
  }

  /** The partial interpolant of a resolvent on lit, a literal of the first clause. */
  method ExtendWithResolution(kind: Construction, aig: Aig, labels: Labels, lit: int, a: Edge, b: Edge, ghost p: Proof, ghost q: Proof) returns (e: Edge)
    requires aig.Valid() && Labelled(labels, lit)
    requires Stands(kind, labels, aig.nodes, a, p) && Stands(kind, labels, aig.nodes, b, q)
    modifies aig
    ensures aig.Valid() && old(aig.nodes) <= aig.nodes
    ensures Stands(kind, labels, aig.nodes, e, Resolve(p, lit, q))
  {
    var t := LabelOf(labels, lit);
    match kind {
      case SYMMETRIC =>
        if t == A_LOCAL {
          e := aig.CreateOr(a, b);
        } else if t == B_LOCAL {
          e := aig.CreateAnd(a, b);
        } else {
          e := Mux(aig, labels, lit, a, b, true);
        }
      case ASYMMETRIC =>
        if t == A_LOCAL { e := aig.CreateOr(a, b); } else { e := aig.CreateAnd(a, b); }
      case DUAL_SYMMETRIC =>
        if t == A_LOCAL {
          e := aig.CreateAnd(a, b);
        } else if t == B_LOCAL {
          e := aig.CreateOr(a, b);
        } else {
          e := Mux(aig, labels, lit, a, b, false);
        }
      case DUAL_ASYMMETRIC =>
        if t == B_LOCAL { e := aig.CreateAnd(a, b); } else { e := aig.CreateOr(a, b); }
    }
  }

  /** For a global pivot: (a or lit) and (b or -lit), or dually (a and -lit) or (b and lit). */
  method Mux(aig: Aig, labels: Labels, lit: int, a: Edge, b: Edge, conjunctive: bool) returns (e: Edge)
    requires aig.Valid() && EdgeIn(a, |aig.nodes|) && EdgeIn(b, |aig.nodes|)
    requires Labelled(labels, lit) && LabelOf(labels, lit) == GLOBAL
    requires Uses(aig.nodes, a, Globals(labels)) && Uses(aig.nodes, b, Globals(labels))
    modifies aig
    ensures aig.Valid() && old(aig.nodes) <= aig.nodes && EdgeIn(e, |aig.nodes|)
    ensures conjunctive ==> forall v :: Value(aig.nodes, e, v) <==>
      (Value(old(aig.nodes), a, v) || True(v, lit)) && (Value(old(aig.nodes), b, v) || True(v, -lit))
    ensures !conjunctive ==> forall v :: Value(aig.nodes, e, v) <==>
      (Value(old(aig.nodes), a, v) && True(v, -lit)) || (Value(old(aig.nodes), b, v) && True(v, lit))
    ensures Uses(aig.nodes, e, Globals(labels))
  {
    ghost var n0 := aig.nodes;
    var left := WithLiteral(aig, labels, if conjunctive then lit else -lit, a, conjunctive);
    Grows(n0, aig.nodes, b);
    ghost var n1 := aig.nodes;
    var right := WithLiteral(aig, labels, if conjunctive then -lit else lit, b, conjunctive);
    Grows(n1, aig.nodes, left);
    if conjunctive { e := aig.CreateAnd(left, right); } else { e := aig.CreateOr(left, right); }
  }

  /** Joins an edge with a global literal. */
  method WithLiteral(aig: Aig, labels: Labels, lit: int, a: Edge, disjoin: bool) returns (e: Edge)
    requires aig.Valid() && EdgeIn(a, |aig.nodes|) && Uses(aig.nodes, a, Globals(labels))
    requires Labelled(labels, lit) && LabelOf(labels, lit) == GLOBAL
    modifies aig
    ensures aig.Valid() && old(aig.nodes) <= aig.nodes && EdgeIn(e, |aig.nodes|)
    ensures disjoin ==> forall v :: Value(aig.nodes, e, v) <==> Value(old(aig.nodes), a, v) || True(v, lit)
    ensures !disjoin ==> forall v :: Value(aig.nodes, e, v) <==> Value(old(aig.nodes), a, v) && True(v, lit)
    ensures Uses(aig.nodes, e, Globals(labels))
  {
    ghost var before := aig.nodes;
    var l := aig.CreateLiteral(lit);
    Grows(before, aig.nodes, a);
    if disjoin { e := aig.CreateOr(a, l); } else { e := aig.CreateAnd(a, l); }
  }

  // ------------------------------------------------ one construction

  /** One enabled construction: its graph and the partial interpolants of all clauses so far. */
  class Column {
    const kind: Construction
    const aig: Aig
    var edges: seq<Edge>

    /** The edge stands for the partial interpolant of the proof. */
    ghost predicate Holds(labels: Labels, e: Edge, p: Proof)
      reads aig
    {
      aig.Valid() && Stands(kind, labels, aig.nodes, e, p)
    }

    /** The edges stand for the partial interpolants of the proofs. */
    ghost predicate Fits(labels: Labels, proofs: seq<Proof>)
      reads this, aig
    {
      aig.Valid() && |edges| == |proofs| && forall i :: 0 <= i < |edges| ==> Stands(kind, labels, aig.nodes, edges[i], proofs[i])
    }

    /** The function of the interpolant at the empty clause; the dual symmetric one is inverted. */
    ghost function InterpolantOf(e: Edge): iset<Valuation>
      requires aig.Valid() && EdgeIn(e, |aig.nodes|)
      reads aig
    {
      iset v: Valuation | Value(aig.nodes, e, v) != (kind == DUAL_SYMMETRIC)
    }

    /** An edge that stands for a refutation gives an interpolant. */
    lemma {:induction false} RefutationInterpolates(labels: Labels, a: seq<Clause>, b: seq<Clause>, e: Edge, p: Proof)
      requires Holds(labels, e, p) && ProofOk(labels, a, b, p) && Conclusion(p) == {}
      ensures IsInterpolant(InterpolantOf(e), Globals(labels), a, b)
    {
      forall v ensures Models(v, a) ==> v in InterpolantOf(e) {
        Interpolates(kind, labels, a, b, p, v);
      }
      forall v ensures v in InterpolantOf(e) ==> !Models(v, b) {
        Interpolates(kind, labels, a, b, p, v);
      }
      forall v, w | v in InterpolantOf(e) && v * Globals(labels) == w * Globals(labels) ensures w in InterpolantOf(e) {
        EdgeDepends(aig.nodes, e, Globals(labels), v, w);
      }
    }

    constructor (kind: Construction)
      ensures this.kind == kind && fresh(aig)
      ensures forall labels :: Fits(labels, [])
    {
      this.kind, edges := kind, [];
      aig := new Aig();
    }

    method AddOriginal(labels: Labels, c: Clause, ty: ClauseType, ghost proofs: seq<Proof>)
      requires Fits(labels, proofs) && forall l :: l in c ==> Labelled(labels, l)
      modifies this, aig
      ensures Fits(labels, proofs + [Original(c, ty)])
    {
      ghost var before := aig.nodes;
      var e := CreateForClause(kind, aig, labels, c, ty);
      AllStillStand(labels, before, proofs);
      edges := edges + [e];
    }

    lemma AllStillStand(labels: Labels, before: seq<Node>, proofs: seq<Proof>)
      requires aig.Valid() && NodesOk(before) && before <= aig.nodes && |edges| == |proofs|
      requires forall i :: 0 <= i < |edges| ==> Stands(kind, labels, before, edges[i], proofs[i])
      ensures forall i :: 0 <= i < |edges| ==> Stands(kind, labels, aig.nodes, edges[i], proofs[i])
    {
      forall i | 0 <= i < |edges| ensures Stands(kind, labels, aig.nodes, edges[i], proofs[i]) {
        StillStands(kind, labels, before, aig.nodes, edges[i], proofs[i]);
      }
    }

    /** Resolves the current partial interpolant with that of clause j. */
    method Extend(labels: Labels, lit: int, current: Edge, j: nat, ghost p: Proof, ghost proofs: seq<Proof>) returns (e: Edge)
      requires Fits(labels, proofs) && j < |proofs| && Labelled(labels, lit) && Holds(labels, current, p)
      modifies aig
      ensures Fits(labels, proofs) && Holds(labels, e, Resolve(p, lit, proofs[j]))
    {
      ghost var before := aig.nodes;
      e := ExtendWithResolution(kind, aig, labels, lit, current, edges[j], p, proofs[j]);
      AllStillStand(labels, before, proofs);
    }

    /** Records the partial interpolant of a new clause. */
    method Store(labels: Labels, e: Edge, ghost p: Proof, ghost literals: set<int>, ghost proofs: seq<Proof>)
      requires Fits(labels, proofs) && Holds(labels, e, p)
      modifies this
      ensures Fits(labels, proofs + [Weaken(p, literals)])
    {
      edges := edges + [e];
    }
  }

  // ------------------------------------------------ marked literals

  datatype Marks = Marks(pos: bool, neg: bool)

  class Marker {
    var marks: map<int, Marks>
    var history: seq<int>

    /** Every marked variable is in the history. */
    ghost predicate Valid()
      reads this
    {
      forall x :: x in marks && marks[x] != Marks(false, false) ==> x in history
    }

    predicate IsMarked(l: int)
      reads this
    {
      Abs(l) in marks && if l < 0 then marks[Abs(l)].neg else marks[Abs(l)].pos
    }

    constructor ()
      ensures Valid() && forall l :: !IsMarked(l)
    {
      marks, history := map[], [];
    }

    /** Marks the literal; true if its negation was marked before. */
    method MarkLiteral(l: int) returns (inverse: bool)
      requires Valid() && l != 0
      modifies this
      ensures Valid() && inverse == old(IsMarked(-l))
      ensures forall k :: k != 0 ==> (IsMarked(k) <==> k == l || old(IsMarked(k)))
    {
      var index := Abs(l);
      var was := if index in marks then marks[index] else Marks(false, false);
      if was == Marks(false, false) { history := history + [index]; }
      inverse := if l < 0 then was.pos else was.neg;
      marks := marks[index := if l < 0 then Marks(was.pos, true) else Marks(true, was.neg)];
      assert index in history;
    }

    method UnmarkAll()
      requires Valid()
      modifies this
      ensures Valid() && forall l :: !IsMarked(l)
    {
      for k := 0 to |history|
        invariant history == old(history)
        invariant forall x :: x in marks && marks[x] != Marks(false, false) ==> x in history[k..]
      {
        assert forall x :: x in history[k..] <==> x == history[k] || x in history[k + 1..];
        marks := marks[history[k] := Marks(false, false)];
      }
      history := [];
    }
  }
}
