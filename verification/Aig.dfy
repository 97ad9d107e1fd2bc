/** The hash-consed and-inverter graph in which interpolants are built. */
module Aigs {
  import opened Sat

  /** An edge: node index plus one, times two, plus one if negated; 0 is true, 1 is false. */
  datatype Edge = Edge(index: nat) {
    function Neg(): Edge { if index % 2 == 0 then Edge(index + 1) else Edge(index - 1) }

    predicate IsNegated() { index % 2 == 1 }

    predicate IsConstant() { index / 2 == 0 }

    function Node(): nat
      requires !IsConstant()
    {
      index / 2 - 1
    }
  }

  const TRUE := Edge(0)
  const FALSE := Edge(1)

  /** A variable node keeps its variable in edge1 and the constant 0 in edge2. */
  datatype Node = Node(edge1: nat, edge2: nat) {
    predicate IsVariable() { edge2 == 0 }
  }

  /** The edge names a constant or one of the first k nodes. */
  predicate EdgeIn(e: Edge, k: nat) { e.index / 2 <= k }

  /** Variables are positive; the edges of an and-node lead to two different earlier nodes. */
  predicate NodeOk(nodes: seq<Node>, k: nat)
    requires k < |nodes|
  {
    if nodes[k].IsVariable() then nodes[k].edge1 > 0
    else
      && 2 <= nodes[k].edge1 && 2 <= nodes[k].edge2 && nodes[k].edge1 / 2 != nodes[k].edge2 / 2
      && EdgeIn(Edge(nodes[k].edge1), k) && EdgeIn(Edge(nodes[k].edge2), k)
  }

  predicate NodesOk(nodes: seq<Node>) { forall k: nat :: k < |nodes| ==> NodeOk(nodes, k) }

  // ------------------------------------------------ meaning

  predicate NodeValue(nodes: seq<Node>, k: nat, v: Valuation)
    requires NodesOk(nodes) && k < |nodes|
    decreases 2 * k + 1
  {
    assert NodeOk(nodes, k);
    if nodes[k].IsVariable() then nodes[k].edge1 in v
    else Value(nodes, Edge(nodes[k].edge1), v) && Value(nodes, Edge(nodes[k].edge2), v)
  }

  predicate Value(nodes: seq<Node>, e: Edge, v: Valuation)
    requires NodesOk(nodes) && EdgeIn(e, |nodes|)
    decreases 2 * (e.index / 2)
  {
    var positive := e.IsConstant() || NodeValue(nodes, e.Node(), v);
    positive != e.IsNegated()
  }

  /** Every variable the node depends on is in G. */
  predicate NodeUses(nodes: seq<Node>, k: nat, G: set<int>)
    requires NodesOk(nodes) && k < |nodes|
    decreases 2 * k + 1
  {
    assert NodeOk(nodes, k);
    if nodes[k].IsVariable() then nodes[k].edge1 in G
    else Uses(nodes, Edge(nodes[k].edge1), G) && Uses(nodes, Edge(nodes[k].edge2), G)
  }

  predicate Uses(nodes: seq<Node>, e: Edge, G: set<int>)
    requires NodesOk(nodes) && EdgeIn(e, |nodes|)
    decreases 2 * (e.index / 2)
  {
    e.IsConstant() || NodeUses(nodes, e.Node(), G)
  }

  lemma {:induction false} NegValue(nodes: seq<Node>, e: Edge)
    requires NodesOk(nodes) && EdgeIn(e, |nodes|)
    ensures EdgeIn(e.Neg(), |nodes|)
    ensures forall v :: Value(nodes, e.Neg(), v) == !Value(nodes, e, v)
    ensures forall G :: Uses(nodes, e.Neg(), G) == Uses(nodes, e, G)
  {
  }

  /** Adding nodes changes no value and no dependency. */
  lemma {:induction false} NodeGrows(old_: seq<Node>, nodes: seq<Node>, k: nat, v: Valuation, G: set<int>)
    requires NodesOk(old_) && NodesOk(nodes) && old_ <= nodes && k < |old_|
    ensures NodeValue(nodes, k, v) == NodeValue(old_, k, v)
    ensures NodeUses(nodes, k, G) == NodeUses(old_, k, G)
    decreases 2 * k + 1
  {
    assert NodeOk(old_, k);
    if !old_[k].IsVariable() {
      EdgeGrows(old_, nodes, Edge(old_[k].edge1), v, G);
      EdgeGrows(old_, nodes, Edge(old_[k].edge2), v, G);
    }
  }

  lemma {:induction false} EdgeGrows(old_: seq<Node>, nodes: seq<Node>, e: Edge, v: Valuation, G: set<int>)
    requires NodesOk(old_) && NodesOk(nodes) && old_ <= nodes && EdgeIn(e, |old_|)
    ensures Value(nodes, e, v) == Value(old_, e, v)
    ensures Uses(nodes, e, G) == Uses(old_, e, G)
    decreases 2 * (e.index / 2)
  {
    if !e.IsConstant() { NodeGrows(old_, nodes, e.Node(), v, G); }
  }

  lemma {:induction false} Grows(old_: seq<Node>, nodes: seq<Node>, e: Edge)
    requires NodesOk(old_) && NodesOk(nodes) && old_ <= nodes && EdgeIn(e, |old_|)
    ensures EdgeIn(e, |nodes|)
    ensures forall v :: Value(nodes, e, v) == Value(old_, e, v)
    ensures forall G :: Uses(nodes, e, G) == Uses(old_, e, G)
  {
    forall v ensures Value(nodes, e, v) == Value(old_, e, v) { EdgeGrows(old_, nodes, e, v, {}); }
    forall G ensures Uses(nodes, e, G) == Uses(old_, e, G) { EdgeGrows(old_, nodes, e, {}, G); }
  }

  /** The value depends on no variable outside G. */
  lemma {:induction false} NodeDepends(nodes: seq<Node>, k: nat, G: set<int>, v: Valuation, w: Valuation)
    requires NodesOk(nodes) && k < |nodes| && NodeUses(nodes, k, G) && v * G == w * G
    ensures NodeValue(nodes, k, v) == NodeValue(nodes, k, w)
    decreases 2 * k + 1
  {
    assert NodeOk(nodes, k);
    if nodes[k].IsVariable() {
      assert nodes[k].edge1 in v * G <==> nodes[k].edge1 in w * G;
    } else {
      EdgeDepends(nodes, Edge(nodes[k].edge1), G, v, w);
      EdgeDepends(nodes, Edge(nodes[k].edge2), G, v, w);
    }
  }

  lemma {:induction false} EdgeDepends(nodes: seq<Node>, e: Edge, G: set<int>, v: Valuation, w: Valuation)
    requires NodesOk(nodes) && EdgeIn(e, |nodes|) && Uses(nodes, e, G) && v * G == w * G
    ensures Value(nodes, e, v) == Value(nodes, e, w)
    decreases 2 * (e.index / 2)
  {
    if !e.IsConstant() { NodeDepends(nodes, e.Node(), G, v, w); }
  }

  // ------------------------------------------------ construction

  function Ordered(a: nat, b: nat): (nat, nat) { if a > b then (b, a) else (a, b) }

  /** An and-node with these operands, in either order. */
  predicate IsAnd(node: Node, a: Edge, b: Edge) {
    node == Node(a.index, b.index) || node == Node(b.index, a.index)
  }

  class Aig {
    var nodes: seq<Node>
    var varMap: map<int, nat>
    var andMap: map<(nat, nat), nat>

    /** Both maps are exact: every node is found under its key, and every entry is a node. */
    ghost predicate Valid()
      reads this
    {
      && NodesOk(nodes)
      && (forall k: nat :: k < |nodes| && nodes[k].IsVariable() ==>
            nodes[k].edge1 in varMap && varMap[nodes[k].edge1] == 2 * (k + 1))
      && (forall k: nat :: k < |nodes| && !nodes[k].IsVariable() ==>
            var key := Ordered(nodes[k].edge1, nodes[k].edge2); key in andMap && andMap[key] == 2 * (k + 1))
      && (forall x :: x in varMap ==> VarEntry(nodes, x, varMap[x]))
      && (forall key :: key in andMap ==> AndEntry(nodes, key, andMap[key]))
    }

    constructor ()
      ensures Valid() && nodes == []
    {
      nodes, varMap, andMap := [], map[], map[];
    }

    /** Hash consing: no two nodes are alike, not even with their edges exchanged. */
    lemma NoTwins()
      requires Valid()
      ensures forall i: nat, j: nat :: i < j < |nodes| ==> nodes[i] != nodes[j]
      ensures forall i: nat, j: nat :: i < j < |nodes| && !nodes[i].IsVariable() && !nodes[j].IsVariable() ==>
        Ordered(nodes[i].edge1, nodes[i].edge2) != Ordered(nodes[j].edge1, nodes[j].edge2)
    {
    }

    /** No and-node has a constant, equal or complementary operands. */
    lemma NoTrivialAnd()
      requires Valid()
      ensures forall k: nat :: k < |nodes| && !nodes[k].IsVariable() ==>
        var a, b := Edge(nodes[k].edge1), Edge(nodes[k].edge2);
        !a.IsConstant() && !b.IsConstant() && a.Node() != b.Node() && a != b && a != b.Neg()
    {
      forall k: nat | k < |nodes| && !nodes[k].IsVariable()
        ensures var a, b := Edge(nodes[k].edge1), Edge(nodes[k].edge2);
          !a.IsConstant() && !b.IsConstant() && a.Node() != b.Node() && a != b && a != b.Neg()
      {
        assert NodeOk(nodes, k);
      }
    }

    method CreateVar(x: int) returns (e: Edge)
      requires Valid() && x > 0
      modifies this
      ensures Valid() && old(nodes) <= nodes && EdgeIn(e, |nodes|)
      ensures forall v :: Value(nodes, e, v) <==> x in v
      ensures forall G :: Uses(nodes, e, G) <==> x in G
      ensures !e.IsConstant() && !e.IsNegated() && nodes[e.Node()] == Node(x, 0)
      ensures nodes == if e.Node() < |old(nodes)| then old(nodes) else old(nodes) + [Node(x, 0)]
    {
      if x in varMap {
        assert VarEntry(nodes, x, varMap[x]);
        assert nodes[Edge(varMap[x]).Node()] == Node(x, 0);
        return Edge(varMap[x]);
      }
      ghost var before := nodes;
      nodes := nodes + [Node(x, 0)];
      AppendOk(before, Node(x, 0));
      varMap := varMap[x := 2 * |nodes|];
      e := Edge(2 * |nodes|);
    }

    method CreateLiteral(lit: int) returns (e: Edge)
      requires Valid() && lit != 0
      modifies this
      ensures Valid() && old(nodes) <= nodes && EdgeIn(e, |nodes|)
      ensures forall v :: Value(nodes, e, v) <==> True(v, lit)
      ensures forall G :: Uses(nodes, e, G) <==> Abs(lit) in G
      ensures !e.IsConstant() && e.IsNegated() == (lit < 0) && nodes[e.Node()] == Node(Abs(lit), 0)
      ensures nodes == if e.Node() < |old(nodes)| then old(nodes) else old(nodes) + [Node(Abs(lit), 0)]
    {
      e := CreateVar(Abs(lit));
      NegValue(nodes, e);
      if lit < 0 { e := e.Neg(); }
    }

    /** A constant, equal or complementary operand decides without a node; otherwise the result
        is the one and-node with these operands, new only if there was none. */
    method CreateAnd(a: Edge, b: Edge) returns (e: Edge)
      requires Valid() && EdgeIn(a, |nodes|) && EdgeIn(b, |nodes|)
      modifies this
      ensures Valid() && old(nodes) <= nodes && EdgeIn(e, |nodes|)
      ensures a == FALSE || b == FALSE || a == b.Neg() ==> e == FALSE
      ensures a == TRUE ==> e == b
      ensures b == TRUE || a == b ==> e == a
      ensures a.IsConstant() || b.IsConstant() || a == b || a == b.Neg() ==> nodes == old(nodes)
      ensures !(a.IsConstant() || b.IsConstant() || a == b || a == b.Neg()) ==>
        && !e.IsConstant() && !e.IsNegated() && IsAnd(nodes[e.Node()], a, b)
        && nodes == if e.Node() < |old(nodes)| then old(nodes) else old(nodes) + [Node(a.index, b.index)]
      ensures forall v :: Value(nodes, e, v) <==> Value(old(nodes), a, v) && Value(old(nodes), b, v)
      ensures forall G :: Uses(old(nodes), a, G) && Uses(old(nodes), b, G) ==> Uses(nodes, e, G)
    {
      if a == FALSE || b == FALSE { return FALSE; }
      if a == TRUE { return b; }
      if b == TRUE { return a; }
      if a == b { return a; }
      NegValue(nodes, b);
      if a == b.Neg() { return FALSE; }
      var key := Ordered(a.index, b.index);
      if key in andMap {
        assert AndEntry(nodes, key, andMap[key]);
        assert IsAnd(nodes[Edge(andMap[key]).Node()], a, b);
        return Edge(andMap[key]);
      }
      e := AddNode(a, b);
    }

    method AddNode(a: Edge, b: Edge) returns (e: Edge)
      requires Valid() && EdgeIn(a, |nodes|) && EdgeIn(b, |nodes|) && a.index >= 2 && b.index >= 2
      requires a.index / 2 != b.index / 2 && Ordered(a.index, b.index) !in andMap
      modifies this
      ensures Valid() && old(nodes) <= nodes && EdgeIn(e, |nodes|)
      ensures forall v :: Value(nodes, e, v) <==> Value(old(nodes), a, v) && Value(old(nodes), b, v)
      ensures forall G :: Uses(nodes, e, G) <==> Uses(old(nodes), a, G) && Uses(old(nodes), b, G)
      ensures nodes == old(nodes) + [Node(a.index, b.index)] && e == Edge(2 * |nodes|)
    {
      ghost var before := nodes;
      nodes := nodes + [Node(a.index, b.index)];
      AppendOk(before, Node(a.index, b.index));
      AppendAnd(before, a, b);
      andMap := andMap[Ordered(a.index, b.index) := 2 * |nodes|];
      e := Edge(2 * |nodes|);
    }

    method CreateOr(a: Edge, b: Edge) returns (e: Edge)
      requires Valid() && EdgeIn(a, |nodes|) && EdgeIn(b, |nodes|)
      modifies this
      ensures Valid() && old(nodes) <= nodes && EdgeIn(e, |nodes|)
      ensures forall v :: Value(nodes, e, v) <==> Value(old(nodes), a, v) || Value(old(nodes), b, v)
      ensures forall G :: Uses(old(nodes), a, G) && Uses(old(nodes), b, G) ==> Uses(nodes, e, G)
    {
      NegValue(nodes, a);
      NegValue(nodes, b);
      e := CreateAnd(a.Neg(), b.Neg());
      NegValue(nodes, e);
      e := e.Neg();
    }

    /** The conjunction of a list, built as a balanced tree. */
    method CreateAndAll(all: seq<Edge>) returns (e: Edge)
      requires Valid() && EdgesIn(all, |nodes|)
      modifies this
      ensures Valid() && old(nodes) <= nodes && EdgeIn(e, |nodes|)
      ensures forall v :: Value(nodes, e, v) <==> AllValue(old(nodes), all, v)
      ensures forall G :: AllUse(old(nodes), all, G) ==> Uses(nodes, e, G)
    {
      if |all| == 0 { return TRUE; }
      if |all| == 1 { return all[0]; }
      var edges := all;
      while |edges| > 1
        invariant |edges| > 0 && Valid() && old(nodes) <= nodes && EdgesIn(edges, |nodes|)
        invariant forall v :: AllValue(nodes, edges, v) <==> AllValue(old(nodes), all, v)
        invariant forall G :: AllUse(old(nodes), all, G) ==> AllUse(nodes, edges, G)
        decreases |edges|
      {
        edges := HalveAnds(edges);
      }
      assert edges == [edges[0]];
      return edges[0];
    }

    /** One level of the tree: neighbours are joined, a last odd one is kept. */
    method HalveAnds(edges: seq<Edge>) returns (temp: seq<Edge>)
      requires Valid() && EdgesIn(edges, |nodes|) && |edges| > 1
      modifies this
      ensures Valid() && old(nodes) <= nodes && EdgesIn(temp, |nodes|) && |temp| == (|edges| + 1) / 2
      ensures forall v :: AllValue(nodes, temp, v) <==> AllValue(old(nodes), edges, v)
      ensures forall G :: AllUse(old(nodes), edges, G) ==> AllUse(nodes, temp, G)
    {
      temp := [];
      var index := 0;
      while index + 1 < |edges|
        invariant index % 2 == 0 && index <= |edges| && |temp| == index / 2
        invariant Valid() && old(nodes) <= nodes && EdgesIn(temp, |nodes|)
        invariant forall v :: AllValue(nodes, temp, v) <==> AllValue(old(nodes), edges[..index], v)
        invariant forall G :: AllUse(old(nodes), edges[..index], G) ==> AllUse(nodes, temp, G)
      {
        var a, b := edges[index], edges[index + 1];
        Grows(old(nodes), nodes, a);
        Grows(old(nodes), nodes, b);
        temp := AppendPair(temp, a, b);
        assert edges[..index + 2] == edges[..index] + [a] + [b];
        AppendAll(old(nodes), edges[..index], a);
        AppendAll(old(nodes), edges[..index] + [a], b);
        index := index + 2;
      }
      if |edges| % 2 == 1 {
        assert edges == edges[..index] + [edges[index]];
        Grows(old(nodes), nodes, edges[index]);
        AppendAll(nodes, temp, edges[index]);
        AppendAll(old(nodes), edges[..index], edges[index]);
        temp := temp + [edges[index]];
      } else {
        assert edges == edges[..index];
      }
    }

    method AppendPair(temp: seq<Edge>, a: Edge, b: Edge) returns (more: seq<Edge>)
      requires Valid() && EdgesIn(temp, |nodes|) && EdgeIn(a, |nodes|) && EdgeIn(b, |nodes|)
      modifies this
      ensures Valid() && old(nodes) <= nodes && EdgesIn(more, |nodes|) && |more| == |temp| + 1
      ensures forall v :: AllValue(nodes, more, v) <==> AllValue(old(nodes), temp, v) && Value(old(nodes), a, v) && Value(old(nodes), b, v)
      ensures forall G :: AllUse(old(nodes), temp, G) && Uses(old(nodes), a, G) && Uses(old(nodes), b, G) ==> AllUse(nodes, more, G)
    {
      ghost var before := nodes;
      var e := CreateAnd(a, b);
      GrowAll(before, nodes, temp);
      AppendAll(nodes, temp, e);
      more := temp + [e];
    }

    /** The disjunction of a list: the negated conjunction of the negated edges. */
    method CreateOrAll(all: seq<Edge>) returns (e: Edge)
      requires Valid() && EdgesIn(all, |nodes|)
      modifies this
      ensures Valid() && old(nodes) <= nodes && EdgeIn(e, |nodes|)
      ensures forall v :: Value(nodes, e, v) <==> SomeValue(old(nodes), all, v)
      ensures forall G :: AllUse(old(nodes), all, G) ==> Uses(nodes, e, G)
    {
      var edges := all;
      for k := 0 to |all|
        invariant |edges| == |all|
        invariant forall j :: 0 <= j < |all| ==> edges[j] == if j < k then all[j].Neg() else all[j]
      {
        edges := edges[k := edges[k].Neg()];
      }
      NegAll(nodes, all, edges);
      e := CreateAndAll(edges);
      NegValue(nodes, e);
      e := e.Neg();
    }
  }

  predicate EdgesIn(edges: seq<Edge>, k: nat) { forall j :: 0 <= j < |edges| ==> EdgeIn(edges[j], k) }

  predicate AllValue(nodes: seq<Node>, edges: seq<Edge>, v: Valuation)
    requires NodesOk(nodes) && EdgesIn(edges, |nodes|)
  {
    forall j :: 0 <= j < |edges| ==> Value(nodes, edges[j], v)
  }

  predicate SomeValue(nodes: seq<Node>, edges: seq<Edge>, v: Valuation)
    requires NodesOk(nodes) && EdgesIn(edges, |nodes|)
  {
    exists j :: 0 <= j < |edges| && Value(nodes, edges[j], v)
  }

  predicate AllUse(nodes: seq<Node>, edges: seq<Edge>, G: set<int>)
    requires NodesOk(nodes) && EdgesIn(edges, |nodes|)
  {
    forall j :: 0 <= j < |edges| ==> Uses(nodes, edges[j], G)
  }

  lemma {:induction false} GrowAll(old_: seq<Node>, nodes: seq<Node>, edges: seq<Edge>)
    requires NodesOk(old_) && NodesOk(nodes) && old_ <= nodes && EdgesIn(edges, |old_|)
    ensures EdgesIn(edges, |nodes|)
    ensures forall v :: AllValue(nodes, edges, v) == AllValue(old_, edges, v)
    ensures forall G :: AllUse(nodes, edges, G) == AllUse(old_, edges, G)
  {
    forall j | 0 <= j < |edges|
      ensures EdgeIn(edges[j], |nodes|)
      ensures forall v :: Value(nodes, edges[j], v) == Value(old_, edges[j], v)
      ensures forall G :: Uses(nodes, edges[j], G) == Uses(old_, edges[j], G)
    {
      Grows(old_, nodes, edges[j]);
    }
  }

  lemma {:induction false} AppendAll(nodes: seq<Node>, edges: seq<Edge>, e: Edge)
    requires NodesOk(nodes) && EdgesIn(edges, |nodes|) && EdgeIn(e, |nodes|)
    ensures EdgesIn(edges + [e], |nodes|)
    ensures forall v :: AllValue(nodes, edges + [e], v) <==> AllValue(nodes, edges, v) && Value(nodes, e, v)
    ensures forall G :: AllUse(nodes, edges + [e], G) <==> AllUse(nodes, edges, G) && Uses(nodes, e, G)
  {
    var more := edges + [e];
    assert more[|edges|] == e && forall j :: 0 <= j < |edges| ==> more[j] == edges[j];
  }

  lemma {:induction false} NegAll(nodes: seq<Node>, edges: seq<Edge>, negs: seq<Edge>)
    requires NodesOk(nodes) && EdgesIn(edges, |nodes|) && |negs| == |edges|
    requires forall j :: 0 <= j < |edges| ==> negs[j] == edges[j].Neg()
    ensures EdgesIn(negs, |nodes|)
    ensures forall v :: AllValue(nodes, negs, v) <==> !SomeValue(nodes, edges, v)
    ensures forall G :: AllUse(nodes, negs, G) <==> AllUse(nodes, edges, G)
  {
    forall j | 0 <= j < |edges|
      ensures EdgeIn(negs[j], |nodes|)
      ensures forall v :: Value(nodes, negs[j], v) == !Value(nodes, edges[j], v)
      ensures forall G :: Uses(nodes, negs[j], G) == Uses(nodes, edges[j], G)
    {
      NegValue(nodes, edges[j]);
    }
  }

  predicate VarEntry(nodes: seq<Node>, x: int, index: nat) {
    index % 2 == 0 && 2 <= index <= 2 * |nodes| && nodes[index / 2 - 1] == Node(if x > 0 then x else 0, 0) && x > 0
  }

  predicate AndEntry(nodes: seq<Node>, key: (nat, nat), index: nat) {
    && index % 2 == 0 && 2 <= index <= 2 * |nodes|
    && !nodes[index / 2 - 1].IsVariable()
    && key == Ordered(nodes[index / 2 - 1].edge1, nodes[index / 2 - 1].edge2)
  }

  /** The value and the variables of a new and-node. */
  lemma {:induction false} AppendAnd(nodes: seq<Node>, a: Edge, b: Edge)
    requires NodesOk(nodes) && NodesOk(nodes + [Node(a.index, b.index)])
    requires EdgeIn(a, |nodes|) && EdgeIn(b, |nodes|) && a.index >= 2 && b.index >= 2
    ensures var e, more := Edge(2 * (|nodes| + 1)), nodes + [Node(a.index, b.index)];
      && (forall v :: Value(more, e, v) <==> Value(nodes, a, v) && Value(nodes, b, v))
      && (forall G :: Uses(more, e, G) <==> Uses(nodes, a, G) && Uses(nodes, b, G))
  {
    var more := nodes + [Node(a.index, b.index)];
    var e := Edge(2 * (|nodes| + 1));
    Grows(nodes, more, a);
    Grows(nodes, more, b);
    assert e.Node() == |nodes| && more[|nodes|] == Node(a.index, b.index);
    assert forall v :: Value(more, e, v) == NodeValue(more, |nodes|, v);
    assert forall G :: Uses(more, e, G) == NodeUses(more, |nodes|, G);
  }

  lemma AppendOk(nodes: seq<Node>, node: Node)
    requires NodesOk(nodes)
    requires if node.IsVariable() then node.edge1 > 0
      else 2 <= node.edge1 && 2 <= node.edge2 && node.edge1 / 2 != node.edge2 / 2
           && EdgeIn(Edge(node.edge1), |nodes|) && EdgeIn(Edge(node.edge2), |nodes|)
    ensures NodesOk(nodes + [node])
  {
    forall k: nat | k < |nodes + [node]| ensures NodeOk(nodes + [node], k) {
      if k < |nodes| { assert NodeOk(nodes, k); }
    }
  }
}
