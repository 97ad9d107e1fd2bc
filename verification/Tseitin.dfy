/** Turning an and-inverter graph into clauses with an explicit stack. */
module Tseitin {
  import opened Sat
  import opened Aigs
  import Framework

  datatype CnfType = NONE | CONSTANT0 | CONSTANT1 | NORMAL

  // ------------------------------------------------ valuations that agree on the original variables

  /** The valuations differ at most on the variables from lo up to hi. */
  ghost predicate Agree(v: Valuation, w: Valuation, lo: nat, hi: nat) {
    forall x :: (x in v || x in w) && !(lo <= x < hi) ==> x in v && x in w
  }

  ghost predicate VarsBelow(nodes: seq<Node>, lo: nat) {
    forall k: nat :: k < |nodes| && nodes[k].IsVariable() ==> nodes[k].edge1 < lo
  }

  lemma {:induction false} NodeAgrees(nodes: seq<Node>, k: nat, v: Valuation, w: Valuation, lo: nat, hi: nat)
    requires NodesOk(nodes) && k < |nodes| && VarsBelow(nodes, lo) && Agree(v, w, lo, hi)
    ensures NodeValue(nodes, k, v) == NodeValue(nodes, k, w)
    decreases 2 * k + 1
  {
    assert NodeOk(nodes, k);
    if !nodes[k].IsVariable() {
      EdgeAgrees(nodes, Edge(nodes[k].edge1), v, w, lo, hi);
      EdgeAgrees(nodes, Edge(nodes[k].edge2), v, w, lo, hi);
    }
  }

  lemma {:induction false} EdgeAgrees(nodes: seq<Node>, e: Edge, v: Valuation, w: Valuation, lo: nat, hi: nat)
    requires NodesOk(nodes) && EdgeIn(e, |nodes|) && VarsBelow(nodes, lo) && Agree(v, w, lo, hi)
    ensures Value(nodes, e, v) == Value(nodes, e, w)
    decreases 2 * (e.index / 2)
  {
    if !e.IsConstant() { NodeAgrees(nodes, e.Node(), v, w, lo, hi); }
  }

  // ------------------------------------------------ the variables given to nodes

  /** Variable nodes keep their variable; order lists the and-nodes that received the
      variables from lo on. */
  ghost predicate MapOk(nodes: seq<Node>, m: map<nat, nat>, order: seq<nat>, lo: nat) {
    && (forall k :: k in m ==> k < |nodes| && m[k] > 0)
    && (forall k: nat :: k < |nodes| && nodes[k].IsVariable() ==> k in m && m[k] == nodes[k].edge1)
    && (forall k :: k in m && !nodes[k].IsVariable() ==> lo <= m[k] < lo + |order| && order[m[k] - lo] == k)
    && (forall i :: 0 <= i < |order| ==> order[i] in m && m[order[i]] == lo + i && !nodes[order[i]].IsVariable())
  }

  /** The clauses hold exactly when every mapped variable has the value of its node. */
  ghost predicate Defines(nodes: seq<Node>, m: map<nat, nat>, cnf: seq<Clause>)
    requires NodesOk(nodes) && forall k :: k in m ==> k < |nodes|
  {
    forall v :: Models(v, cnf) <==> MapTrue(nodes, m, v)
  }

  ghost predicate MapTrue(nodes: seq<Node>, m: map<nat, nat>, v: Valuation)
    requires NodesOk(nodes) && forall k :: k in m ==> k < |nodes|
  {
    forall k :: k in m ==> (m[k] in v <==> NodeValue(nodes, k, v))
  }

  /** The literal of an edge whose node is mapped. */
  function EdgeLit(m: map<nat, nat>, e: Edge): int
    requires !e.IsConstant() && e.Node() in m
  {
    if e.IsNegated() then -(m[e.Node()] as int) else m[e.Node()]
  }

  lemma EdgeLitTrue(nodes: seq<Node>, m: map<nat, nat>, e: Edge, v: Valuation)
    requires NodesOk(nodes) && (forall k :: k in m ==> k < |nodes| && m[k] > 0)
    requires !e.IsConstant() && e.Node() in m && MapTrue(nodes, m, v)
    ensures EdgeIn(e, |nodes|)
    ensures True(v, EdgeLit(m, e)) <==> Value(nodes, e, v)
    ensures True(v, -EdgeLit(m, e)) <==> !Value(nodes, e, v)
  {
  }

  /** The three clauses for t = a and b. */
  function AndClauses(t: int, a: int, b: int): seq<Clause> { [[-t, a], [-t, b], [t, -a, -b]] }

  lemma AndClausesMean(t: int, a: int, b: int, v: Valuation)
    requires t > 0 && a != 0 && b != 0
    ensures Models(v, AndClauses(t, a, b)) <==> (t in v <==> True(v, a) && True(v, b))
  {
    Short(-t, a, a);
    Short(-t, b, b);
    Short(t, -a, -b);
    var cs := AndClauses(t, a, b);
    assert cs[0] in cs && cs[1] in cs && cs[2] in cs;
    assert True(v, -a) == !True(v, a) && True(v, -b) == !True(v, b) && True(v, -t) == !True(v, t);
  }

  lemma ModelsConcat(v: Valuation, a: seq<Clause>, b: seq<Clause>)
    ensures Models(v, a + b) <==> Models(v, a) && Models(v, b)
  {
    assert forall c :: c in a + b <==> c in a || c in b;
  }

  /** One more and-node is given a variable and its defining clauses. */
  lemma {:induction false} DefineNode(nodes: seq<Node>, m: map<nat, nat>, order: seq<nat>, lo: nat, cnf: seq<Clause>, k: nat)
    requires NodesOk(nodes) && MapOk(nodes, m, order, lo) && Defines(nodes, m, cnf)
    requires lo > 0 && k < |nodes| && !nodes[k].IsVariable() && k !in m
    requires NodeOk(nodes, k) && Edge(nodes[k].edge1).Node() in m && Edge(nodes[k].edge2).Node() in m
    ensures var t := lo + |order|;
      && MapOk(nodes, m[k := t], order + [k], lo)
      && Defines(nodes, m[k := t], cnf + AndClauses(t, EdgeLit(m, Edge(nodes[k].edge1)), EdgeLit(m, Edge(nodes[k].edge2))))
  {
    var t, e1, e2 := lo + |order|, Edge(nodes[k].edge1), Edge(nodes[k].edge2);
    var a, b := EdgeLit(m, e1), EdgeLit(m, e2);
    forall v ensures Models(v, cnf + AndClauses(t, a, b)) <==> MapTrue(nodes, m[k := t], v) {
      ModelsConcat(v, cnf, AndClauses(t, a, b));
      AndClausesMean(t, a, b, v);
      MapTrueStep(nodes, m, k, t, v);
      if MapTrue(nodes, m, v) {
        EdgeLitTrue(nodes, m, e1, v);
        EdgeLitTrue(nodes, m, e2, v);
        assert NodeValue(nodes, k, v) == (Value(nodes, e1, v) && Value(nodes, e2, v));
      }
    }
  }

  lemma {:induction false} MapTrueStep(nodes: seq<Node>, m: map<nat, nat>, k: nat, t: nat, v: Valuation)
    requires NodesOk(nodes) && (forall j :: j in m ==> j < |nodes|) && k < |nodes| && k !in m
    ensures MapTrue(nodes, m[k := t], v) <==> MapTrue(nodes, m, v) && (t in v <==> NodeValue(nodes, k, v))
  {
    if MapTrue(nodes, m[k := t], v) {
      forall j | j in m ensures m[j] in v <==> NodeValue(nodes, j, v) { assert m[k := t][j] == m[j]; }
      assert m[k := t][k] == t;
    }
  }

  // ------------------------------------------------ what the clauses say

  ghost predicate Extends(v: Valuation, defs: seq<Clause>, lo: nat, hi: nat) {
    exists w :: Agree(v, w, lo, hi) && Models(w, defs)
  }

  /** Every valuation of the original variables has exactly one extension that satisfies the definitions. */
  ghost predicate UniquelyExtends(defs: seq<Clause>, lo: nat, hi: nat) {
    && (forall v :: Extends(v, defs, lo, hi))
    && (forall v, w :: Models(v, defs) && Models(w, defs) && Agree(v, w, lo, hi) ==> v == w)
  }

  ghost function Extension(nodes: seq<Node>, order: seq<nat>, lo: nat, v: Valuation): Valuation
    requires NodesOk(nodes) && forall i :: 0 <= i < |order| ==> order[i] < |nodes|
  {
    (set x | x in v && !(lo <= x < lo + |order|)) + (set i | 0 <= i < |order| && NodeValue(nodes, order[i], v) :: lo + i)
  }

  lemma {:induction false} DefinitionsExtend(nodes: seq<Node>, m: map<nat, nat>, order: seq<nat>, lo: nat, cnf: seq<Clause>)
    requires NodesOk(nodes) && VarsBelow(nodes, lo) && MapOk(nodes, m, order, lo) && Defines(nodes, m, cnf)
    ensures UniquelyExtends(cnf, lo, lo + |order|)
  {
    var hi := lo + |order|;
    forall v ensures Extends(v, cnf, lo, hi) {
      ExtensionTrue(nodes, m, order, lo, v);
      var w := Extension(nodes, order, lo, v);
      assert Agree(v, w, lo, hi) && Models(w, cnf);
    }
    forall v, w | Models(v, cnf) && Models(w, cnf) && Agree(v, w, lo, hi) ensures v == w {
      DefinedAlike(nodes, m, order, lo, v, w);
    }
  }

  lemma {:induction false} DefinedAlike(nodes: seq<Node>, m: map<nat, nat>, order: seq<nat>, lo: nat, v: Valuation, w: Valuation)
    requires NodesOk(nodes) && VarsBelow(nodes, lo) && MapOk(nodes, m, order, lo)
    requires MapTrue(nodes, m, v) && MapTrue(nodes, m, w) && Agree(v, w, lo, lo + |order|)
    ensures v == w
  {
    forall x ensures x in v <==> x in w {
      if lo <= x < lo + |order| {
        var k := order[x - lo];
        assert k in m && m[k] == lo + (x - lo);
        NodeAgrees(nodes, k, v, w, lo, lo + |order|);
      }
    }
  }

  lemma {:induction false} ExtensionTrue(nodes: seq<Node>, m: map<nat, nat>, order: seq<nat>, lo: nat, v: Valuation)
    requires NodesOk(nodes) && VarsBelow(nodes, lo) && MapOk(nodes, m, order, lo)
    ensures var w := Extension(nodes, order, lo, v);
      Agree(v, w, lo, lo + |order|) && MapTrue(nodes, m, w)
  {
    var w := Extension(nodes, order, lo, v);
    assert Agree(v, w, lo, lo + |order|);
    forall k | k in m ensures m[k] in w <==> NodeValue(nodes, k, w) {
      NodeAgrees(nodes, k, v, w, lo, lo + |order|);
      if nodes[k].IsVariable() {
        assert m[k] < lo;
        assert NodeOk(nodes, k);
      } else {
        assert order[m[k] - lo] == k;
        assert m[k] in w <==> NodeValue(nodes, order[m[k] - lo], v);
      }
    }
  }

  /** The clauses before the final unit clause. */
  function Defs(cnf: seq<Clause>): seq<Clause>
    requires |cnf| > 0
  {
    cnf[..|cnf| - 1]
  }

  /** All variables are below hi. */
  ghost predicate Below(cnf: seq<Clause>, hi: nat) {
    forall c, l :: c in cnf && l in c ==> 0 < Abs(l) < hi
  }

  predicate EndsInUnit(cnf: seq<Clause>) { |cnf| > 0 && |cnf[|cnf| - 1]| == 1 && cnf[|cnf| - 1][0] != 0 }

  /** The literal of the final unit clause. */
  function Trigger(cnf: seq<Clause>): int
    requires EndsInUnit(cnf)
  {
    cnf[|cnf| - 1][0]
  }

  /** The clauses, with fresh variables from lo up to hi, stand for the function F. */
  ghost predicate Encodes(F: iset<Valuation>, ty: CnfType, cnf: seq<Clause>, lo: nat, hi: nat) {
    && lo <= hi
    && match ty
       case NONE => false
       case CONSTANT0 => cnf == [[]] && hi == lo && forall v :: v !in F
       case CONSTANT1 => cnf == [] && hi == lo && forall v :: v in F
       case NORMAL =>
         && EndsInUnit(cnf) && Below(cnf, hi) && UniquelyExtends(Defs(cnf), lo, hi)
         && forall v :: Models(v, Defs(cnf)) ==> (True(v, Trigger(cnf)) <==> v in F)
  }

  /** The function does not look at variables from lo on. */
  ghost predicate Ignores(F: iset<Valuation>, lo: nat) {
    forall v, w, hi {:trigger Agree(v, w, lo, hi)} :: v in F && Agree(v, w, lo, hi) ==> w in F
  }

  /** The function of an edge. */
  ghost function Meaning(nodes: seq<Node>, root: Edge): iset<Valuation>
    requires NodesOk(nodes) && EdgeIn(root, |nodes|)
  {
    iset v: Valuation | Value(nodes, root, v)
  }

  lemma EdgeLitBelow(nodes: seq<Node>, m: map<nat, nat>, order: seq<nat>, lo: nat, e: Edge)
    requires MapOk(nodes, m, order, lo) && VarsBelow(nodes, lo) && !e.IsConstant() && e.Node() in m
    ensures 0 < Abs(EdgeLit(m, e)) < lo + |order|
  {
  }

  lemma DefineBelow(nodes: seq<Node>, m: map<nat, nat>, order: seq<nat>, lo: nat, cnf: seq<Clause>, e1: Edge, e2: Edge)
    requires MapOk(nodes, m, order, lo) && VarsBelow(nodes, lo) && Below(cnf, lo + |order|)
    requires !e1.IsConstant() && e1.Node() in m && !e2.IsConstant() && e2.Node() in m
    ensures Below(cnf + AndClauses(lo + |order|, EdgeLit(m, e1), EdgeLit(m, e2)), lo + |order| + 1)
  {
    EdgeLitBelow(nodes, m, order, lo, e1);
    EdgeLitBelow(nodes, m, order, lo, e2);
  }

  /** A single literal needs no definitions. */
  lemma {:induction false} LiteralEncodes(nodes: seq<Node>, root: Edge, lit: int, lo: nat)
    requires NodesOk(nodes) && EdgeIn(root, |nodes|) && VarsBelow(nodes, lo)
    requires !root.IsConstant() && nodes[root.Node()].IsVariable()
    requires lit == if root.IsNegated() then -(nodes[root.Node()].edge1 as int) else nodes[root.Node()].edge1
    ensures Encodes(Meaning(nodes, root), NORMAL, [[lit]], lo, lo)
  {
    assert NodeOk(nodes, root.Node());
    NoDefinitions(lo);
    assert Defs([[lit]]) == [];
    forall v ensures True(v, lit) <==> Value(nodes, root, v) {
      assert NodeValue(nodes, root.Node(), v) == (nodes[root.Node()].edge1 in v);
    }
  }

  /** The definitions of the nodes and the literal of the root. */
  lemma {:induction false} RootEncodes(nodes: seq<Node>, m: map<nat, nat>, order: seq<nat>, lo: nat, defs: seq<Clause>, root: Edge)
    requires NodesOk(nodes) && EdgeIn(root, |nodes|) && VarsBelow(nodes, lo) && !root.IsConstant() && root.Node() in m
    requires MapOk(nodes, m, order, lo) && Defines(nodes, m, defs) && Below(defs, lo + |order|)
    ensures Encodes(Meaning(nodes, root), NORMAL, defs + [[EdgeLit(m, root)]], lo, lo + |order|)
  {
    DefinitionsExtend(nodes, m, order, lo, defs);
    var lit := EdgeLit(m, root);
    EdgeLitBelow(nodes, m, order, lo, root);
    forall v | Models(v, defs) ensures True(v, lit) <==> Value(nodes, root, v) {
      EdgeLitTrue(nodes, m, root, v);
    }
    assert Defs(defs + [[lit]]) == defs;
  }

  // ------------------------------------------------ the and-nodes below an edge

  /** The and-nodes at or below node k. */
  ghost function NodeCone(nodes: seq<Node>, k: nat): set<nat>
    requires NodesOk(nodes) && k < |nodes|
    decreases 2 * k + 1
  {
    assert NodeOk(nodes, k);
    if nodes[k].IsVariable() then {}
    else {k} + Cone(nodes, Edge(nodes[k].edge1)) + Cone(nodes, Edge(nodes[k].edge2))
  }

  ghost function Cone(nodes: seq<Node>, e: Edge): set<nat>
    requires NodesOk(nodes) && EdgeIn(e, |nodes|)
    decreases 2 * (e.index / 2)
  {
    if e.IsConstant() then {} else NodeCone(nodes, e.Node())
  }

  /** With an and-node the set contains the and-nodes its edges lead to. */
  ghost predicate Closed(nodes: seq<Node>, X: set<nat>)
    requires NodesOk(nodes)
  {
    forall k: nat :: k in X && k < |nodes| && !nodes[k].IsVariable() ==> HasChildren(nodes, X, k)
  }

  ghost predicate HasChildren(nodes: seq<Node>, X: set<nat>, k: nat)
    requires NodesOk(nodes) && k < |nodes| && !nodes[k].IsVariable()
  {
    assert NodeOk(nodes, k);
    forall c :: c in {nodes[k].edge1 / 2 - 1, nodes[k].edge2 / 2 - 1} && !nodes[c].IsVariable() ==> c in X
  }

  /** The cone is the least closed set that contains its and-node. */
  lemma {:induction false} ConeLeast(nodes: seq<Node>, k: nat, X: set<nat>)
    requires NodesOk(nodes) && k < |nodes| && Closed(nodes, X) && (nodes[k].IsVariable() || k in X)
    ensures NodeCone(nodes, k) <= X
    decreases k
  {
    if !nodes[k].IsVariable() {
      assert NodeOk(nodes, k) && HasChildren(nodes, X, k);
      ConeLeast(nodes, nodes[k].edge1 / 2 - 1, X);
      ConeLeast(nodes, nodes[k].edge2 / 2 - 1, X);
    }
  }

  lemma {:induction false} ConeClosed(nodes: seq<Node>, k: nat)
    requires NodesOk(nodes) && k < |nodes|
    ensures Closed(nodes, NodeCone(nodes, k)) && (nodes[k].IsVariable() || k in NodeCone(nodes, k))
    ensures forall x :: x in NodeCone(nodes, k) ==> x <= k && !nodes[x].IsVariable()
    decreases k
  {
    if !nodes[k].IsVariable() {
      assert NodeOk(nodes, k);
      var a, b := nodes[k].edge1 / 2 - 1, nodes[k].edge2 / 2 - 1;
      ConeClosed(nodes, a);
      ConeClosed(nodes, b);
      forall x: nat | x in NodeCone(nodes, k) && x < |nodes| && !nodes[x].IsVariable() ensures HasChildren(nodes, NodeCone(nodes, k), x) {
        assert NodeOk(nodes, x);
        if x in NodeCone(nodes, a) { assert HasChildren(nodes, NodeCone(nodes, a), x); }
        if x in NodeCone(nodes, b) { assert HasChildren(nodes, NodeCone(nodes, b), x); }
      }
    }
  }

  /** The number of clauses for an edge: three for each and-node below it and the final unit. */
  ghost function ClauseCount(nodes: seq<Node>, root: Edge): nat
    requires NodesOk(nodes) && EdgeIn(root, |nodes|)
  {
    if root == TRUE then 0 else if root == FALSE then 1 else 3 * |Cone(nodes, root)| + 1
  }

  // ------------------------------------------------ the traversal

  /** The stack leads from the root down to ever smaller nodes. */
  ghost predicate StackOk(nodes: seq<Node>, stack: seq<nat>, root: nat, m: map<nat, nat>) {
    && (forall i :: 0 <= i < |stack| ==> stack[i] < |nodes|)
    && (forall i, j :: 0 <= i < j < |stack| ==> stack[j] < stack[i])
    && (if stack == [] then root in m else stack[0] == root)
  }

  ghost function Unmapped(nodes: seq<Node>, m: map<nat, nat>): set<nat> {
    set k: nat | k < |nodes| && k !in m
  }

  ghost function MappedOnStack(stack: seq<nat>, m: map<nat, nat>): set<nat> {
    set x | x in stack && x in m
  }

  lemma Popped(nodes: seq<Node>, stack: seq<nat>, root: nat, m: map<nat, nat>)
    requires StackOk(nodes, stack, root, m) && |stack| > 0 && stack[|stack| - 1] in m
    ensures StackOk(nodes, stack[..|stack| - 1], root, m)
    ensures MappedOnStack(stack[..|stack| - 1], m) < MappedOnStack(stack, m)
  {
    var x, rest := stack[|stack| - 1], stack[..|stack| - 1];
    assert x !in rest && x in MappedOnStack(stack, m);
    assert forall y :: y in rest ==> y in stack;
  }

  lemma PushedChild(nodes: seq<Node>, stack: seq<nat>, root: nat, m: map<nat, nat>, c: nat)
    requires StackOk(nodes, stack, root, m) && |stack| > 0 && c < stack[|stack| - 1] && c !in m
    ensures StackOk(nodes, stack + [c], root, m)
    ensures MappedOnStack(stack + [c], m) == MappedOnStack(stack, m)
  {
    assert forall y :: y in stack + [c] <==> y in stack || y == c;
  }

  lemma MappedTop(nodes: seq<Node>, stack: seq<nat>, root: nat, m: map<nat, nat>, t: nat)
    requires StackOk(nodes, stack, root, m) && |stack| > 0 && stack[|stack| - 1] !in m
    ensures StackOk(nodes, stack[..|stack| - 1], root, m[stack[|stack| - 1] := t])
    ensures Unmapped(nodes, m[stack[|stack| - 1] := t]) < Unmapped(nodes, m)
  {
    assert stack[|stack| - 1] in Unmapped(nodes, m);
  }

  /** Gives every variable node its own variable. */
  method IndexVariables(nodes: seq<Node>, ghost lo: nat) returns (m: map<nat, nat>)
    requires NodesOk(nodes)
    ensures MapOk(nodes, m, [], lo) && Defines(nodes, m, [])
    ensures forall k :: k in m ==> nodes[k].IsVariable()
  {
    m := map[];
    for k := 0 to |nodes|
      invariant forall j: nat :: j in m <==> j < k && nodes[j].IsVariable()
      invariant forall j: nat :: j in m ==> m[j] == nodes[j].edge1
    {
      if nodes[k].IsVariable() { m := m[k := nodes[k].edge1]; }
    }
    forall k | k in m ensures m[k] > 0 { assert NodeOk(nodes, k); }
  }

  /** So far: the definitions of a closed part of the cone, three clauses a node. */
  ghost predicate Traversed(nodes: seq<Node>, root: nat, lo: nat, m: map<nat, nat>, order: seq<nat>, cnf: seq<Clause>)
    requires NodesOk(nodes) && root < |nodes|
  {
    && MapOk(nodes, m, order, lo) && Defines(nodes, m, cnf) && Below(cnf, lo + |order|) && |cnf| == 3 * |order|
    && Closed(nodes, Framework.SetOf(order)) && Framework.SetOf(order) <= NodeCone(nodes, root)
  }

  /** One more node of the cone, whose children have their variables. */
  lemma {:induction false} TraverseStep(nodes: seq<Node>, root: nat, lo: nat, m: map<nat, nat>, order: seq<nat>, cnf: seq<Clause>, k: nat)
    requires NodesOk(nodes) && root < |nodes| && VarsBelow(nodes, lo) && lo > 0 && Traversed(nodes, root, lo, m, order, cnf)
    requires k < |nodes| && !nodes[k].IsVariable() && k !in m && k in NodeCone(nodes, root)
    requires NodeOk(nodes, k) && Edge(nodes[k].edge1).Node() in m && Edge(nodes[k].edge2).Node() in m
    ensures var t := lo + |order|;
      Traversed(nodes, root, lo, m[k := t], order + [k],
                cnf + AndClauses(t, EdgeLit(m, Edge(nodes[k].edge1)), EdgeLit(m, Edge(nodes[k].edge2))))
  {
    DefineNode(nodes, m, order, lo, cnf, k);
    DefineBelow(nodes, m, order, lo, cnf, Edge(nodes[k].edge1), Edge(nodes[k].edge2));
    var X, Y := Framework.SetOf(order), Framework.SetOf(order + [k]);
    assert Y == X + {k};
    forall c | c in m && !nodes[c].IsVariable() ensures c in X { assert order[m[c] - lo] == c; }
    forall x: nat | x in Y && x < |nodes| && !nodes[x].IsVariable() ensures HasChildren(nodes, Y, x) {
      assert NodeOk(nodes, x);
      if x in X { assert HasChildren(nodes, X, x); }
    }
  }

  /** A closed part of the cone that has the root is the cone, and no node was defined twice. */
  lemma {:induction false} TraverseDone(nodes: seq<Node>, root: nat, lo: nat, m: map<nat, nat>, order: seq<nat>, cnf: seq<Clause>)
    requires NodesOk(nodes) && root < |nodes| && Traversed(nodes, root, lo, m, order, cnf) && root in m
    ensures |order| == |NodeCone(nodes, root)|
  {
    assert nodes[root].IsVariable() || order[m[root] - lo] == root;
    ConeLeast(nodes, root, Framework.SetOf(order));
    assert Framework.SetOf(order) == NodeCone(nodes, root);
    Framework.DistinctCount(order);
  }

  /** Everything on the stack is the root or below it. */
  ghost predicate InCone(nodes: seq<Node>, stack: seq<nat>, root: nat)
    requires NodesOk(nodes) && root < |nodes|
  {
    forall x :: x in stack ==> x == root || x in NodeCone(nodes, root)
  }

  /** The top of the stack, and what its edges lead to, is in the cone. */
  lemma {:induction false} TopInCone(nodes: seq<Node>, stack: seq<nat>, root: nat, k: nat, c: nat)
    requires NodesOk(nodes) && root < |nodes| && InCone(nodes, stack, root) && k in stack && k < |nodes| && !nodes[k].IsVariable()
    requires c in {nodes[k].edge1 / 2 - 1, nodes[k].edge2 / 2 - 1} && NodeOk(nodes, k)
    ensures k in NodeCone(nodes, root)
    ensures !nodes[c].IsVariable() ==> c in NodeCone(nodes, root) && InCone(nodes, stack + [c], root)
  {
    ConeClosed(nodes, root);
    assert HasChildren(nodes, NodeCone(nodes, root), k);
  }

  /** Defines every node below the root, children first. */
  method DefineNodes(nodes: seq<Node>, root: nat, nextFree: nat) returns (m: map<nat, nat>, cnf: seq<Clause>, next: nat, ghost order: seq<nat>)
    requires NodesOk(nodes) && root < |nodes| && nextFree > 0 && VarsBelow(nodes, nextFree)
    ensures MapOk(nodes, m, order, nextFree) && Defines(nodes, m, cnf)
    ensures root in m && next == nextFree + |order| && Below(cnf, next)
    ensures |order| == |NodeCone(nodes, root)| && |cnf| == 3 * |order|
  {
    m := IndexVariables(nodes, nextFree);
    cnf, next, order := [], nextFree, [];
    var pending := [root];
    assert Framework.SetOf(order) == {};
    while pending != []
      invariant true == Traversed(nodes, root, nextFree, m, order, cnf)  // not unfolded
      invariant next == nextFree + |order| && VariablesMapped(nodes, m)
      invariant StackOk(nodes, pending, root, m) && InCone(nodes, pending, root)
      decreases Unmapped(nodes, m), MappedOnStack(pending, m), if pending == [] then 0 else pending[|pending| - 1]
    {
      var k := pending[|pending| - 1];
      if k in m {
        Popped(nodes, pending, root, m);
        assert forall x :: x in pending[..|pending| - 1] ==> x in pending;
        pending := pending[..|pending| - 1];
      } else {
        m, cnf, next, order, pending := Visit(nodes, root, nextFree, m, cnf, next, order, pending);
      }
    }
    TraverseDone(nodes, root, nextFree, m, order, cnf);
  }

  ghost predicate VariablesMapped(nodes: seq<Node>, m: map<nat, nat>) {
    forall k: nat :: k < |nodes| && nodes[k].IsVariable() ==> k in m
  }

  /** An and-node on top of the stack: pushes a child without variable, or defines the node. */
  method Visit(nodes: seq<Node>, ghost root: nat, ghost lo: nat, m0: map<nat, nat>, cnf0: seq<Clause>, next0: nat, ghost order0: seq<nat>, pending0: seq<nat>)
    returns (m: map<nat, nat>, cnf: seq<Clause>, next: nat, ghost order: seq<nat>, pending: seq<nat>)
    requires NodesOk(nodes) && root < |nodes| && lo > 0 && VarsBelow(nodes, lo) && Traversed(nodes, root, lo, m0, order0, cnf0)
    requires next0 == lo + |order0| && VariablesMapped(nodes, m0)
    requires StackOk(nodes, pending0, root, m0) && InCone(nodes, pending0, root)
    requires pending0 != [] && pending0[|pending0| - 1] !in m0
    ensures Traversed(nodes, root, lo, m, order, cnf)
    ensures next == lo + |order| && VariablesMapped(nodes, m)
    ensures StackOk(nodes, pending, root, m) && InCone(nodes, pending, root)
    ensures Unmapped(nodes, m) < Unmapped(nodes, m0) ||
      (m == m0 && MappedOnStack(pending, m) == MappedOnStack(pending0, m0) && pending != [] &&
       pending[|pending| - 1] < pending0[|pending0| - 1])
  {
    m, cnf, next, order, pending := m0, cnf0, next0, order0, pending0;
    var k := pending[|pending| - 1];
    assert k in pending && NodeOk(nodes, k);
    var e1, e2 := Edge(nodes[k].edge1), Edge(nodes[k].edge2);
    TopInCone(nodes, pending, root, k, e1.Node());
    TopInCone(nodes, pending, root, k, e2.Node());
    if e1.Node() !in m {
      PushedChild(nodes, pending, root, m, e1.Node());
      pending := pending + [e1.Node()];
    } else if e2.Node() !in m {
      PushedChild(nodes, pending, root, m, e2.Node());
      pending := pending + [e2.Node()];
    } else {
      TraverseStep(nodes, root, lo, m, order, cnf, k);
      MappedTop(nodes, pending, root, m, next);
      assert forall x :: x in pending[..|pending| - 1] ==> x in pending;
      pending := pending[..|pending| - 1];
      var lit1, lit2 := EdgeLit(m, e1), EdgeLit(m, e2);
      cnf := cnf + AndClauses(next, lit1, lit2);
      m := m[k := next];
      next, order := next + 1, order + [k];
    }
  }

  /** The clauses for an edge of the graph; fresh variables are taken from nextFree on, one for each
      and-node below the edge. */
  method CreateCnf(aig: Aig, root: Edge, nextFree: nat) returns (ty: CnfType, cnf: seq<Clause>, next: nat)
    requires aig.Valid() && EdgeIn(root, |aig.nodes|) && VarsBelow(aig.nodes, nextFree) && nextFree > 0
    ensures Encodes(Meaning(aig.nodes, root), ty, cnf, nextFree, next)
    ensures ty == if root == TRUE then CONSTANT1 else if root == FALSE then CONSTANT0 else NORMAL
    ensures next == nextFree + |Cone(aig.nodes, root)| && |cnf| == ClauseCount(aig.nodes, root)
  {
    if root.IsConstant() {
      if root == FALSE { return CONSTANT0, [[]], nextFree; }
      return CONSTANT1, [], nextFree;
    }
    var node := aig.nodes[root.Node()];
    if node.IsVariable() {
      var lit: int := if root.IsNegated() then -(node.edge1 as int) else node.edge1;
      LiteralEncodes(aig.nodes, root, lit, nextFree);
      return NORMAL, [[lit]], nextFree;
    }
    var m, defs;
    ghost var order;
    m, defs, next, order := DefineNodes(aig.nodes, root.Node(), nextFree);
    RootEncodes(aig.nodes, m, order, nextFree, defs, root);
    ty, cnf := NORMAL, defs + [[EdgeLit(m, root)]];
  }

  lemma NoDefinitions(lo: nat)
    ensures UniquelyExtends([], lo, lo)
  {
    forall v ensures Extends(v, [], lo, lo) { assert Agree(v, v, lo, lo) && Models(v, []); }
    forall v, w | Agree(v, w, lo, lo) ensures v == w {
      assert forall x :: x in v <==> x in w;
    }
  }

  lemma {:induction false} MeaningIgnores(nodes: seq<Node>, root: Edge, lo: nat)
    requires NodesOk(nodes) && EdgeIn(root, |nodes|) && VarsBelow(nodes, lo)
    ensures Ignores(Meaning(nodes, root), lo)
  {
    forall v, w, hi | v in Meaning(nodes, root) && Agree(v, w, lo, hi) ensures w in Meaning(nodes, root) {
      EdgeAgrees(nodes, root, v, w, lo, hi);
    }
  }

  /** The function holds exactly where the clauses can be satisfied by choosing the fresh variables. */
  lemma {:induction false} CnfEquisatisfiable(F: iset<Valuation>, ty: CnfType, cnf: seq<Clause>, lo: nat, hi: nat, v: Valuation)
    requires Ignores(F, lo) && Encodes(F, ty, cnf, lo, hi)
    ensures v in F <==> Extends(v, cnf, lo, hi)
    ensures Models(v, cnf) ==> v in F
  {
    match ty
    case CONSTANT0 =>
      assert [] in cnf;
    case CONSTANT1 =>
      assert Agree(v, v, lo, hi) && Models(v, cnf);
    case NORMAL =>
      assert cnf[|cnf| - 1] == [Trigger(cnf)];
      assert cnf == Defs(cnf) + [[Trigger(cnf)]];
      assert Extends(v, Defs(cnf), lo, hi);
      Extend(Defs(cnf), [Trigger(cnf)]);
      Short(Trigger(cnf), 0, 0);
      forall w | Agree(v, w, lo, hi) ensures v in F <==> w in F {
        assert Agree(w, v, lo, hi);
      }
  }
}
