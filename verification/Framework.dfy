/** Dung frameworks: the graph the solver works on, its semantics, and the
    facts about admissible sets the algorithms rely on. */
module Framework {

  /** The attack graph, stored from both ends with multiplicity. */
  datatype AAF = AAF(n: nat, parents: seq<seq<nat>>, children: seq<seq<nat>>) {
    ghost predicate Valid() {
      && |parents| == n && |children| == n
      && (forall j, p :: 0 <= j < n && p in parents[j] ==> p < n)
      && (forall i, c :: 0 <= i < n && c in children[i] ==> c < n)
      && (forall i, j :: 0 <= i < n && 0 <= j < n ==> multiset(parents[j])[i] == multiset(children[i])[j])
    }
  }

  datatype Option<T> = None | Some(value: T)

  /** The grounded labelling the tasks receive. */
  datatype Labeling = Labeling(ins: set<nat>, outs: set<nat>)

  predicate Attacks(af: AAF, i: nat, j: nat) {
    j < |af.parents| && i in af.parents[j]
  }

  lemma AttacksChildren(af: AAF, i: nat, j: nat)
    requires af.Valid() && i < af.n && j < af.n
    ensures Attacks(af, i, j) <==> j in af.children[i]
  {
    assert multiset(af.parents[j])[i] == multiset(af.children[i])[j];
    assert i in af.parents[j] <==> i in multiset(af.parents[j]);
    assert j in af.children[i] <==> j in multiset(af.children[i]);
  }

  predicate Below(i: nat, n: nat) { i < n }

  /** The numbers below n. */
  function UpTo(n: nat): set<nat> { set i: nat | i < n && Below(i, n) }

  lemma {:induction false} UpToCount(n: nat)
    ensures |UpTo(n)| == n
  {
    if n == 0 {
      assert UpTo(n) == {};
    } else {
      UpToCount(n - 1);
      assert UpTo(n) == UpTo(n - 1) + {n - 1};
    }
  }

  function SetOf(a: seq<nat>): (s: set<nat>)
    ensures forall x :: x in s <==> x in a
  {
    set x | x in a
  }

  lemma {:induction false} DistinctCount(a: seq<nat>)
    requires forall j: nat, k: nat :: j < k < |a| ==> a[j] != a[k]
    ensures |SetOf(a)| == |a|
  {
    if a == [] {
      assert SetOf(a) == {};
    } else {
      var init, last := a[..|a| - 1], a[|a| - 1];
      DistinctCount(init);
      assert a == init + [last];
      assert SetOf(a) == SetOf(init) + {last};
    }
  }

  function Args(af: AAF): set<nat> { UpTo(af.n) }

  /** Some member of S attacks j. */
  ghost predicate Hits(af: AAF, S: set<nat>, j: nat) {
    exists i {:trigger Attacks(af, i, j)} :: i in S && Attacks(af, i, j)
  }

  /** i attacks some member of S. */
  ghost predicate HitBy(af: AAF, i: nat, S: set<nat>) {
    exists j {:trigger Attacks(af, i, j)} :: j in S && Attacks(af, i, j)
  }

  /** Everything S attacks. */
  ghost function Plus(af: AAF, S: set<nat>): set<nat> {
    set j: nat | j < af.n && Hits(af, S, j)
  }

  /** Everything that attacks S. */
  ghost function Minus(af: AAF, S: set<nat>): set<nat> {
    set i: nat | i < af.n && HitBy(af, i, S)
  }

  ghost function Range(af: AAF, S: set<nat>): set<nat> { S + Plus(af, S) }

  /** S attacks every attacker of j. */
  ghost predicate Defends(af: AAF, S: set<nat>, j: nat) {
    forall i {:trigger Attacks(af, i, j)} :: Attacks(af, i, j) ==> Hits(af, S, i)
  }

  ghost predicate ConflictFree(af: AAF, S: set<nat>) {
    S <= Args(af) && forall j :: j in S ==> !Hits(af, S, j)
  }

  ghost predicate Admissible(af: AAF, S: set<nat>) {
    ConflictFree(af, S) && forall j :: j in S ==> Defends(af, S, j)
  }

  ghost predicate Complete(af: AAF, S: set<nat>) {
    Admissible(af, S) && forall j: nat :: j < af.n && Defends(af, S, j) ==> j in S
  }

  ghost predicate Stable(af: AAF, S: set<nat>) {
    ConflictFree(af, S) && Range(af, S) == Args(af)
  }

  ghost predicate Preferred(af: AAF, S: set<nat>) {
    Admissible(af, S) && forall T :: Admissible(af, T) && S <= T ==> T == S
  }

  ghost predicate SemiStable(af: AAF, S: set<nat>) {
    Admissible(af, S) && forall T :: Admissible(af, T) && Range(af, S) <= Range(af, T) ==> Range(af, T) == Range(af, S)
  }

  ghost predicate Stage(af: AAF, S: set<nat>) {
    ConflictFree(af, S) && forall T :: ConflictFree(af, T) && Range(af, S) <= Range(af, T) ==> Range(af, T) == Range(af, S)
  }

  /** S is contained in every preferred extension. */
  ghost predicate BelowPreferred(af: AAF, S: set<nat>) {
    forall P :: Preferred(af, P) ==> S <= P
  }

  /** The ideal extension: the largest admissible set below every preferred extension. */
  ghost predicate Ideal(af: AAF, S: set<nat>) {
    && Admissible(af, S) && BelowPreferred(af, S)
    && forall T :: Admissible(af, T) && BelowPreferred(af, T) ==> T <= S
  }

  ghost predicate Skeptical(af: AAF, a: nat) {
    forall P :: Preferred(af, P) ==> a in P
  }

  ghost function Characteristic(af: AAF, S: set<nat>): set<nat> {
    set j: nat | j < af.n && Defends(af, S, j)
  }

  /** The least fixpoint of the characteristic function. */
  ghost predicate Grounded(af: AAF, G: set<nat>) {
    && Characteristic(af, G) == G
    && forall X :: X <= Args(af) && Characteristic(af, X) <= X ==> G <= X
  }

  ghost predicate GroundedLabeling(af: AAF, g: Labeling) {
    Grounded(af, g.ins) && g.outs == Plus(af, g.ins)
  }

  // ---------------------------------------------------------------- lemmas

  lemma HitsMono(af: AAF, S: set<nat>, T: set<nat>, j: nat)
    requires S <= T && Hits(af, S, j)
    ensures Hits(af, T, j)
  {
    var i :| i in S && Attacks(af, i, j);
    assert i in T;
  }

  lemma PlusMono(af: AAF, S: set<nat>, T: set<nat>)
    requires S <= T
    ensures Plus(af, S) <= Plus(af, T)
  {
    forall j | j in Plus(af, S) ensures j in Plus(af, T) { HitsMono(af, S, T, j); }
  }

  lemma HitsUnion(af: AAF, S: set<nat>, T: set<nat>, j: nat)
    ensures Hits(af, S + T, j) <==> Hits(af, S, j) || Hits(af, T, j)
  {
    if Hits(af, S, j) { HitsMono(af, S, S + T, j); }
    if Hits(af, T, j) { HitsMono(af, T, S + T, j); }
  }

  /** If S does not attack the admissible set T's members, T does not attack the admissible S either. */
  lemma NoHitBack(af: AAF, S: set<nat>, T: set<nat>)
    requires Admissible(af, S) && forall j :: j in T ==> !Hits(af, S, j)
    ensures forall j :: j in S ==> !Hits(af, T, j)
  {
    forall j | j in S ensures !Hits(af, T, j) {
      assert Defends(af, S, j);
    }
  }

  lemma DefendsMono(af: AAF, S: set<nat>, T: set<nat>, j: nat)
    requires S <= T && Defends(af, S, j)
    ensures Defends(af, T, j)
  {
    forall i: nat | Attacks(af, i, j) ensures Hits(af, T, i) { HitsMono(af, S, T, i); }
  }

  /** Two admissible sets, one of which does not attack the other, have an admissible union. */
  lemma AdmissibleUnion(af: AAF, S: set<nat>, T: set<nat>)
    requires Admissible(af, S) && Admissible(af, T)
    requires forall j :: j in T ==> !Hits(af, S, j)
    ensures Admissible(af, S + T)
  {
    NoHitBack(af, S, T);
    forall j | j in S + T
      ensures !Hits(af, S + T, j) && Defends(af, S + T, j)
    {
      HitsUnion(af, S, T, j);
      DefendsMono(af, if j in S then S else T, S + T, j);
    }
  }

  lemma EmptyAdmissible(af: AAF)
    ensures Admissible(af, {})
  {
  }

  /** Every admissible set lies below a preferred extension. */
  lemma {:induction false} PreferredAbove(af: AAF, S: set<nat>) returns (P: set<nat>)
    requires Admissible(af, S)
    ensures Preferred(af, P) && S <= P
    decreases Args(af) - S
  {
    if T :| Admissible(af, T) && S < T {
      assert exists x :: x in T && x !in S;
      P := PreferredAbove(af, T);
    } else {
      P := S;
    }
  }

  /** A preferred extension attacks every admissible set it does not contain. */
  lemma PreferredConflict(af: AAF, P: set<nat>, S: set<nat>)
    requires Preferred(af, P) && Admissible(af, S) && !(S <= P)
    ensures exists j :: j in S && Hits(af, P, j)
  {
    assert P <= P + S && P + S != P;
    if forall j :: j in S ==> !Hits(af, P, j) {
      AdmissibleUnion(af, P, S);
    }
  }

  lemma CharacteristicMono(af: AAF, S: set<nat>, T: set<nat>)
    requires S <= T
    ensures Characteristic(af, S) <= Characteristic(af, T)
  {
    forall j | j in Characteristic(af, S) ensures j in Characteristic(af, T) { DefendsMono(af, S, T, j); }
  }

  /** No admissible set, nor the grounded extension itself, attacks a grounded argument. */
  lemma GroundedNotHit(af: AAF, G: set<nat>, S: set<nat>)
    requires Grounded(af, G) && (Admissible(af, S) || S == G)
    ensures forall a :: a in G ==> !Hits(af, S, a)
  {
    var X := G - Plus(af, S);
    assert forall s :: s in S ==> Defends(af, S, s) by {
      assert Characteristic(af, G) == G;
    }
    assert forall c: nat, s :: s in S && Attacks(af, c, s) ==> Hits(af, S, c);
    assert G <= Args(af);
    forall s | s in S ensures !Hits(af, X, s) {
      assert forall c :: c in X ==> !Hits(af, S, c);
    }
    CharacteristicMono(af, X, G);
    forall a | a in Characteristic(af, X) ensures a in X {
      assert Defends(af, X, a);
      assert !Hits(af, S, a);
    }
    assert G <= X;
    forall a | a in G ensures !Hits(af, S, a) { assert a in X; }
  }

  lemma GroundedComplete(af: AAF, G: set<nat>)
    requires Grounded(af, G)
    ensures Complete(af, G)
  {
    GroundedNotHit(af, G, G);
    forall j | j in G ensures Defends(af, G, j) { assert j in Characteristic(af, G); }
    forall j: nat | j < af.n && Defends(af, G, j) ensures j in G { assert j in Characteristic(af, G); }
  }

  /** Adding the grounded extension keeps a set admissible. */
  lemma AddGrounded(af: AAF, G: set<nat>, S: set<nat>)
    requires Grounded(af, G) && Admissible(af, S)
    ensures Admissible(af, S + G)
  {
    GroundedNotHit(af, G, S);
    GroundedComplete(af, G);
    AdmissibleUnion(af, S, G);
  }

  lemma PreferredHasGrounded(af: AAF, G: set<nat>, P: set<nat>)
    requires Grounded(af, G) && Preferred(af, P)
    ensures G <= P
  {
    AddGrounded(af, G, P);
    assert P <= P + G;
  }

  /** Nothing admissible lies strictly above a preferred extension. */
  lemma AtPreferred(af: AAF, P: set<nat>, S: set<nat>)
    requires Preferred(af, P) && Admissible(af, S) && P <= S
    ensures S == P
  {
  }

  /** The grounded extension is the least complete extension. */
  lemma GroundedLeastComplete(af: AAF, G: set<nat>, E: set<nat>)
    requires Grounded(af, G) && Complete(af, E)
    ensures G <= E
  {
    assert Characteristic(af, E) <= E;
  }

  /** Dung's fundamental lemma: what an admissible set defends may join it. */
  lemma DefendedExtends(af: AAF, E: set<nat>, j: nat)
    requires af.Valid() && Admissible(af, E) && j < af.n && Defends(af, E, j)
    ensures Admissible(af, E + {j})
  {
    var F := E + {j};
    assert forall i :: i in E && Attacks(af, i, j) ==> Hits(af, E, i);
    assert !Hits(af, E, j);
    assert forall x: nat :: Attacks(af, j, x) && x in E ==> Hits(af, E, j);
    assert !Attacks(af, j, j);
    forall x | x in F ensures Defends(af, F, x) && !Hits(af, F, x) {
      DefendsMono(af, E, F, x);
      HitsUnion(af, E, {j}, x);
    }
  }

  lemma PreferredComplete(af: AAF, E: set<nat>)
    requires af.Valid() && Preferred(af, E)
    ensures Complete(af, E)
  {
    forall j: nat | j < af.n && Defends(af, E, j) ensures j in E {
      DefendedExtends(af, E, j);
      assert E <= E + {j};
    }
  }

  /** In a conflict-free superset, everything new lies outside the old range. */
  lemma RangeSeparates(af: AAF, S: set<nat>, T: set<nat>)
    requires ConflictFree(af, T) && S <= T
    ensures Range(af, S) <= Range(af, T)
    ensures T * Range(af, S) == S
  {
    PlusMono(af, S, T);
    forall x | x in T ensures x !in Plus(af, S) {
      assert x !in Plus(af, T);
    }
  }

  /** An admissible set of maximal range is preferred and contains everything it defends. */
  lemma SemiStablePreferred(af: AAF, E: set<nat>)
    requires af.Valid() && SemiStable(af, E)
    ensures Complete(af, E) && Preferred(af, E)
  {
    forall T | Admissible(af, T) && E <= T ensures T == E {
      RangeSeparates(af, E, T);
      assert T <= Range(af, T);
    }
    PreferredComplete(af, E);
  }

  lemma StableIncomparable(af: AAF, S: set<nat>, T: set<nat>)
    requires Stable(af, S) && Stable(af, T) && S <= T
    ensures S == T
  {
    RangeSeparates(af, S, T);
    assert T <= Args(af);
  }

  lemma StableAdmissible(af: AAF, S: set<nat>)
    requires af.Valid() && Stable(af, S)
    ensures Complete(af, S)
  {
    forall j: nat, i: nat | j in S && Attacks(af, i, j) ensures Hits(af, S, i) {
      assert i in Range(af, S);
      assert i !in S;
    }
    forall j: nat | j < af.n && Defends(af, S, j) ensures j in S {
      assert j in Range(af, S);
      assert forall i :: i in S ==> !Hits(af, S, i);
    }
  }

  /** When the grounded labelling decides every argument, it is the only extension under every semantics. */
  lemma AllGrounded(af: AAF, g: Labeling)
    requires af.Valid() && GroundedLabeling(af, g) && Args(af) <= g.ins + g.outs
    ensures Stable(af, g.ins)
    ensures SemiStable(af, g.ins) && Stage(af, g.ins) && Preferred(af, g.ins)
    ensures forall E :: Complete(af, E) ==> E == g.ins
  {
    GroundedComplete(af, g.ins);
    forall E | Complete(af, E) ensures E == g.ins {
      GroundedLeastComplete(af, g.ins, E);
      RangeSeparates(af, g.ins, E);
    }
    assert Range(af, g.ins) == Args(af);
    SemiStablePreferred(af, g.ins);
  }

  lemma Prefix<T>(s: seq<T>, k: nat)
    requires k < |s|
    ensures s[k] in s && s[..k + 1] == s[..k] + [s[k]]
  {
  }
}
