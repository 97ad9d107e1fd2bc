/** Building the framework from a list of attacks, and handing it to the grounded worklist. */
module Loading {
  import opened Framework
  import opened BitSets
  import opened GroundedTasks

  /** The parents agree with the attacks read so far. */
  ghost predicate ParentsRead(n: nat, attacks: seq<(nat, nat)>, parents: seq<seq<nat>>) {
    && |parents| == n
    && (forall i: nat, j: nat :: i < n && j < n ==> multiset(parents[j])[i] == multiset(attacks)[(i, j)])
    && (forall j: nat, p :: j < n && p in parents[j] ==> p < n)
  }

  ghost predicate ChildrenRead(n: nat, attacks: seq<(nat, nat)>, children: seq<seq<nat>>) {
    && |children| == n
    && (forall i: nat, j: nat :: i < n && j < n ==> multiset(children[i])[j] == multiset(attacks)[(i, j)])
    && (forall i: nat, c :: i < n && c in children[i] ==> c < n)
  }

  lemma ParentRead(n: nat, attacks: seq<(nat, nat)>, k: nat, parents: seq<seq<nat>>, i: nat, j: nat)
    requires k < |attacks| && attacks[k] == (i, j) && i < n && j < n && ParentsRead(n, attacks[..k], parents)
    ensures ParentsRead(n, attacks[..k + 1], parents[j := [i] + parents[j]])
  {
    assert attacks[..k + 1] == attacks[..k] + [(i, j)];
    assert multiset([i] + parents[j]) == multiset([i]) + multiset(parents[j]);
  }

  lemma ChildRead(n: nat, attacks: seq<(nat, nat)>, k: nat, children: seq<seq<nat>>, i: nat, j: nat)
    requires k < |attacks| && attacks[k] == (i, j) && i < n && j < n && ChildrenRead(n, attacks[..k], children)
    ensures ChildrenRead(n, attacks[..k + 1], children[i := [j] + children[i]])
  {
    assert attacks[..k + 1] == attacks[..k] + [(i, j)];
    assert multiset([j] + children[i]) == multiset([j]) + multiset(children[i]);
  }

  ghost predicate Lengths(counts: seq<nat>, lists: seq<seq<nat>>) {
    |counts| == |lists| && forall j: nat :: j < |lists| ==> counts[j] == |lists[j]|
  }

  lemma LengthsStep(counts: seq<nat>, lists: seq<seq<nat>>, j: nat, i: nat)
    requires Lengths(counts, lists) && j < |lists|
    ensures Lengths(counts[j := counts[j] + 1], lists[j := [i] + lists[j]])
  {
  }

  /** The counters and the initial arguments agree with the parents. */
  ghost predicate Counts(parents: seq<seq<nat>>, attackers: array<nat>, initial: BitSet)
    reads attackers, initial, initial.data
  {
    && initial.Valid() && initial.length == |parents| && attackers as object != initial.data
    && Lengths(attackers[..], parents)
    && forall j: nat :: j < |parents| ==> (j in initial.Members() <==> parents[j] == [])
  }

  ghost predicate Loaded(n: nat, attacks: seq<(nat, nat)>, parents: seq<seq<nat>>, children: seq<seq<nat>>, attackers: array<nat>, initial: BitSet)
    reads attackers, initial, initial.data
  {
    ParentsRead(n, attacks, parents) && ChildrenRead(n, attacks, children) && LengthsRead(n, attacks, parents) && Counts(parents, attackers, initial)
  }

  /** One more attacker of j. */
  method Count(parents: seq<seq<nat>>, attackers: array<nat>, initial: BitSet, i: nat, j: nat)
    requires Counts(parents, attackers, initial) && j < |parents|
    modifies attackers, initial.data
    ensures Counts(parents[j := [i] + parents[j]], attackers, initial)
  {
    LengthsStep(attackers[..], parents, j, i);
    ghost var before := attackers[..];
    attackers[j] := attackers[j] + 1;
    assert attackers[..] == before[j := before[j] + 1];
    initial.Unset(j);
  }

  /** How many attacks are on j. */
  ghost function AttacksOn(attacks: seq<(nat, nat)>, j: nat): nat {
    if attacks == [] then 0
    else AttacksOn(attacks[..|attacks| - 1], j) + if attacks[|attacks| - 1].1 == j then 1 else 0
  }

  /** The number of parents is the number of attacks read. */
  ghost predicate LengthsRead(n: nat, attacks: seq<(nat, nat)>, parents: seq<seq<nat>>) {
    |parents| == n && forall j: nat :: j < n ==> |parents[j]| == AttacksOn(attacks, j)
  }

  lemma LengthRead(n: nat, attacks: seq<(nat, nat)>, k: nat, parents: seq<seq<nat>>, i: nat, j: nat)
    requires k < |attacks| && attacks[k] == (i, j) && j < n && LengthsRead(n, attacks[..k], parents)
    ensures LengthsRead(n, attacks[..k + 1], parents[j := [i] + parents[j]])
  {
    assert attacks[..k + 1][..k] == attacks[..k];
  }

  /** No attack is counted twice: the attacks on j fall into those from each argument. */
  lemma {:induction false} AttacksOnOne(attacks: seq<(nat, nat)>, i: nat, j: nat)
    ensures multiset(attacks)[(i, j)] <= AttacksOn(attacks, j)
    ensures (forall q :: q in attacks && q.1 == j ==> q.0 == i) ==> AttacksOn(attacks, j) == multiset(attacks)[(i, j)]
  {
    if attacks != [] {
      var rest, last := attacks[..|attacks| - 1], attacks[|attacks| - 1];
      AttacksOnOne(rest, i, j);
      assert attacks == rest + [last];
      assert multiset(attacks) == multiset(rest) + multiset{last};
    }
  }

  /** Reads the attacks one by one, prepending to both lists and counting. */
  method Load(n: nat, attacks: seq<(nat, nat)>) returns (af: AAF, attackers: array<nat>, initial: BitSet)
    requires forall q :: q in attacks ==> q.0 < n && q.1 < n
    ensures af.Valid() && af.n == n
    ensures forall i: nat, j: nat :: Attacks(af, i, j) <==> (i, j) in attacks
    ensures fresh(attackers) && fresh(initial) && fresh(initial.data) && initial.Valid() && initial.length == n
    ensures attackers as object != initial.data && attackers.Length == n
    ensures forall i: nat, j: nat :: i < n && j < n ==> multiset(af.parents[j])[i] == multiset(attacks)[(i, j)]
    ensures forall i: nat, j: nat :: i < n && j < n ==> multiset(af.children[i])[j] == multiset(attacks)[(i, j)]
    ensures forall j: nat :: j < n ==> attackers[j] == |af.parents[j]| == AttacksOn(attacks, j) && (j in initial.Members() <==> af.parents[j] == [])
  {
    var parents, children := seq(n, _ => []), seq(n, _ => []);
    attackers := new nat[n](_ => 0);
    initial := new BitSet(n);
    initial.SetAll();
    for k := 0 to |attacks|
      invariant Loaded(n, attacks[..k], parents, children, attackers, initial)
    {
      assert attacks[k] in attacks;
      var (i, j) := attacks[k];
      ParentRead(n, attacks, k, parents, i, j);
      ChildRead(n, attacks, k, children, i, j);
      LengthRead(n, attacks, k, parents, i, j);
      Count(parents, attackers, initial, i, j);
      children := children[i := [j] + children[i]];
      parents := parents[j := [i] + parents[j]];
    }
    assert attacks[..|attacks|] == attacks;
    af := AAF(n, parents, children);
    Built(af, attacks);
  }

  lemma {:induction false} Built(af: AAF, attacks: seq<(nat, nat)>)
    requires ParentsRead(af.n, attacks, af.parents) && ChildrenRead(af.n, attacks, af.children)
    requires forall q :: q in attacks ==> q.0 < af.n && q.1 < af.n
    ensures af.Valid()
    ensures forall i: nat, j: nat :: Attacks(af, i, j) <==> (i, j) in attacks
  {
    forall i: nat, j: nat ensures Attacks(af, i, j) <==> (i, j) in attacks {
      if i < af.n && j < af.n { assert multiset(af.parents[j])[i] == multiset(attacks)[(i, j)]; }
      assert (i, j) in multiset(attacks) <==> (i, j) in attacks;
      if j < af.n { assert i in af.parents[j] <==> i in multiset(af.parents[j]); }
    }
  }

  /** The members of a bit set, collected in increasing order. */
  method Collect(b: BitSet) returns (s: set<nat>)
    requires b.Valid()
    ensures s == b.Members()
  {
    s := {};
    var i := b.NextSetBit(0);
    while i != -1
      invariant i == -1 || i in b.Members()
      invariant forall x :: x in s <==> x in b.Members() && (i == -1 || x < i)
      decreases if i == -1 then 0 else b.length - i
    {
      s := s + {i};
      i := b.NextSetBit(i + 1);
    }
  }

  /** From the attacks to a framework with its grounded labelling. */
  method Prepare(n: nat, attacks: seq<(nat, nat)>) returns (af: AAF, g: Labeling)
    requires forall q :: q in attacks ==> q.0 < n && q.1 < n
    ensures af.Valid() && af.n == n && GroundedLabeling(af, g)
    ensures forall i: nat, j: nat :: Attacks(af, i, j) <==> (i, j) in attacks
    ensures forall i: nat, j: nat :: i < n && j < n ==> multiset(af.parents[j])[i] == multiset(attacks)[(i, j)]
    ensures forall i: nat, j: nat :: i < n && j < n ==> multiset(af.children[i])[j] == multiset(attacks)[(i, j)]
  {
    var attackers, initial;
    af, attackers, initial := Load(n, attacks);
    var ins, outs := ComputeGrounded(af, initial, attackers);
    var i := Collect(ins);
    var o := Collect(outs);
    g := Labeling(i, o);
  }
}
