/** The grounded extension by a counter-based worklist, and the label check. */
module GroundedTasks {
  import opened Framework
  import opened BitSets

  // ------------------------------------------------ counting attackers

  /** How many entries of the list are not in O. */
  function CountNot(ps: seq<nat>, O: set<nat>): nat {
    if ps == [] then 0 else CountNot(ps[1..], O) + if ps[0] in O then 0 else 1
  }

  lemma {:induction false} CountZero(ps: seq<nat>, O: set<nat>)
    ensures CountNot(ps, O) == 0 <==> forall p :: p in ps ==> p in O
  {
    if ps != [] {
      CountZero(ps[1..], O);
      assert ps == [ps[0]] + ps[1..];
    }
  }

  /** Adding c to O takes away as many as c occurs. */
  lemma {:induction false} CountAdd(ps: seq<nat>, O: set<nat>, c: nat)
    requires c !in O
    ensures CountNot(ps, O + {c}) == CountNot(ps, O) - multiset(ps)[c]
  {
    if ps != [] {
      CountAdd(ps[1..], O, c);
      assert ps == [ps[0]] + ps[1..];
    }
  }

  // ------------------------------------------------ what the worklist keeps

  /** Everything OUT is attacked by something IN, and everything IN belongs to
      every set that is closed under the characteristic function. */
  ghost predicate Sound(af: AAF, I: set<nat>, O: set<nat>) {
    && O <= Plus(af, I)
    && forall X :: X <= Args(af) && Characteristic(af, X) <= X ==> I <= X
  }

  lemma {:induction false} SoundIn(af: AAF, I: set<nat>, O: set<nat>, d: nat)
    requires af.Valid() && Sound(af, I, O) && d < af.n && forall p :: p in af.parents[d] ==> p in O
    ensures Sound(af, I + {d}, O)
  {
    PlusMono(af, I, I + {d});
    forall X | X <= Args(af) && Characteristic(af, X) <= X ensures d in X {
      PlusMono(af, I, X);
      forall i: nat | Attacks(af, i, d) ensures Hits(af, X, i) { assert i in Plus(af, X); }
      assert d in Characteristic(af, X);
    }
  }

  /** The counters are the attackers not yet OUT, and IN means that none is left. */
  ghost predicate Counted(af: AAF, counters: seq<nat>, I: set<nat>, O: set<nat>)
    requires af.Valid()
  {
    && |counters| == af.n
    && (forall j: nat :: j < af.n ==> counters[j] == CountNot(af.parents[j], O))
    && (forall j: nat :: j < af.n ==> (j in I <==> counters[j] == 0))
    && I <= Args(af)
  }

  /** Everything IN is on the stack or has had all its children put OUT. */
  ghost predicate Pending(af: AAF, stack: seq<nat>, I: set<nat>, O: set<nat>)
    requires af.Valid()
  {
    && (forall a :: a in stack ==> a in I)
    && forall a :: a in I && a < af.n && a !in stack ==> forall c :: c in af.children[a] ==> c in O
  }

  /** An empty stack means that the fixpoint is reached. */
  lemma {:induction false} FixpointReached(af: AAF, counters: seq<nat>, I: set<nat>, O: set<nat>)
    requires af.Valid() && Sound(af, I, O) && Counted(af, counters, I, O) && Pending(af, [], I, O)
    ensures GroundedLabeling(af, Labeling(I, O))
  {
    forall j: nat | j < af.n && Hits(af, I, j) ensures j in O {
      var i :| i in I && Attacks(af, i, j);
      AttacksChildren(af, i, j);
    }
    assert O == Plus(af, I);
    forall j: nat | j < af.n ensures j in I <==> Defends(af, I, j) {
      CountZero(af.parents[j], O);
      forall p: nat ensures Attacks(af, p, j) <==> p in af.parents[j] {
      }
      assert j in I <==> forall p: nat :: Attacks(af, p, j) ==> p in O;
    }
    assert Characteristic(af, I) == I;
  }

  /** Halfway through the children of c: the counters still to be lowered. */
  ghost predicate Lowering(af: AAF, counters: seq<nat>, I: set<nat>, O: set<nat>, done: seq<nat>)
    requires af.Valid()
  {
    && |counters| == af.n
    && (forall j: nat :: j < af.n ==> counters[j] == CountNot(af.parents[j], O) - multiset(done)[j])
    && (forall j: nat :: j < af.n ==> (j in I <==> counters[j] == 0))
    && I <= Args(af)
  }

  lemma {:induction false} LowerOne(af: AAF, O: set<nat>, c: nat, k: nat)
    requires af.Valid() && c < af.n && c !in O && k < |af.children[c]|
    ensures var d := af.children[c][k];
      d < af.n && CountNot(af.parents[d], O) > multiset(af.children[c][..k])[d]
  {
    var cs := af.children[c];
    var d := cs[k];
    assert d in cs;
    CountAdd(af.parents[d], O, c);
    assert cs == cs[..k] + [d] + cs[k + 1..];
    assert multiset(cs)[d] > multiset(cs[..k])[d];
  }

  lemma {:induction false} AllLowered(af: AAF, counters: seq<nat>, I: set<nat>, O: set<nat>, c: nat)
    requires af.Valid() && c < af.n && c !in O && Lowering(af, counters, I, O, af.children[c])
    ensures Counted(af, counters, I, O + {c})
  {
    forall j: nat | j < af.n ensures counters[j] == CountNot(af.parents[j], O + {c}) {
      CountAdd(af.parents[j], O, c);
      assert multiset(af.parents[j])[c] == multiset(af.children[c])[j];
    }
  }

  /** One child further: its counter goes down by one, and it is IN if nothing is left. */
  lemma {:induction false} LowerStep(af: AAF, counters: seq<nat>, I: set<nat>, O: set<nat>, c: nat, k: nat)
    requires af.Valid() && c < af.n && c !in O && k < |af.children[c]|
    requires Lowering(af, counters, I, O, af.children[c][..k])
    ensures var d := af.children[c][k];
      && d < af.n && counters[d] > 0
      && Lowering(af, counters[d := counters[d] - 1], if counters[d] == 1 then I + {d} else I, O, af.children[c][..k + 1])
      && (counters[d] == 1 ==> forall p :: p in af.parents[d] ==> p in O + {c})
  {
    var cs := af.children[c];
    var d := cs[k];
    LowerOne(af, O, c, k);
    assert cs[..k + 1] == cs[..k] + [d];
    if counters[d] == 1 {
      CountAdd(af.parents[d], O, c);
      assert multiset(af.parents[d])[c] == multiset(cs)[d];
      assert cs == cs[..k + 1] + cs[k + 1..];
      assert multiset(cs)[d] >= multiset(cs[..k + 1])[d];
      CountZero(af.parents[d], O + {c});
    }
  }

  /** Exactly the arguments that became IN were pushed. */
  ghost predicate Pushed(stack0: seq<nat>, I0: set<nat>, stack: seq<nat>, I: set<nat>) {
    (I == I0 ==> stack == stack0) && forall a :: a in stack <==> a in stack0 || (a in I && a !in I0)
  }

  lemma PushOne(stack0: seq<nat>, I0: set<nat>, stack: seq<nat>, I: set<nat>, d: nat)
    requires Pushed(stack0, I0, stack, I) && d !in I && I0 <= I
    ensures Pushed(stack0, I0, [d] + stack, I + {d})
  {
    assert forall a :: a in [d] + stack <==> a == d || a in stack;
  }

  /** Lowers the counters of the children of an argument that has just become OUT. */
  method LowerChildren(af: AAF, c: nat, attackers: array<nat>, ins: BitSet, stack0: seq<nat>, ghost I0: set<nat>, ghost O: set<nat>)
    returns (stack: seq<nat>, ghost I: set<nat>)
    requires af.Valid() && c < af.n && c !in O && ins.Valid() && ins.length == af.n && ins.Members() == I0
    requires attackers as object != ins.data
    requires Counted(af, attackers[..], I0, O) && Sound(af, I0, O + {c})
    modifies attackers, ins.data
    ensures ins.Members() == I && I0 <= I
    ensures Counted(af, attackers[..], I, O + {c}) && Sound(af, I, O + {c})
    ensures Pushed(stack0, I0, stack, I)
  {
    stack, I := stack0, I0;
    var cs := af.children[c];
    for k := 0 to |cs|
      invariant ins.Members() == I && I0 <= I
      invariant Lowering(af, attackers[..], I, O, cs[..k]) && Sound(af, I, O + {c})
      invariant Pushed(stack0, I0, stack, I)
    {
      LowerStep(af, attackers[..], I, O, c, k);
      var d := cs[k];
      ghost var before := attackers[..];
      if attackers[d] > 0 {
        attackers[d] := attackers[d] - 1;
        assert attackers[..] == before[d := before[d] - 1];
        if attackers[d] == 0 {
          SoundIn(af, I, O + {c}, d);
          PushOne(stack0, I0, stack, I, d);
          ins.Set(d);
          I := I + {d};
          stack := [d] + stack;
        }
      }
    }
    assert cs[..|cs|] == cs;
    AllLowered(af, attackers[..], I, O, c);
  }

  /** Puts the children of an argument OUT. */
  method PutChildrenOut(af: AAF, a: nat, attackers: array<nat>, ins: BitSet, outs: BitSet, stack0: seq<nat>, ghost I0: set<nat>, ghost O0: set<nat>)
    returns (stack: seq<nat>, ghost I: set<nat>, ghost O: set<nat>)
    requires af.Valid() && a < af.n && a in I0
    requires ins.Valid() && ins.length == af.n && ins.Members() == I0
    requires outs.Valid() && outs.length == af.n && outs.Members() == O0
    requires attackers as object != ins.data && attackers as object != outs.data && ins.data != outs.data
    requires Counted(af, attackers[..], I0, O0) && Sound(af, I0, O0)
    modifies attackers, ins.data, outs.data
    ensures ins.Members() == I && outs.Members() == O && I0 <= I && O0 <= O
    ensures Counted(af, attackers[..], I, O) && Sound(af, I, O)
    ensures Pushed(stack0, I0, stack, I)
    ensures forall c :: c in af.children[a] ==> c in O
  {
    stack, I, O := stack0, I0, O0;
    var cs := af.children[a];
    for k := 0 to |cs|
      invariant ins.Members() == I && outs.Members() == O && I0 <= I && O0 <= O
      invariant Counted(af, attackers[..], I, O) && Sound(af, I, O)
      invariant Pushed(stack0, I0, stack, I)
      invariant forall c :: c in cs[..k] ==> c in O
    {
      var c := cs[k];
      Prefix(cs, k);
      if !outs.Get(c) {
        outs.Set(c);
        SoundOut(af, I, O, a, c);
        ghost var I1, stack1 := I, stack;
        stack, I := LowerChildren(af, c, attackers, ins, stack, I, O);
        O := O + {c};
        PushedTrans(stack0, I0, stack1, I1, stack, I);
      }
    }
    assert cs[..|cs|] == cs;
  }

  lemma SoundOut(af: AAF, I: set<nat>, O: set<nat>, a: nat, c: nat)
    requires af.Valid() && Sound(af, I, O) && a in I && a < af.n && c in af.children[a]
    ensures Sound(af, I, O + {c})
  {
    AttacksChildren(af, a, c);
    assert Hits(af, I, c);
  }

  lemma PushedTrans(s0: seq<nat>, I0: set<nat>, s1: seq<nat>, I1: set<nat>, s2: seq<nat>, I2: set<nat>)
    requires Pushed(s0, I0, s1, I1) && Pushed(s1, I1, s2, I2) && I0 <= I1 <= I2
    ensures Pushed(s0, I0, s2, I2)
  {
  }

  /** Everything that is unattacked, most recent first. */
  method InitialStack(ins: BitSet) returns (stack: seq<nat>)
    requires ins.Valid()
    ensures forall a :: a in stack <==> a in ins.Members()
  {
    stack := [];
    var a := ins.NextSetBit(0);
    while a != -1
      invariant a == -1 || a in ins.Members()
      invariant forall b :: b in stack <==> b in ins.Members() && (a == -1 || b < a)
      decreases if a == -1 then 0 else ins.length - a
    {
      ghost var before := stack;
      stack := [a] + stack;
      assert forall b :: b in stack <==> b == a || b in before;
      a := ins.NextSetBit(a + 1);
    }
  }

  /** The grounded labelling. The counters end as the number of attackers not OUT. */
  method ComputeGrounded(af: AAF, initial: BitSet, attackers: array<nat>) returns (ins: BitSet, outs: BitSet)
    requires af.Valid() && initial.Valid() && initial.length == af.n
    requires attackers as object != initial.data && attackers.Length == af.n
    requires forall j: nat :: j < af.n ==> attackers[j] == |af.parents[j]| && (j in initial.Members() <==> af.parents[j] == [])
    modifies attackers
    ensures fresh(ins) && fresh(outs) && ins.Valid() && outs.Valid() && ins.length == outs.length == af.n
    ensures GroundedLabeling(af, Labeling(ins.Members(), outs.Members()))
    ensures forall j: nat :: j < af.n ==> attackers[j] == CountNot(af.parents[j], outs.Members())
  {
    ins := new BitSet.Clone(initial);
    outs := new BitSet(af.n);
    outs.UnsetAll();
    var stack := InitialStack(ins);
    InitialSound(af, attackers[..], ins.Members());
    Worklist(af, attackers, ins, outs, stack);
  }

  /** One argument of the stack dealt with. */
  lemma PendingStep(af: AAF, stack0: seq<nat>, I0: set<nat>, O0: set<nat>, stack: seq<nat>, I: set<nat>, O: set<nat>)
    requires af.Valid() && |stack0| > 0 && I0 <= I <= Args(af) && O0 <= O
    requires Pending(af, stack0, I0, O0) && Pushed(stack0[1..], I0, stack, I)
    requires stack0[0] < af.n ==> forall c :: c in af.children[stack0[0]] ==> c in O
    ensures Pending(af, stack, I, O)
    ensures I != I0 ==> Args(af) - I < Args(af) - I0
  {
    assert stack0 == [stack0[0]] + stack0[1..];
    assert forall b :: b in stack0 <==> b == stack0[0] || b in stack0[1..];
  }

  method Worklist(af: AAF, attackers: array<nat>, ins: BitSet, outs: BitSet, stack0: seq<nat>)
    requires af.Valid() && ins.Valid() && ins.length == af.n && outs.Valid() && outs.length == af.n
    requires attackers as object != ins.data && attackers as object != outs.data && ins.data != outs.data
    requires Counted(af, attackers[..], ins.Members(), outs.Members()) && Sound(af, ins.Members(), outs.Members())
    requires Pending(af, stack0, ins.Members(), outs.Members())
    modifies attackers, ins.data, outs.data
    ensures Counted(af, attackers[..], ins.Members(), outs.Members())
    ensures GroundedLabeling(af, Labeling(ins.Members(), outs.Members()))
  {
    var stack := stack0;
    ghost var I, O := ins.Members(), outs.Members();
    while |stack| > 0
      invariant ins.Members() == I && outs.Members() == O
      invariant Counted(af, attackers[..], I, O) && Sound(af, I, O) && Pending(af, stack, I, O)
      decreases Args(af) - I, |stack|
    {
      assert stack[0] in I;
      ghost var stack1, I1, O1 := stack, I, O;
      stack, I, O := PutChildrenOut(af, stack[0], attackers, ins, outs, stack[1..], I, O);
      PendingStep(af, stack1, I1, O1, stack, I, O);
    }
    FixpointReached(af, attackers[..], I, O);
  }

  lemma {:induction false} InitialSound(af: AAF, counters: seq<nat>, I: set<nat>)
    requires af.Valid() && |counters| == af.n && I <= Args(af)
    requires forall j: nat :: j < af.n ==> counters[j] == |af.parents[j]| && (j in I <==> af.parents[j] == [])
    ensures Counted(af, counters, I, {}) && Sound(af, I, {})
  {
    forall j: nat | j < af.n ensures CountNot(af.parents[j], {}) == |af.parents[j]| { CountAll(af.parents[j]); }
    forall X, j | Characteristic(af, X) <= X && j in I ensures j in X {
      assert forall i: nat :: !Attacks(af, i, j);
      assert j in Characteristic(af, X);
    }
  }

  lemma {:induction false} CountAll(ps: seq<nat>)
    ensures CountNot(ps, {}) == |ps|
  {
    if ps != [] { CountAll(ps[1..]); }
  }
}
