/** Three-valued labels and the check that one argument is labelled correctly. */
module Labels {
  import opened Framework

  datatype Label = LAB_IN | LAB_OUT | LAB_UNDEC | LAB_UNLABELED

  function GetLabel(lab: Labeling, a: nat): Label {
    if a in lab.ins && a !in lab.outs then LAB_IN
    else if a !in lab.ins && a in lab.outs then LAB_OUT
    else if a !in lab.ins && a !in lab.outs then LAB_UNDEC
    else LAB_UNLABELED
  }

  /** What the label of an argument asks of its neighbours. */
  ghost predicate Correct(af: AAF, lab: Labeling, a: nat) {
    match GetLabel(lab, a)
    case LAB_IN =>
      && (forall c: nat :: c < af.n && Attacks(af, a, c) ==> GetLabel(lab, c) == LAB_OUT)
      && (forall p: nat :: Attacks(af, p, a) ==> GetLabel(lab, p) == LAB_OUT)
    case LAB_OUT => exists p: nat :: Attacks(af, p, a) && GetLabel(lab, p) == LAB_IN
    case _ =>
      && (forall c: nat :: c < af.n && Attacks(af, a, c) ==> GetLabel(lab, c) != LAB_IN)
      && (forall p: nat :: Attacks(af, p, a) ==> GetLabel(lab, p) != LAB_IN)
      && (exists p: nat :: Attacks(af, p, a) && GetLabel(lab, p) == LAB_UNDEC)
  }

  /** Some listed argument carries the label. */
  method AnyLabelled(lab: Labeling, xs: seq<nat>, l: Label) returns (found: bool)
    ensures found <==> exists x :: x in xs && GetLabel(lab, x) == l
  {
    for k := 0 to |xs|
      invariant forall x :: x in xs[..k] ==> GetLabel(lab, x) != l
    {
      if GetLabel(lab, xs[k]) == l { return true; }
    }
    assert xs[..|xs|] == xs;
    return false;
  }

  method AllLabelled(lab: Labeling, xs: seq<nat>, l: Label) returns (all: bool)
    ensures all <==> forall x :: x in xs ==> GetLabel(lab, x) == l
  {
    for k := 0 to |xs|
      invariant forall x :: x in xs[..k] ==> GetLabel(lab, x) == l
    {
      if GetLabel(lab, xs[k]) != l { return false; }
    }
    assert xs[..|xs|] == xs;
    return true;
  }

  method LabeledCorrectly(af: AAF, lab: Labeling, a: nat) returns (ok: bool)
    requires af.Valid() && a < af.n
    ensures ok <==> Correct(af, lab, a)
    ensures a in lab.ins && a !in lab.outs ==>
      (ok <==> forall b: nat :: b < af.n && (Attacks(af, a, b) || Attacks(af, b, a)) ==> b in lab.outs && b !in lab.ins)
    ensures a in lab.outs && a !in lab.ins ==>
      (ok <==> exists b :: Attacks(af, b, a) && b in lab.ins && b !in lab.outs)
    ensures (a in lab.ins <==> a in lab.outs) ==>
      (ok <==> (forall b: nat :: b < af.n && (Attacks(af, a, b) || Attacks(af, b, a)) ==> b !in lab.ins || b in lab.outs)
               && exists b: nat :: Attacks(af, b, a) && b !in lab.ins && b !in lab.outs)
  {
    forall c: nat | c < af.n ensures Attacks(af, a, c) <==> c in af.children[a] { AttacksChildren(af, a, c); }
    assert forall p: nat :: Attacks(af, p, a) <==> p in af.parents[a];
    if GetLabel(lab, a) == LAB_IN {
      ok := AllLabelled(lab, af.children[a], LAB_OUT);
      if !ok { return false; }
      ok := AllLabelled(lab, af.parents[a], LAB_OUT);
      return ok;
    }
    if GetLabel(lab, a) == LAB_OUT {
      ok := AnyLabelled(lab, af.parents[a], LAB_IN);
      return ok;
    }
    var found := AnyLabelled(lab, af.children[a], LAB_IN);
    if found { return false; }
    found := AnyLabelled(lab, af.parents[a], LAB_IN);
    if found { return false; }
    ok := AnyLabelled(lab, af.parents[a], LAB_UNDEC);
  }

  /** All labels are correct exactly when IN is a complete extension and OUT is what it attacks. */
  lemma {:induction false} CorrectIsComplete(af: AAF, lab: Labeling)
    requires af.Valid() && lab.ins <= Args(af) && lab.outs <= Args(af) && lab.ins !! lab.outs
    ensures (forall a: nat :: a < af.n ==> Correct(af, lab, a)) <==> Complete(af, lab.ins) && lab.outs == Plus(af, lab.ins)
  {
    if forall a: nat :: a < af.n ==> Correct(af, lab, a) { CorrectSound(af, lab); }
    if Complete(af, lab.ins) && lab.outs == Plus(af, lab.ins) { CompleteCorrect(af, lab); }
  }

  lemma {:induction false} CorrectSound(af: AAF, lab: Labeling)
    requires af.Valid() && lab.ins <= Args(af) && lab.outs <= Args(af) && lab.ins !! lab.outs
    requires forall a: nat :: a < af.n ==> Correct(af, lab, a)
    ensures Complete(af, lab.ins) && lab.outs == Plus(af, lab.ins)
  {
    forall a | a in lab.outs ensures Hits(af, lab.ins, a) {
      assert Correct(af, lab, a);
      var p: nat :| Attacks(af, p, a) && GetLabel(lab, p) == LAB_IN;
    }
    forall a: nat | a < af.n && Hits(af, lab.ins, a) ensures a in lab.outs {
      var p :| p in lab.ins && Attacks(af, p, a);
      assert Correct(af, lab, p);
    }
    forall a | a in lab.ins ensures Defends(af, lab.ins, a) {
      assert Correct(af, lab, a);
      forall p: nat | Attacks(af, p, a) ensures Hits(af, lab.ins, p) { assert GetLabel(lab, p) == LAB_OUT; }
    }
    forall a: nat | a < af.n && Defends(af, lab.ins, a) ensures a in lab.ins {
      assert Correct(af, lab, a);
      assert forall p: nat :: Attacks(af, p, a) ==> p in lab.outs;
    }
  }

  lemma {:induction false} CompleteCorrect(af: AAF, lab: Labeling)
    requires af.Valid() && Complete(af, lab.ins) && lab.outs == Plus(af, lab.ins)
    ensures forall a: nat :: a < af.n ==> Correct(af, lab, a)
  {
    forall a: nat | a < af.n ensures Correct(af, lab, a) {
      if a in lab.ins {
        assert Defends(af, lab.ins, a);
        forall c: nat | c < af.n && Attacks(af, a, c) ensures GetLabel(lab, c) == LAB_OUT { assert Hits(af, lab.ins, c); }
      } else if a in lab.outs {
        var p :| p in lab.ins && Attacks(af, p, a);
        assert GetLabel(lab, p) == LAB_IN by { assert !Hits(af, lab.ins, p); }
      } else {
        assert !Defends(af, lab.ins, a) && !Hits(af, lab.ins, a);
        var p: nat :| Attacks(af, p, a) && !Hits(af, lab.ins, p);
        assert GetLabel(lab, p) == LAB_UNDEC;
        forall c: nat | c < af.n && Attacks(af, a, c) ensures c !in lab.ins {
          assert c in lab.ins ==> Defends(af, lab.ins, c);
        }
      }
    }
  }
}
