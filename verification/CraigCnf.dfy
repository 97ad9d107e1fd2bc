/** Interpolants as clauses: one construction, or the conjunction or disjunction of several. */
module CraigCnf {
  import opened Sat
  import opened Aigs
  import opened Tseitin
  import opened Interpolation
  import opened Craig
  import opened Tracer

  datatype Part = Part(ty: CnfType, cnf: seq<Clause>)

  // ------------------------------------------------ inverting

  ghost function Complement(F: iset<Valuation>): iset<Valuation> { iset v: Valuation | v !in F }

  /** Clauses for the negation: constants are swapped, the final unit clause is negated. */
  method Invert(part: Part, ghost F: iset<Valuation>, ghost lo: nat, ghost hi: nat) returns (inverted: Part)
    requires Encodes(F, part.ty, part.cnf, lo, hi)
    ensures Encodes(Complement(F), inverted.ty, inverted.cnf, lo, hi)
    ensures part.ty == NORMAL ==> inverted.ty == NORMAL && |inverted.cnf| == |part.cnf|
    ensures part.ty == CONSTANT0 ==> inverted.ty == CONSTANT1
    ensures part.ty == CONSTANT1 ==> inverted.ty == CONSTANT0
  {
    if part.ty == CONSTANT1 { return Part(CONSTANT0, [[]]); }
    if part.ty == CONSTANT0 { return Part(CONSTANT1, []); }
    var cnf := part.cnf;
    var trigger := cnf[|cnf| - 1][0];
    assert cnf[|cnf| - 1] in cnf && trigger in cnf[|cnf| - 1];
    inverted := Part(NORMAL, cnf[..|cnf| - 1] + [[-trigger]]);
    assert Defs(inverted.cnf) == Defs(cnf);
    assert forall c :: c in Defs(cnf) ==> c in cnf;
  }

  /** The number of clauses of one construction; an inverted constant changes sides. */
  ghost function PartCount(column: Column, root: Edge): nat
    requires column.aig.Valid() && EdgeIn(root, |column.aig.nodes|)
    reads column.aig
  {
    if column.kind == DUAL_SYMMETRIC && root.IsConstant() then 1 - ClauseCount(column.aig.nodes, root)
    else ClauseCount(column.aig.nodes, root)
  }

  /** The clauses of one construction. */
  method PartFor(column: Column, root: Edge, nextFree: nat) returns (part: Part, next: nat)
    requires column.aig.Valid() && EdgeIn(root, |column.aig.nodes|) && VarsBelow(column.aig.nodes, nextFree) && nextFree > 0
    ensures Encodes(column.InterpolantOf(root), part.ty, part.cnf, nextFree, next)
    ensures |part.cnf| == PartCount(column, root) && next == nextFree + |Cone(column.aig.nodes, root)|
  {
    var ty, cnf;
    ghost var F := Meaning(column.aig.nodes, root);
    ty, cnf, next := CreateCnf(column.aig, root, nextFree);
    part := Part(ty, cnf);
    if column.kind == DUAL_SYMMETRIC {
      part := Invert(part, F, nextFree, next);
      assert column.InterpolantOf(root) == Complement(F);
    } else {
      assert column.InterpolantOf(root) == F;
    }
  }

  // ------------------------------------------------ combining

  /** All functions hold (conj), or none does. */
  ghost predicate Inside(conj: bool, fs: seq<iset<Valuation>>, v: Valuation) {
    forall k :: 0 <= k < |fs| ==> (v in fs[k] <==> conj)
  }

  /** The conjunction of the functions (conj) or their disjunction. */
  ghost function Combination(conj: bool, fs: seq<iset<Valuation>>): iset<Valuation> {
    iset v: Valuation | Inside(conj, fs, v) == conj
  }

  lemma CombinationMeans(fs: seq<iset<Valuation>>, v: Valuation)
    ensures v in Combination(true, fs) <==> forall F :: F in fs ==> v in F
    ensures v in Combination(false, fs) <==> exists F :: F in fs && v in F
  {
    if k :| 0 <= k < |fs| && v in fs[k] { assert fs[k] in fs; }
    if k :| 0 <= k < |fs| && v !in fs[k] { assert fs[k] in fs; }
  }

  ghost predicate PartsOk(parts: seq<Part>, fs: seq<iset<Valuation>>, bounds: seq<nat>) {
    && |fs| == |parts| && |bounds| == |parts| + 1
    && forall k :: 0 <= k < |parts| ==> Encodes(fs[k], parts[k].ty, parts[k].cnf, bounds[k], bounds[k + 1])
  }

  function Signed(lit: int, positive: bool): int { if positive then lit else -lit }

  /** Some parts have been taken over: the clauses hold when the definitions do and the
      trigger implies all signed literals; the trigger clause says the converse. */
  ghost predicate Gathered(conj: bool, fs: seq<iset<Valuation>>, lo: nat, hi: nat, t: nat,
                           cnf: seq<Clause>, triggerClause: Clause, defs: seq<Clause>, lits: set<int>) {
    && lo <= hi <= t && t > 0 && UniquelyExtends(defs, lo, hi) && Below(defs, hi)
    && (forall l :: l in lits ==> 0 < Abs(l) < hi)
    && Below(cnf, t + 1) && Below([triggerClause], t + 1)
    && (forall v :: Models(v, cnf) <==> Models(v, defs) && (True(v, Signed(t, conj)) ==> AllTrue(v, lits)))
    && (forall v :: Holds(v, triggerClause) <==> True(v, Signed(t, conj)) || !AllTrue(v, lits))
    && (forall v :: Models(v, defs) ==> (AllTrue(v, lits) <==> Inside(conj, fs, v)))
  }

  lemma GatherNothing(conj: bool, lo: nat, t: nat)
    requires lo <= t && t > 0
    ensures Gathered(conj, [], lo, lo, t, [], [Signed(t, conj)], [], {})
  {
    NoDefinitions(lo);
    Short(Signed(t, conj), 0, 0);
  }

  lemma InsideStep(conj: bool, fs: seq<iset<Valuation>>, F: iset<Valuation>, v: Valuation)
    ensures Inside(conj, fs + [F], v) <==> Inside(conj, fs, v) && (v in F <==> conj)
  {
    var more := fs + [F];
    assert more[|fs|] == F && forall k :: 0 <= k < |fs| ==> more[k] == fs[k];
  }

  /** Clauses below lo do not see variables from lo on. */
  lemma BelowIgnores(cnf: seq<Clause>, lo: nat, hi: nat, v: Valuation, w: Valuation)
    requires Below(cnf, lo) && Agree(v, w, lo, hi) && Models(v, cnf)
    ensures Models(w, cnf)
  {
    forall c | c in cnf ensures Holds(w, c) {
      assert Holds(v, c);
      var l :| l in c && True(v, l);
      assert True(w, l);
    }
  }

  /** Definitions of two disjoint ranges of variables. */
  lemma {:induction false} ExtendTwice(d1: seq<Clause>, d2: seq<Clause>, lo: nat, mid: nat, hi: nat)
    requires lo <= mid <= hi && Below(d1, mid) && UniquelyExtends(d1, lo, mid) && UniquelyExtends(d2, mid, hi)
    ensures UniquelyExtends(d1 + d2, lo, hi)
  {
    forall v ensures Extends(v, d1 + d2, lo, hi) {
      assert Extends(v, d1, lo, mid);
      var w1 :| Agree(v, w1, lo, mid) && Models(w1, d1);
      assert Extends(w1, d2, mid, hi);
      var w2 :| Agree(w1, w2, mid, hi) && Models(w2, d2);
      BelowIgnores(d1, mid, hi, w1, w2);
      ModelsConcat(w2, d1, d2);
      assert Agree(v, w2, lo, hi);
    }
    forall v, w | Models(v, d1 + d2) && Models(w, d1 + d2) && Agree(v, w, lo, hi) ensures v == w {
      ModelsConcat(v, d1, d2);
      ModelsConcat(w, d1, d2);
      LowerPartsAgree(d1, lo, mid, hi, v, w);
    }
  }

  lemma {:induction false} LowerPartsAgree(d1: seq<Clause>, lo: nat, mid: nat, hi: nat, v: Valuation, w: Valuation)
    requires lo <= mid <= hi && Below(d1, mid) && UniquelyExtends(d1, lo, mid)
    requires Models(v, d1) && Models(w, d1) && Agree(v, w, lo, hi)
    ensures Agree(v, w, mid, hi)
  {
    var u := (set x | x in w && !(mid <= x < hi)) + (set x | x in v && mid <= x < hi);
    assert Agree(w, u, mid, hi);
    BelowIgnores(d1, mid, hi, w, u);
    assert Agree(v, u, lo, mid);
    assert v == u;
  }

  /** A constant part that does not decide the result adds nothing. */
  lemma {:induction false} GatherConstant(conj: bool, fs: seq<iset<Valuation>>, lo: nat, hi: nat, t: nat,
                       cnf: seq<Clause>, triggerClause: Clause, defs: seq<Clause>, lits: set<int>, F: iset<Valuation>)
    requires Gathered(conj, fs, lo, hi, t, cnf, triggerClause, defs, lits) && forall v :: v in F <==> conj
    ensures Gathered(conj, fs + [F], lo, hi, t, cnf, triggerClause, defs, lits)
  {
    forall v ensures Inside(conj, fs + [F], v) <==> Inside(conj, fs, v) { InsideStep(conj, fs, F, v); }
  }

  /** A part with definitions: its clauses, and the link between the trigger and its unit. */
  lemma {:induction false} GatherNormal(conj: bool, fs: seq<iset<Valuation>>, lo: nat, hi: nat, t: nat,
                     cnf: seq<Clause>, triggerClause: Clause, defs: seq<Clause>, lits: set<int>,
                     F: iset<Valuation>, part: seq<Clause>, hi': nat)
    requires Gathered(conj, fs, lo, hi, t, cnf, triggerClause, defs, lits)
    requires Encodes(F, NORMAL, part, hi, hi') && hi' <= t
    ensures var lit := Signed(Trigger(part), conj);
      Gathered(conj, fs + [F], lo, hi', t, cnf + Defs(part) + [[-Signed(t, conj), lit]], triggerClause + [-lit], defs + Defs(part), lits + {lit})
  {
    var lit, u := Signed(Trigger(part), conj), Signed(t, conj);
    PartBelow(part, hi');
    ExtendTwice(defs, Defs(part), lo, hi, hi');
    forall v ensures Models(v, cnf + Defs(part) + [[-u, lit]]) <==> Models(v, defs + Defs(part)) && (True(v, u) ==> AllTrue(v, lits + {lit})) {
      LinkMeans(v, cnf, defs, Defs(part), u, lits, lit);
    }
    forall v ensures Holds(v, triggerClause + [-lit]) <==> True(v, u) || !AllTrue(v, lits + {lit}) {
      Grow(triggerClause, -lit);
      OneMore(v, lits, lit);
    }
    forall v | Models(v, defs + Defs(part)) ensures AllTrue(v, lits + {lit}) <==> Inside(conj, fs + [F], v) {
      ModelsConcat(v, defs, Defs(part));
      InsideStep(conj, fs, F, v);
      OneMore(v, lits, lit);
    }
  }

  lemma PartBelow(part: seq<Clause>, hi: nat)
    requires EndsInUnit(part) && Below(part, hi)
    ensures Below(Defs(part), hi) && 0 < Abs(Trigger(part)) < hi
  {
    assert part[|part| - 1] in part && Trigger(part) in part[|part| - 1];
    assert forall c :: c in Defs(part) ==> c in part;
  }

  lemma OneMore(v: Valuation, lits: set<int>, lit: int)
    ensures AllTrue(v, lits + {lit}) <==> AllTrue(v, lits) && True(v, lit)
  {
  }

  lemma LinkMeans(v: Valuation, cnf: seq<Clause>, defs: seq<Clause>, part: seq<Clause>, u: int, lits: set<int>, lit: int)
    requires u != 0 && (Models(v, cnf) <==> Models(v, defs) && (True(v, u) ==> AllTrue(v, lits)))
    ensures Models(v, cnf + part + [[-u, lit]]) <==> Models(v, defs + part) && (True(v, u) ==> AllTrue(v, lits + {lit}))
  {
    Extend(cnf + part, [-u, lit]);
    ModelsConcat(v, cnf, part);
    ModelsConcat(v, defs, part);
    Short(-u, lit, 0);
    OneMore(v, lits, lit);
  }

  /** The trigger is a function of the variables below it. */
  lemma {:induction false} TriggerExtends(defs: seq<Clause>, all: seq<Clause>, lo: nat, t: nat, hi: nat, conj: bool, lits: set<int>)
    requires lo <= t && t > 0 && hi == t + 1 && Below(defs, t) && UniquelyExtends(defs, lo, t)
    requires forall l :: l in lits ==> 0 < Abs(l) < t
    requires forall v :: Models(v, all) <==> Models(v, defs) && (True(v, Signed(t, conj)) <==> AllTrue(v, lits))
    ensures UniquelyExtends(all, lo, hi)
  {
    forall v ensures Extends(v, all, lo, hi) {
      assert Extends(v, defs, lo, t);
      var w :| Agree(v, w, lo, t) && Models(w, defs);
      var z := WithTrigger(defs, t, conj, lits, w);
      assert Agree(v, z, lo, hi) && Models(z, all);
    }
    forall v, w | Models(v, all) && Models(w, all) && Agree(v, w, lo, hi) ensures v == w {
      LowerPartsAgree(defs, lo, t, hi, v, w);
      SameLiterals(v, w, t, lits);
      SameTrigger(v, w, t);
    }
  }

  lemma SameTrigger(v: Valuation, w: Valuation, t: nat)
    requires Agree(v, w, t, t + 1) && (t in v <==> t in w)
    ensures v == w
  {
    assert forall x :: x in v <==> x in w;
  }

  lemma WithTrigger(defs: seq<Clause>, t: nat, conj: bool, lits: set<int>, w: Valuation) returns (z: Valuation)
    requires t > 0 && Below(defs, t) && Models(w, defs) && forall l :: l in lits ==> 0 < Abs(l) < t
    ensures Agree(w, z, t, t + 1) && Models(z, defs) && (True(z, Signed(t, conj)) <==> AllTrue(z, lits))
  {
    z := if AllTrue(w, lits) == conj then w + {t} else w - {t};
    assert Agree(w, z, t, t + 1);
    BelowIgnores(defs, t, t + 1, w, z);
    SameLiterals(w, z, t, lits);
  }

  lemma SameLiterals(v: Valuation, w: Valuation, t: nat, lits: set<int>)
    requires Agree(v, w, t, t + 1) && forall l :: l in lits ==> 0 < Abs(l) < t
    ensures AllTrue(v, lits) <==> AllTrue(w, lits)
  {
    assert forall l :: l in lits ==> (True(v, l) <==> True(w, l));
  }

  lemma {:induction false} GatherDone(conj: bool, fs: seq<iset<Valuation>>, lo: nat, t: nat,
                   cnf: seq<Clause>, triggerClause: Clause, defs: seq<Clause>, lits: set<int>)
    requires Gathered(conj, fs, lo, t, t, cnf, triggerClause, defs, lits)
    ensures Encodes(Combination(conj, fs), NORMAL, cnf + [triggerClause] + [[t]], lo, t + 1)
  {
    var all := cnf + [triggerClause] + [[t]];
    assert Defs(all) == cnf + [triggerClause];
    Extend(cnf, triggerClause);
    TriggerExtends(defs, Defs(all), lo, t, t + 1, conj, lits);
    forall c, l | c in all && l in c ensures 0 < Abs(l) < t + 1 { assert c in cnf || c in [triggerClause] || c == [t]; }
  }

  /** A part that is false everywhere decides the conjunction, one that is true everywhere the disjunction. */
  lemma OneStops(conj: bool, parts: seq<Part>, fs: seq<iset<Valuation>>, bounds: seq<nat>, k: nat)
    requires PartsOk(parts, fs, bounds) && k < |parts| && parts[k].ty == if conj then CONSTANT0 else CONSTANT1
    ensures parts[k].cnf == if conj then [[]] else []
    ensures forall v :: v in Combination(conj, fs) <==> !conj
  {
    assert Encodes(fs[k], parts[k].ty, parts[k].cnf, bounds[k], bounds[k + 1]);
    forall v ensures !Inside(conj, fs, v) { assert v in fs[k] <==> !conj; }
  }

  lemma NoneStops(conj: bool, parts: seq<Part>, fs: seq<iset<Valuation>>, bounds: seq<nat>)
    requires PartsOk(parts, fs, bounds) && forall k :: 0 <= k < |parts| ==> parts[k].ty == if conj then CONSTANT1 else CONSTANT0
    ensures forall v :: v in Combination(conj, fs) <==> conj
  {
    forall v ensures Inside(conj, fs, v) {
      forall k | 0 <= k < |fs| ensures v in fs[k] <==> conj {
        assert Encodes(fs[k], parts[k].ty, parts[k].cnf, bounds[k], bounds[k + 1]);
      }
    }
  }

  /** The conjunction or the disjunction of the parts. */
  method Combine(conj: bool, parts: seq<Part>, nextFree: nat, ghost fs: seq<iset<Valuation>>, ghost bounds: seq<nat>)
    returns (ty: CnfType, cnf: seq<Clause>, next: nat)
    requires PartsOk(parts, fs, bounds) && bounds[|parts|] == nextFree && nextFree > 0
    ensures next >= nextFree && Encodes(Combination(conj, fs), ty, cnf, if ty == NORMAL then bounds[0] else next, next)
  {
    var stop, neutral := if conj then CONSTANT0 else CONSTANT1, if conj then CONSTANT1 else CONSTANT0;
    var allNeutral := true;
    for k := 0 to |parts|
      invariant forall j :: 0 <= j < k ==> parts[j].ty != stop
      invariant allNeutral <==> forall j :: 0 <= j < k ==> parts[j].ty == neutral
    {
      if parts[k].ty == stop {
        OneStops(conj, parts, fs, bounds, k);
        return stop, parts[k].cnf, nextFree;
      }
      allNeutral := allNeutral && parts[k].ty == neutral;
    }
    if allNeutral {
      NoneStops(conj, parts, fs, bounds);
      return neutral, if conj then [] else [[]], nextFree;
    }
    cnf, next := GatherAll(conj, parts, nextFree, fs, bounds);
    ty := NORMAL;
  }

  method GatherAll(conj: bool, parts: seq<Part>, nextFree: nat, ghost fs: seq<iset<Valuation>>, ghost bounds: seq<nat>)
    returns (cnf: seq<Clause>, next: nat)
    requires PartsOk(parts, fs, bounds) && bounds[|parts|] == nextFree && nextFree > 0
    requires forall k :: 0 <= k < |parts| ==> parts[k].ty != if conj then CONSTANT0 else CONSTANT1
    ensures next == nextFree + 1 && Encodes(Combination(conj, fs), NORMAL, cnf, bounds[0], next)
  {
    BoundsGrow(parts, fs, bounds);
    var t := nextFree;
    next := nextFree + 1;
    var triggerClause := [Signed(t, conj)];
    cnf := [];
    ghost var defs: seq<Clause>, lits: set<int> := [], {};
    GatherNothing(conj, bounds[0], t);
    for k := 0 to |parts|
      invariant true == Gathered(conj, fs[..k], bounds[0], bounds[k], t, cnf, triggerClause, defs, lits)  // not unfolded
    {
      assert fs[..k + 1] == fs[..k] + [fs[k]];
      if parts[k].ty == NORMAL {
        var part := parts[k].cnf;
        GatherNormal(conj, fs[..k], bounds[0], bounds[k], t, cnf, triggerClause, defs, lits, fs[k], part, bounds[k + 1]);
        var lit := Signed(part[|part| - 1][0], conj);
        cnf := cnf + part[..|part| - 1] + [[-Signed(t, conj), lit]];
        triggerClause := triggerClause + [-lit];
        defs, lits := defs + Defs(part), lits + {lit};
      } else {
        GatherConstant(conj, fs[..k], bounds[0], bounds[k], t, cnf, triggerClause, defs, lits, fs[k]);
      }
    }
    assert fs[..|parts|] == fs;
    GatherDone(conj, fs, bounds[0], t, cnf, triggerClause, defs, lits);
    cnf := cnf + [triggerClause] + [[t]];
  }

  lemma {:induction false} BoundsGrow(parts: seq<Part>, fs: seq<iset<Valuation>>, bounds: seq<nat>)
    requires PartsOk(parts, fs, bounds)
    ensures forall i, j :: 0 <= i <= j <= |parts| ==> bounds[i] <= bounds[j]
  {
    if parts != [] {
      var n := |parts| - 1;
      BoundsGrow(parts[..n], fs[..n], bounds[..n + 1]);
      assert bounds[n] <= bounds[n + 1];
      forall i, j | 0 <= i <= j <= |parts| ensures bounds[i] <= bounds[j] {
        if j <= n {
          assert bounds[..n + 1][i] <= bounds[..n + 1][j];
        } else if i <= n {
          assert bounds[..n + 1][i] <= bounds[..n + 1][n];
        }
      }
    }
  }

  // ------------------------------------------------ choosing

  datatype CraigInterpolant = NO_INTERPOLANT | SINGLE(kind: Construction) | UNION | INTERSECTION | SMALLEST | LARGEST

  predicate Builds(which: CraigInterpolant, kind: Construction) {
    which != NO_INTERPOLANT && (which.SINGLE? ==> which.kind == kind)
  }

  /** Every root is an edge of its graph, and the fresh variables are above those of all graphs. */
  ghost predicate Roots(columns: seq<Column>, data: CraigData, nextFree: nat)
    reads set k | 0 <= k < |columns| :: columns[k].aig
  {
    && |data| == |columns| && nextFree > 0
    && forall k :: 0 <= k < |columns| ==>
         columns[k].aig.Valid() && EdgeIn(data[k], |columns[k].aig.nodes|) && VarsBelow(columns[k].aig.nodes, nextFree)
  }

  /** Part j comes from construction cols[j]. */
  ghost predicate BuiltFrom(columns: seq<Column>, data: CraigData, nextFree: nat, parts: seq<Part>, fs: seq<iset<Valuation>>, cols: seq<nat>)
    requires Roots(columns, data, nextFree)
    reads set k | 0 <= k < |columns| :: columns[k].aig
  {
    && |cols| == |parts| == |fs|
    && (forall j :: 0 <= j < |cols| ==> cols[j] < |columns|)
    && (forall j :: 0 <= j < |cols| ==> fs[j] == columns[cols[j]].InterpolantOf(data[cols[j]]))
    && (forall j :: 0 <= j < |cols| ==> |parts[j].cnf| == PartCount(columns[cols[j]], data[cols[j]]))
  }

  /** The constructions among the first n that were asked for, in order. */
  ghost predicate Asked(columns: seq<Column>, which: CraigInterpolant, n: nat, cols: seq<nat>)
    requires n <= |columns|
  {
    && (forall j :: 0 <= j < |cols| ==> cols[j] < n && Builds(which, columns[cols[j]].kind))
    && (forall k: nat :: k < n && Builds(which, columns[k].kind) ==> k in cols)
    && (!which.SINGLE? && which != NO_INTERPOLANT ==> |cols| == n && forall j :: 0 <= j < n ==> cols[j] == j)
  }

  method BuildParts(columns: seq<Column>, data: CraigData, which: CraigInterpolant, nextFree: nat)
    returns (parts: seq<Part>, next: nat, ghost fs: seq<iset<Valuation>>, ghost bounds: seq<nat>, ghost cols: seq<nat>)
    requires Roots(columns, data, nextFree)
    ensures PartsOk(parts, fs, bounds) && BuiltFrom(columns, data, nextFree, parts, fs, cols)
    ensures Asked(columns, which, |columns|, cols)
    ensures bounds[0] == nextFree && bounds[|parts|] == next && next > 0
  {
    parts, next, fs, bounds, cols := [], nextFree, [], [nextFree], [];
    for n := 0 to |columns|
      invariant true == PartsOk(parts, fs, bounds)  // not unfolded
      invariant true == BuiltFrom(columns, data, nextFree, parts, fs, cols)
      invariant true == Asked(columns, which, n, cols)
      invariant |bounds| == |parts| + 1 && bounds[0] == nextFree && bounds[|parts|] == next && next >= nextFree
    {
      AskNext(columns, which, n, cols);
      if Builds(which, columns[n].kind) {
        parts, next, fs, bounds, cols := BuildNext(columns, data, nextFree, n, parts, fs, bounds, next, cols);
      }
    }
  }

  method BuildNext(columns: seq<Column>, data: CraigData, nextFree: nat, n: nat,
                   parts0: seq<Part>, ghost fs0: seq<iset<Valuation>>, ghost bounds0: seq<nat>, next0: nat, ghost cols0: seq<nat>)
    returns (parts: seq<Part>, next: nat, ghost fs: seq<iset<Valuation>>, ghost bounds: seq<nat>, ghost cols: seq<nat>)
    requires Roots(columns, data, nextFree) && n < |columns|
    requires PartsOk(parts0, fs0, bounds0) && BuiltFrom(columns, data, nextFree, parts0, fs0, cols0)
    requires bounds0[0] == nextFree && bounds0[|parts0|] == next0 && next0 >= nextFree
    ensures PartsOk(parts, fs, bounds) && BuiltFrom(columns, data, nextFree, parts, fs, cols)
    ensures bounds[0] == nextFree && bounds[|parts|] == next && next >= nextFree && cols == cols0 + [n]
  {
    VarsBelowGrows(columns[n].aig.nodes, nextFree, next0);
    var part;
    part, next := PartFor(columns[n], data[n], next0);
    ghost var F := columns[n].InterpolantOf(data[n]);
    AppendPart(parts0, fs0, bounds0, part, F, next);
    AppendBuilt(columns, data, nextFree, parts0, fs0, cols0, part, n);
    parts, fs, bounds, cols := parts0 + [part], fs0 + [F], bounds0 + [next], cols0 + [n];
  }

  lemma AskNext(columns: seq<Column>, which: CraigInterpolant, n: nat, cols: seq<nat>)
    requires n < |columns| && Asked(columns, which, n, cols)
    ensures Asked(columns, which, n + 1, if Builds(which, columns[n].kind) then cols + [n] else cols)
  {
    var more := if Builds(which, columns[n].kind) then cols + [n] else cols;
    forall k: nat | k < n + 1 && Builds(which, columns[k].kind) ensures k in more {
      if k < n { assert k in cols; }
    }
    assert forall j :: 0 <= j < |cols| ==> more[j] == cols[j];
  }

  lemma AppendBuilt(columns: seq<Column>, data: CraigData, nextFree: nat, parts: seq<Part>, fs: seq<iset<Valuation>>, cols: seq<nat>, part: Part, n: nat)
    requires Roots(columns, data, nextFree) && BuiltFrom(columns, data, nextFree, parts, fs, cols) && n < |columns|
    requires |part.cnf| == PartCount(columns[n], data[n])
    ensures BuiltFrom(columns, data, nextFree, parts + [part], fs + [columns[n].InterpolantOf(data[n])], cols + [n])
  {
  }

  lemma VarsBelowGrows(nodes: seq<Node>, lo: nat, hi: nat)
    requires VarsBelow(nodes, lo) && lo <= hi
    ensures VarsBelow(nodes, hi)
  {
  }

  lemma AppendPart(parts: seq<Part>, fs: seq<iset<Valuation>>, bounds: seq<nat>, part: Part, F: iset<Valuation>, above: nat)
    requires PartsOk(parts, fs, bounds) && Encodes(F, part.ty, part.cnf, bounds[|parts|], above)
    ensures PartsOk(parts + [part], fs + [F], bounds + [above])
  {
    var ps, gs, bs := parts + [part], fs + [F], bounds + [above];
    forall k | 0 <= k < |ps| ensures Encodes(gs[k], ps[k].ty, ps[k].cnf, bs[k], bs[k + 1]) {
      if k < |parts| { assert ps[k] == parts[k] && gs[k] == fs[k]; }
    }
  }

  /** The first part with the fewest clauses, or with the most. */
  method Extreme(parts: seq<Part>, smallest: bool) returns (best: nat)
    requires parts != []
    ensures best < |parts|
    ensures forall k :: 0 <= k < |parts| ==> if smallest then |parts[best].cnf| <= |parts[k].cnf| else |parts[k].cnf| <= |parts[best].cnf|
    ensures forall k :: 0 <= k < best ==> |parts[k].cnf| != |parts[best].cnf|
  {
    best := 0;
    for n := 1 to |parts|
      invariant best < n
      invariant forall k :: 0 <= k < n ==> if smallest then |parts[best].cnf| <= |parts[k].cnf| else |parts[k].cnf| <= |parts[best].cnf|
      invariant forall k :: 0 <= k < best ==> |parts[k].cnf| != |parts[best].cnf|
    {
      if (smallest && |parts[n].cnf| < |parts[best].cnf|) || (!smallest && |parts[best].cnf| < |parts[n].cnf|) { best := n; }
    }
  }

  /** No earlier part is as small (or large), and no part smaller (or larger). */
  ghost predicate FirstExtreme(parts: seq<Part>, k: nat, smallest: bool) {
    && k < |parts|
    && (forall j :: 0 <= j < |parts| ==> if smallest then |parts[k].cnf| <= |parts[j].cnf| else |parts[j].cnf| <= |parts[k].cnf|)
    && forall j :: 0 <= j < k ==> |parts[j].cnf| != |parts[k].cnf|
  }

  /** The requested interpolant among the parts; k is the part taken when it is one of them. */
  method Choose(which: CraigInterpolant, parts: seq<Part>, nextFree: nat, ghost fs: seq<iset<Valuation>>, ghost bounds: seq<nat>)
    returns (ty: CnfType, cnf: seq<Clause>, next: nat, ghost F: iset<Valuation>, ghost lo: nat, ghost hi: nat, ghost k: nat)
    requires PartsOk(parts, fs, bounds) && bounds[|parts|] == nextFree && nextFree > 0
    ensures ty == NONE <==> parts == []
    ensures ty == NONE ==> cnf == [] && next == nextFree
    ensures ty != NONE ==> bounds[0] <= lo <= hi <= next && Encodes(F, ty, cnf, lo, hi)
    ensures parts != [] && which == UNION ==> F == Combination(true, fs)
    ensures parts != [] && which == INTERSECTION ==> F == Combination(false, fs)
    ensures parts != [] && which != UNION && which != INTERSECTION ==>
      k < |parts| && F == fs[k] && cnf == parts[k].cnf && ty == parts[k].ty && next == nextFree && lo == bounds[k] && hi == bounds[k + 1]
    ensures parts != [] && which.SINGLE? ==> k == 0
    ensures parts != [] && which == SMALLEST ==> FirstExtreme(parts, k, true)
    ensures parts != [] && which == LARGEST ==> FirstExtreme(parts, k, false)
  {
    if |parts| == 0 { return NONE, [], nextFree, iset{}, nextFree, nextFree, 0; }
    BoundsGrow(parts, fs, bounds);
    k := 0;
    if |parts| > 1 && (which == UNION || which == INTERSECTION) {
      F := Combination(which == UNION, fs);
      ty, cnf, next := Combine(which == UNION, parts, nextFree, fs, bounds);
      lo, hi := if ty == NORMAL then bounds[0] else next, next;
    } else {
      var best := 0;
      if |parts| > 1 && (which == SMALLEST || which == LARGEST) { best := Extreme(parts, which == SMALLEST); }
      k := best;
      ty, cnf, next, F, lo, hi := parts[best].ty, parts[best].cnf, nextFree, fs[best], bounds[best], bounds[best + 1];
      if |parts| == 1 { OnlyOne(fs); }
    }
  }

  /** The clauses of the requested interpolant; the fresh variables they define go from lo up to hi. */
  method CreateCraigInterpolant(columns: seq<Column>, data: CraigData, which: CraigInterpolant, nextFree: nat)
    returns (ty: CnfType, cnf: seq<Clause>, next: nat, ghost F: iset<Valuation>, ghost lo: nat, ghost hi: nat, ghost fs: seq<iset<Valuation>>)
    requires Roots(columns, data, nextFree)
    ensures ty == NONE ==> cnf == [] && next == nextFree
    ensures ty != NONE ==> nextFree <= lo <= hi <= next && Encodes(F, ty, cnf, lo, hi)
    ensures which == NO_INTERPOLANT ==> ty == NONE
    ensures which.SINGLE? ==> (ty == NONE <==> forall k :: 0 <= k < |columns| ==> columns[k].kind != which.kind)
    ensures which.SINGLE? && ty != NONE ==>
      exists k :: (
        && 0 <= k < |columns| && columns[k].kind == which.kind
        && F == columns[k].InterpolantOf(data[k]) && |cnf| == PartCount(columns[k], data[k]))
    ensures which in {UNION, INTERSECTION, SMALLEST, LARGEST} ==> (ty == NONE <==> columns == [])
    ensures which == UNION && columns != [] ==>
      forall v :: v in F <==> forall k :: 0 <= k < |columns| ==> v in columns[k].InterpolantOf(data[k])
    ensures which == INTERSECTION && columns != [] ==>
      forall v :: v in F <==> exists k :: 0 <= k < |columns| && v in columns[k].InterpolantOf(data[k])
    ensures which == SMALLEST && columns != [] ==>
      exists k :: (
        && 0 <= k < |columns| && F == columns[k].InterpolantOf(data[k]) && |cnf| == PartCount(columns[k], data[k])
        && (forall j :: 0 <= j < |columns| ==> |cnf| <= PartCount(columns[j], data[j]))
        && forall j :: 0 <= j < k ==> |cnf| < PartCount(columns[j], data[j]))
    ensures which == LARGEST && columns != [] ==>
      exists k :: (
        && 0 <= k < |columns| && F == columns[k].InterpolantOf(data[k]) && |cnf| == PartCount(columns[k], data[k])
        && (forall j :: 0 <= j < |columns| ==> |cnf| >= PartCount(columns[j], data[j]))
        && forall j :: 0 <= j < k ==> |cnf| > PartCount(columns[j], data[j]))
    ensures ty != NONE ==> fs != [] && (F in fs || F == Combination(true, fs) || F == Combination(false, fs))
    ensures forall f :: f in fs ==> exists k :: 0 <= k < |columns| && f == columns[k].InterpolantOf(data[k])
  {
    if which in {UNION, INTERSECTION, SMALLEST, LARGEST} {
      ty, cnf, next, F, lo, hi, fs := CreateFromAll(columns, data, which, nextFree);
    } else {
      ty, cnf, next, F, lo, hi, fs := CreateFromOne(columns, data, which, nextFree);
    }
  }

  /** The requests that take all constructions. */
  method CreateFromAll(columns: seq<Column>, data: CraigData, which: CraigInterpolant, nextFree: nat)
    returns (ty: CnfType, cnf: seq<Clause>, next: nat, ghost F: iset<Valuation>, ghost lo: nat, ghost hi: nat, ghost fs: seq<iset<Valuation>>)
    requires Roots(columns, data, nextFree) && which in {UNION, INTERSECTION, SMALLEST, LARGEST}
    ensures ty == NONE ==> cnf == [] && next == nextFree
    ensures ty != NONE ==> nextFree <= lo <= hi <= next && Encodes(F, ty, cnf, lo, hi)
    ensures which in {UNION, INTERSECTION, SMALLEST, LARGEST} ==> (ty == NONE <==> columns == [])
    ensures which == UNION && columns != [] ==>
      forall v :: v in F <==> forall k :: 0 <= k < |columns| ==> v in columns[k].InterpolantOf(data[k])
    ensures which == INTERSECTION && columns != [] ==>
      forall v :: v in F <==> exists k :: 0 <= k < |columns| && v in columns[k].InterpolantOf(data[k])
    ensures which == SMALLEST && columns != [] ==>
      exists k :: (
        && 0 <= k < |columns| && F == columns[k].InterpolantOf(data[k]) && |cnf| == PartCount(columns[k], data[k])
        && (forall j :: 0 <= j < |columns| ==> |cnf| <= PartCount(columns[j], data[j]))
        && forall j :: 0 <= j < k ==> |cnf| < PartCount(columns[j], data[j]))
    ensures which == LARGEST && columns != [] ==>
      exists k :: (
        && 0 <= k < |columns| && F == columns[k].InterpolantOf(data[k]) && |cnf| == PartCount(columns[k], data[k])
        && (forall j :: 0 <= j < |columns| ==> |cnf| >= PartCount(columns[j], data[j]))
        && forall j :: 0 <= j < k ==> |cnf| > PartCount(columns[j], data[j]))
    ensures ty != NONE ==> fs != [] && (F in fs || F == Combination(true, fs) || F == Combination(false, fs))
    ensures forall f :: f in fs ==> exists k :: 0 <= k < |columns| && f == columns[k].InterpolantOf(data[k])
  {
    var parts;
    ghost var bounds, cols, k;
    parts, next, fs, bounds, cols := BuildParts(columns, data, which, nextFree);
    ty, cnf, next, F, lo, hi, k := Choose(which, parts, next, fs, bounds);
    WholeMeans(columns, data, nextFree, parts, fs, cols);
  }

  /** At most one construction is asked for. */
  method CreateFromOne(columns: seq<Column>, data: CraigData, which: CraigInterpolant, nextFree: nat)
    returns (ty: CnfType, cnf: seq<Clause>, next: nat, ghost F: iset<Valuation>, ghost lo: nat, ghost hi: nat, ghost fs: seq<iset<Valuation>>)
    requires Roots(columns, data, nextFree) && (which.SINGLE? || which == NO_INTERPOLANT)
    ensures ty == NONE ==> cnf == [] && next == nextFree
    ensures ty != NONE ==> nextFree <= lo <= hi <= next && Encodes(F, ty, cnf, lo, hi)
    ensures which == NO_INTERPOLANT ==> ty == NONE
    ensures which.SINGLE? ==> (ty == NONE <==> forall k :: 0 <= k < |columns| ==> columns[k].kind != which.kind)
    ensures which.SINGLE? && ty != NONE ==>
      exists k :: (
        && 0 <= k < |columns| && columns[k].kind == which.kind
        && F == columns[k].InterpolantOf(data[k]) && |cnf| == PartCount(columns[k], data[k]))
    ensures ty != NONE ==> fs != [] && (F in fs || F == Combination(true, fs) || F == Combination(false, fs))
    ensures forall f :: f in fs ==> exists k :: 0 <= k < |columns| && f == columns[k].InterpolantOf(data[k])
  {
    var parts;
    ghost var bounds, cols, k;
    parts, next, fs, bounds, cols := BuildParts(columns, data, which, nextFree);
    ty, cnf, next, F, lo, hi, k := Choose(which, parts, next, fs, bounds);
    SingleMeans(columns, data, which, nextFree, parts, fs, cols);
  }

  /** When at most one construction is asked for, its first column is the part taken. */
  lemma SingleMeans(columns: seq<Column>, data: CraigData, which: CraigInterpolant, nextFree: nat, parts: seq<Part>, fs: seq<iset<Valuation>>, cols: seq<nat>)
    requires Roots(columns, data, nextFree) && BuiltFrom(columns, data, nextFree, parts, fs, cols)
    requires Asked(columns, which, |columns|, cols)
    ensures which == NO_INTERPOLANT ==> parts == []
    ensures which.SINGLE? ==> (parts == [] <==> forall k :: 0 <= k < |columns| ==> columns[k].kind != which.kind)
    ensures which.SINGLE? && parts != [] ==>
      exists k :: (
        && 0 <= k < |columns| && columns[k].kind == which.kind
        && fs[0] == columns[k].InterpolantOf(data[k]) && |parts[0].cnf| == PartCount(columns[k], data[k]))
  {
    if parts != [] { assert cols[0] < |columns| && Builds(which, columns[cols[0]].kind); }
  }

  /** When all constructions are built, the parts and functions are theirs, in order. */
  lemma WholeMeans(columns: seq<Column>, data: CraigData, nextFree: nat, parts: seq<Part>, fs: seq<iset<Valuation>>, cols: seq<nat>)
    requires Roots(columns, data, nextFree) && BuiltFrom(columns, data, nextFree, parts, fs, cols)
    requires |cols| == |columns| && forall j :: 0 <= j < |columns| ==> cols[j] == j
    ensures |parts| == |fs| == |columns|
    ensures forall v :: v in Combination(true, fs) <==> forall k :: 0 <= k < |columns| ==> v in columns[k].InterpolantOf(data[k])
    ensures forall v :: v in Combination(false, fs) <==> exists k :: 0 <= k < |columns| && v in columns[k].InterpolantOf(data[k])
    ensures forall k :: 0 <= k < |columns| ==> |parts[k].cnf| == PartCount(columns[k], data[k]) && fs[k] == columns[k].InterpolantOf(data[k])
  {
    assert forall k :: 0 <= k < |columns| ==> cols[k] == k && fs[k] == columns[k].InterpolantOf(data[k]);
  }

  lemma OnlyOne(fs: seq<iset<Valuation>>)
    requires |fs| == 1
    ensures Combination(true, fs) == fs[0] && Combination(false, fs) == fs[0]
  {
    forall v: Valuation ensures v in Combination(true, fs) <==> v in fs[0] { CombinationMeans(fs, v); }
    forall v: Valuation ensures v in Combination(false, fs) <==> v in fs[0] { CombinationMeans(fs, v); }
  }

  // ------------------------------------------------ the clauses interpolate

  /** Conjunctions and disjunctions of interpolants are interpolants. */
  lemma {:induction false} CombinationInterpolates(conj: bool, fs: seq<iset<Valuation>>, G: set<int>, a: seq<Clause>, b: seq<Clause>)
    requires fs != [] && forall f :: f in fs ==> IsInterpolant(f, G, a, b)
    ensures IsInterpolant(Combination(conj, fs), G, a, b)
  {
    assert fs[0] in fs;
    var F := Combination(conj, fs);
    forall v ensures Models(v, a) ==> v in F { CombinationMeans(fs, v); }
    forall v ensures v in F ==> !Models(v, b) { CombinationMeans(fs, v); }
    forall v, w | v in F && v * G == w * G ensures w in F {
      CombinationMeans(fs, v);
      CombinationMeans(fs, w);
    }
  }

  /** A satisfies the clauses for some choice of the fresh variables, and nothing satisfies the
      clauses together with B. */
  lemma {:induction false} CnfInterpolates(F: iset<Valuation>, G: set<int>, a: seq<Clause>, b: seq<Clause>, ty: CnfType, cnf: seq<Clause>, lo: nat, hi: nat)
    requires IsInterpolant(F, G, a, b) && Encodes(F, ty, cnf, lo, hi) && forall x :: x in G ==> x < lo
    ensures forall v :: Models(v, a) ==> Extends(v, cnf, lo, hi)
    ensures forall v :: Models(v, cnf) ==> !Models(v, b)
  {
    forall v, w, up | v in F && Agree(v, w, lo, up) ensures w in F {
      assert forall x :: x in v * G <==> x in w * G;
    }
    forall v ensures Models(v, a) ==> Extends(v, cnf, lo, hi) { CnfEquisatisfiable(F, ty, cnf, lo, hi, v); }
    forall v ensures Models(v, cnf) ==> !Models(v, b) { CnfEquisatisfiable(F, ty, cnf, lo, hi, v); }
  }

  /** Whatever CreateCraigInterpolant returns for the conclusion of the tracer separates A from B:
      A can be extended to satisfy the clauses, and they contradict B. */
  lemma {:induction false} RequestSeparates(tracer: CraigTracer, data: CraigData, nextFree: nat, ty: CnfType, cnf: seq<Clause>,
                                            F: iset<Valuation>, lo: nat, hi: nat, fs: seq<iset<Valuation>>)
    requires tracer.Concluded(data) && Roots(tracer.columns.columns, data, nextFree)
    requires forall x :: x in Globals(tracer.labels) ==> x < nextFree
    requires nextFree <= lo <= hi && Encodes(F, ty, cnf, lo, hi)
    requires fs != [] && (F in fs || F == Combination(true, fs) || F == Combination(false, fs))
    requires forall f :: f in fs ==>
      exists k :: 0 <= k < |data| && f == tracer.columns.columns[k].InterpolantOf(data[k])
    ensures forall v :: Models(v, tracer.trace.a) ==> Extends(v, cnf, lo, hi)
    ensures forall v :: Models(v, cnf) ==> !Models(v, tracer.trace.b)
  {
    var columns, a, b, G := tracer.columns.columns, tracer.trace.a, tracer.trace.b, Globals(tracer.labels);
    assert forall k :: 0 <= k < |columns| ==> IsInterpolant(columns[k].InterpolantOf(data[k]), G, a, b);
    CombinationInterpolates(true, fs, G, a, b);
    CombinationInterpolates(false, fs, G, a, b);
    CnfInterpolates(F, G, a, b, ty, cnf, lo, hi);
  }

  /** From the conclusion of the tracer to the clauses of the requested interpolant, which separate A from B. */
  method InterpolantClauses(tracer: CraigTracer, data: CraigData, which: CraigInterpolant, nextFree: nat)
    returns (ty: CnfType, cnf: seq<Clause>, next: nat, ghost F: iset<Valuation>, ghost lo: nat, ghost hi: nat)
    requires tracer.Concluded(data) && Roots(tracer.columns.columns, data, nextFree)
    requires forall x :: x in Globals(tracer.labels) ==> x < nextFree
    ensures ty == NONE ==> cnf == [] && next == nextFree
    ensures ty != NONE ==> nextFree <= lo <= hi <= next && Encodes(F, ty, cnf, lo, hi)
    ensures which == NO_INTERPOLANT ==> ty == NONE
    ensures which.SINGLE? ==> (ty == NONE <==> forall k :: 0 <= k < |tracer.columns.columns| ==> tracer.columns.columns[k].kind != which.kind)
    ensures which.SINGLE? && ty != NONE ==>
      exists k :: (
        && 0 <= k < |tracer.columns.columns| && tracer.columns.columns[k].kind == which.kind
        && F == tracer.columns.columns[k].InterpolantOf(data[k]) && |cnf| == PartCount(tracer.columns.columns[k], data[k]))
    ensures which in {UNION, INTERSECTION, SMALLEST, LARGEST} ==> (ty == NONE <==> tracer.columns.columns == [])
    ensures which == UNION && tracer.columns.columns != [] ==>
      forall v :: v in F <==> forall k :: 0 <= k < |tracer.columns.columns| ==> v in tracer.columns.columns[k].InterpolantOf(data[k])
    ensures which == INTERSECTION && tracer.columns.columns != [] ==>
      forall v :: v in F <==> exists k :: 0 <= k < |tracer.columns.columns| && v in tracer.columns.columns[k].InterpolantOf(data[k])
    ensures which == SMALLEST && tracer.columns.columns != [] ==>
      exists k :: (
        && 0 <= k < |tracer.columns.columns| && F == tracer.columns.columns[k].InterpolantOf(data[k]) && |cnf| == PartCount(tracer.columns.columns[k], data[k])
        && (forall j :: 0 <= j < |tracer.columns.columns| ==> |cnf| <= PartCount(tracer.columns.columns[j], data[j]))
        && forall j :: 0 <= j < k ==> |cnf| < PartCount(tracer.columns.columns[j], data[j]))
    ensures which == LARGEST && tracer.columns.columns != [] ==>
      exists k :: (
        && 0 <= k < |tracer.columns.columns| && F == tracer.columns.columns[k].InterpolantOf(data[k]) && |cnf| == PartCount(tracer.columns.columns[k], data[k])
        && (forall j :: 0 <= j < |tracer.columns.columns| ==> |cnf| >= PartCount(tracer.columns.columns[j], data[j]))
        && forall j :: 0 <= j < k ==> |cnf| > PartCount(tracer.columns.columns[j], data[j]))
    ensures ty != NONE ==> forall v :: Models(v, tracer.trace.a) ==> Extends(v, cnf, lo, hi)
    ensures ty != NONE ==> forall v :: Models(v, cnf) ==> !Models(v, tracer.trace.b)
  {
    ghost var fs;
    ty, cnf, next, F, lo, hi, fs := CreateCraigInterpolant(tracer.columns.columns, data, which, nextFree);
    if ty != NONE { RequestSeparates(tracer, data, nextFree, ty, cnf, F, lo, hi, fs); }
  }
}
