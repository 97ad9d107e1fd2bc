/** Random-access sets: an array of elements, its inverse, and a bit set. */
module RaSets {
  import opened BitSets
  import opened Framework

  class RaSet {
    /** The abstract set. */
    ghost var Contents: set<nat>

    const elements: BitSet
    var count: nat
    const max: nat
    const arr: array<nat>
    const inv: array<nat>

    ghost const Repr: set<object>

    ghost predicate Valid()
      reads this, Repr
    {
      && Repr == {this, arr, inv, elements, elements.data}
      && arr != inv && elements.data as object != arr && elements.data as object != inv
      && arr.Length == inv.Length == max
      && elements.Valid() && elements.length == max
      && Contents == elements.Members()
      && count <= max
      && Linked(arr[..], inv[..], count, Contents)
    }

    constructor (max: nat)
      ensures Valid() && fresh(Repr) && this.max == max
      ensures Contents == {}
    {
      this.max, count, Contents := max, 0, {};
      var bits := new BitSet(max);
      bits.UnsetAll();
      var a, b := new nat[max], new nat[max];
      elements, arr, inv := bits, a, b;
      Repr := {this, a, b, bits, bits.data};
    }

    /** The listing is without repetition and lists exactly the set. */
    lemma Listing()
      requires Valid()
      ensures forall j: nat, k: nat :: j < k < count ==> arr[j] != arr[k]
      ensures forall e :: e in Contents <==> e in arr[..count]
      ensures count == 0 <==> Contents == {}
    {
      assert count > 0 ==> arr[0] in Contents;
      forall e | e in Contents ensures e in arr[..count] { assert arr[..count][inv[e]] == e; }
    }

    /** The elements a printer shows. */
    function Listed(): (s: set<nat>)
      requires Valid()
      reads this, Repr
      ensures s == Contents
    {
      Listing();
      SetOf(arr[..count])
    }

    method Reset()
      requires Valid()
      modifies Repr
      ensures Valid() && Contents == {}
    {
      count, Contents := 0, {};
      elements.UnsetAll();
    }

    function Contains(e: nat): (b: bool)
      requires Valid() && e < max
      reads this, Repr
      ensures b <==> e in Contents
    {
      elements.Get(e)
    }

    function At(k: nat): (e: nat)
      requires Valid() && k < count
      reads this, Repr
      ensures e in Contents && e < max
    {
      arr[k]
    }

    method Add(e: nat) returns (changed: bool)
      requires Valid() && e < max
      modifies Repr
      ensures Valid() && Contents == old(Contents) + {e}
      ensures changed <==> e !in old(Contents)
      ensures arr[..count] == old(arr[..count]) + if changed then [e] else []
    {
      if Contains(e) { return false; }
      HasRoom(e);
      elements.Set(e);
      arr[count] := e;
      inv[e] := count;
      count := count + 1;
      Contents := Contents + {e};
      return true;
    }

    /** A set that misses an element in range is not full. */
    lemma HasRoom(e: nat)
      requires Valid() && e < max && e !in Contents
      ensures count < max
    {
      Listing();
      Pigeonhole(arr[..count], max, e);
    }

    /** Swaps the last element into the gap. */
    method Remove(e: nat) returns (changed: bool)
      requires Valid() && e < max
      modifies Repr
      ensures Valid() && Contents == old(Contents) - {e}
      ensures changed <==> e in old(Contents)
      ensures changed ==> count == old(count) - 1
      ensures !changed ==> arr[..count] == old(arr[..count])
      ensures changed ==> arr[..count] == old(arr[..][inv[e] := arr[count - 1]])[..count]
    {
      if !Contains(e) { return false; }
      elements.Unset(e);
      count := count - 1;
      Swapped(arr[..], inv[..], count + 1, Contents, e);
      CloseGap(e);
      Contents := Contents - {e};
      return true;
    }

    method CloseGap(e: nat)
      requires arr != inv && e < inv.Length && inv[e] <= count < arr.Length && arr[count] < inv.Length
      modifies arr, inv
      ensures arr[..] == old(arr[..][inv[e] := arr[count]])
      ensures inv[..] == old(inv[..][arr[count] := inv[e]])
    {
      arr[inv[e]] := arr[count];
      inv[arr[inv[e]]] := inv[e];
    }
  }

  /** The first elements of a are exactly the set, and v holds their positions. */
  ghost predicate Linked(a: seq<nat>, v: seq<nat>, count: nat, C: set<nat>) {
    && count <= |a| && |a| == |v|
    && (forall k: nat :: k < count ==> a[k] in C && a[k] < |v| && v[a[k]] == k)
    && (forall e :: e in C ==> e < |v| && v[e] < count && a[v[e]] == e)
  }

  /** The last element moved into the gap. */
  lemma Swapped(a: seq<nat>, v: seq<nat>, count: nat, C: set<nat>, e: nat)
    requires Linked(a, v, count, C) && e in C
    ensures v[e] < count && a[count - 1] < |v|
    ensures Linked(a[v[e] := a[count - 1]], v[a[count - 1] := v[e]], count - 1, C - {e})
  {
    assert a[count - 1] in C;
  }

  /** A listing without repetition of numbers below n that misses one is shorter than n. */
  lemma Pigeonhole(a: seq<nat>, n: nat, e: nat)
    requires forall j: nat, k: nat :: j < k < |a| ==> a[j] != a[k]
    requires forall x :: x in a ==> x < n
    requires e < n && e !in a
    ensures |a| < n
  {
    DistinctCount(a);
    var rest := UpTo(n) - {e};
    UpToCount(n);
    SubsetCount(SetOf(a), rest);
    assert UpTo(n) == rest + {e};
  }

  lemma {:induction false} SubsetCount(s: set<nat>, t: set<nat>)
    requires s <= t
    ensures |s| <= |t|
  {
    if x :| x in s { SubsetCount(s - {x}, t - {x}); }
  }
}
