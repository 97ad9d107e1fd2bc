/** Word-packed bit sets, updated in place by masks. */
module BitSets {

  const WORD_BITS: nat := 32

  function Mask(k: nat): bv32
    requires k < WORD_BITS
  {
    (1 as bv32) << (k as bv32)
  }

  lemma ShiftsDiffer(a: bv32, b: bv32)
    requires a < 32 && b < 32
    ensures a != b ==> ((1 as bv32) << a) & ((1 as bv32) << b) == 0
    ensures (1 as bv32) << a != 0
  {
  }

  lemma IndexFits(k: nat)
    requires k < WORD_BITS
    ensures (k as bv32) as nat == k
  {
  }

  lemma IndexSmall(k: nat)
    requires k < WORD_BITS
    ensures (k as bv32) < 32
  {
  }

  lemma MaskDisjoint(k: nat, j: nat)
    requires k < WORD_BITS && j < WORD_BITS && k != j
    ensures Mask(k) & Mask(j) == 0
  {
    IndexFits(k);
    IndexFits(j);
    IndexSmall(k);
    IndexSmall(j);
    ShiftsDiffer(k as bv32, j as bv32);
  }

  lemma MaskNonzero(k: nat)
    requires k < WORD_BITS
    ensures Mask(k) != 0
  {
    IndexSmall(k);
    ShiftsDiffer(k as bv32, k as bv32);
  }

  lemma OrKeeps(w: bv32, m: bv32, p: bv32)
    requires m & p == 0
    ensures (w | m) & p == w & p
  {
  }

  lemma AndNotKeeps(w: bv32, m: bv32, p: bv32)
    requires m & p == 0
    ensures (w & !m) & p == w & p
  {
  }

  lemma OrSame(w: bv32, m: bv32)
    requires m != 0
    ensures (w | m) & m != 0
  {
  }

  lemma AndNotSame(w: bv32, m: bv32)
    ensures (w & !m) & m == 0
  {
  }

  lemma ZeroWord(m: bv32)
    ensures 0 & m == 0
  {
  }

  lemma AllOnes(m: bv32)
    ensures 0xFFFF_FFFF & m == m
  {
  }

  /** Bit k of a word is set. */
  predicate Bit(w: bv32, k: nat)
    requires k < WORD_BITS
  {
    w & Mask(k) != 0
  }

  lemma SetSame(w: bv32, k: nat)
    requires k < WORD_BITS
    ensures Bit(w | Mask(k), k)
  {
    MaskNonzero(k);
    OrSame(w, Mask(k));
  }

  lemma SetOther(w: bv32, k: nat, j: nat)
    requires k < WORD_BITS && j < WORD_BITS && j != k
    ensures Bit(w | Mask(k), j) == Bit(w, j)
  {
    MaskDisjoint(k, j);
    OrKeeps(w, Mask(k), Mask(j));
  }

  lemma UnsetSame(w: bv32, k: nat)
    requires k < WORD_BITS
    ensures !Bit(w & !Mask(k), k)
  {
    AndNotSame(w, Mask(k));
  }

  lemma UnsetOther(w: bv32, k: nat, j: nat)
    requires k < WORD_BITS && j < WORD_BITS && j != k
    ensures Bit(w & !Mask(k), j) == Bit(w, j)
  {
    MaskDisjoint(k, j);
    AndNotKeeps(w, Mask(k), Mask(j));
  }

  /** Bit i of a sequence of words is set. */
  predicate BitAt(words: seq<bv32>, i: nat)
    requires i / WORD_BITS < |words|
  {
    Bit(words[i / WORD_BITS], i % WORD_BITS)
  }

  lemma MaskedWord(w: bv32, k: nat, j: nat)
    requires k < WORD_BITS && j < WORD_BITS
    ensures Bit(w | Mask(k), j) <==> j == k || Bit(w, j)
    ensures Bit(w & !Mask(k), j) <==> j != k && Bit(w, j)
  {
    if j == k {
      SetSame(w, k);
      UnsetSame(w, k);
    } else {
      SetOther(w, k, j);
      UnsetOther(w, k, j);
    }
  }

  method WithBit(w: bv32, k: nat) returns (r: bv32)
    requires k < WORD_BITS
    ensures forall j: nat :: j < WORD_BITS ==> (Bit(r, j) <==> j == k || Bit(w, j))
  {
    r := w | Mask(k);
    forall j: nat | j < WORD_BITS ensures Bit(r, j) <==> j == k || Bit(w, j) { MaskedWord(w, k, j); }
  }

  method WithoutBit(w: bv32, k: nat) returns (r: bv32)
    requires k < WORD_BITS
    ensures forall j: nat :: j < WORD_BITS ==> (Bit(r, j) <==> j != k && Bit(w, j))
  {
    r := w & !Mask(k);
    forall j: nat | j < WORD_BITS ensures Bit(r, j) <==> j != k && Bit(w, j) { MaskedWord(w, k, j); }
  }

  lemma SameBit(i: nat, j: nat)
    ensures i == j <==> i / WORD_BITS == j / WORD_BITS && i % WORD_BITS == j % WORD_BITS
  {
  }

  class BitSet {
    const data: array<bv32>
    const length: nat

    ghost predicate Valid() {
      data.Length == length / WORD_BITS + 1
    }

    /** The bits in range that are set; bits at or past the length are garbage. */
    ghost function Members(): set<nat>
      requires Valid()
      reads this, data
    {
      set i: nat | i < length && BitAt(data[..], i)
    }

    constructor (length: nat)
      ensures Valid() && this.length == length && fresh(data)
    {
      this.length := length;
      data := new bv32[length / WORD_BITS + 1];
    }

    constructor Clone(other: BitSet)
      requires other.Valid()
      ensures Valid() && length == other.length && fresh(data)
      ensures Members() == other.Members()
    {
      length := other.length;
      data := new bv32[other.data.Length](k requires 0 <= k < other.data.Length reads other.data => other.data[k]);
      new;
      assert data[..] == other.data[..];
    }

    function Get(i: nat): (b: bool)
      requires Valid() && i <= length
      reads this, data
      ensures i < length ==> (b <==> i in Members())
    {
      data[i / WORD_BITS] & Mask(i % WORD_BITS) != 0
    }

    method UnsetAll()
      requires Valid()
      modifies data
      ensures Members() == {}
    {
      for k := 0 to data.Length
        invariant forall m :: 0 <= m < k ==> data[m] == 0
      {
        data[k] := 0;
      }
      forall i: nat | i < length ensures !BitAt(data[..], i) {
        ZeroWord(Mask(i % WORD_BITS));
      }
    }

    method SetAll()
      requires Valid()
      modifies data
      ensures forall i: nat :: i < length ==> i in Members()
    {
      for k := 0 to data.Length
        invariant forall m :: 0 <= m < k ==> data[m] == 0xFFFF_FFFF
      {
        data[k] := 0xFFFF_FFFF;
      }
      forall i: nat | i < length ensures BitAt(data[..], i) {
        AllOnes(Mask(i % WORD_BITS));
        MaskNonzero(i % WORD_BITS);
      }
    }

    method Set(i: nat)
      requires Valid() && i < length
      modifies data
      ensures Members() == old(Members()) + {i}
    {
      var w := WithBit(data[i / WORD_BITS], i % WORD_BITS);
      Write(i / WORD_BITS, w);
      forall j: nat | j < length ensures BitAt(data[..], j) <==> j == i || old(BitAt(data[..], j)) {
        SameBit(i, j);
      }
    }

    method Unset(i: nat)
      requires Valid() && i < length
      modifies data
      ensures Members() == old(Members()) - {i}
    {
      var w := WithoutBit(data[i / WORD_BITS], i % WORD_BITS);
      Write(i / WORD_BITS, w);
      forall j: nat | j < length ensures BitAt(data[..], j) <==> j != i && old(BitAt(data[..], j)) {
        SameBit(i, j);
      }
    }

    method Write(q: nat, w: bv32)
      requires Valid() && q < data.Length
      modifies data
      ensures forall j: nat :: j < length ==>
        (BitAt(data[..], j) <==> if j / WORD_BITS == q then Bit(w, j % WORD_BITS) else BitAt(old(data[..]), j))
    {
      data[q] := w;
      assert data[..] == old(data[..])[q := w];
    }

    /** The least member at or after idx, or -1, whatever the bits past the length hold. */
    method NextSetBit(idx: nat) returns (r: int)
      requires Valid() && idx <= length
      ensures r == -1 ==> forall i :: i in Members() ==> i < idx
      ensures r != -1 ==> r >= idx && r in Members() && forall i :: i in Members() && idx <= i ==> r <= i
    {
      var elem := idx / WORD_BITS;
      if data[elem] != 0 {
        var j := idx;
        while !Get(j) && j < (elem + 1) * WORD_BITS && j < length
          invariant idx <= j <= length && j <= (elem + 1) * WORD_BITS
          invariant forall i :: i in Members() && idx <= i ==> j <= i
          decreases length - j
        {
          j := j + 1;
        }
        if j >= length { return -1; }
        if j < (elem + 1) * WORD_BITS { return j; }
      }
      NoBitInZeroWord(elem, idx);
      if elem + 1 >= data.Length { return -1; }
      var i := elem + 1;
      while i < data.Length && data[i] == 0
        invariant elem + 1 <= i <= data.Length
        invariant forall m :: m in Members() && idx <= m ==> i * WORD_BITS <= m
      {
        NoBitInZeroWord(i, i * WORD_BITS);
        i := i + 1;
      }
      if i >= data.Length { return -1; }
      var j := i * WORD_BITS;
      while !Get(j) && j < length
        invariant i * WORD_BITS <= j <= length
        invariant forall m :: m in Members() && idx <= m ==> j <= m
        decreases length - j
      {
        j := j + 1;
      }
      if j >= length { return -1; }
      return j;
    }

    lemma NoBitInZeroWord(k: nat, from: nat)
      requires Valid() && k < data.Length
      ensures data[k] == 0 ==> forall i :: i in Members() && k * WORD_BITS <= i ==> (k + 1) * WORD_BITS <= i
    {
      forall i | i in Members() && k * WORD_BITS <= i < (k + 1) * WORD_BITS ensures data[k] != 0 {
        ZeroWord(Mask(i % WORD_BITS));
        assert i / WORD_BITS == k;
      }
    }
  }
}
