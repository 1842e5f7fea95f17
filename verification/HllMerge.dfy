/**
 Merging sketches is taking the register-wise maximum, and that is the sketch of the concatenated
 additions, whatever their order and multiplicity (src/core/hll.rs).
 */
module HllMerge {
  import opened Bits
  import opened HllSpec
  import opened HllProof

  function Max(a: nat, b: nat): nat { if a >= b then a else b }

  function MaxRegs(a: Regs, b: Regs): (r: Regs)
    requires |a| == |b|
    ensures |r| == |a|
  {
    seq(|a|, i requires 0 <= i < |a| => Max(a[i], b[i]))
  }

  /** The largest count offered to register `i`, 0 when there is none. */
  function Best(hashes: seq<nat>, i: nat): nat
    decreases |hashes|
  {
    if hashes == [] then 0
    else Max(if IndexOf(hashes[0]) == i then CountOf(hashes[0]) else 0, Best(hashes[1..], i))
  }

  /** A register holds the largest count ever offered to it. */
  lemma {:induction false} RegisterIsBest(regs: Regs, hashes: seq<nat>, i: nat)
    requires |regs| == REGISTERS && i < REGISTERS
    ensures Registers(regs, hashes)[i] == Max(regs[i], Best(hashes, i))
    decreases |hashes|
  {
    hide IndexOf, CountOf;
    if hashes != [] {
      RegisterIsBest(AddReg(regs, IndexOf(hashes[0]), CountOf(hashes[0])), hashes[1..], i);
    }
  }

  /** `Best` is attained by an element, or is 0, and bounds every element. */
  lemma {:induction false} BestBounds(hashes: seq<nat>, i: nat)
    ensures forall h :: h in hashes && IndexOf(h) == i ==> CountOf(h) <= Best(hashes, i)
    ensures Best(hashes, i) == 0 || exists h :: h in hashes && IndexOf(h) == i && CountOf(h) == Best(hashes, i)
    decreases |hashes|
  {
    hide IndexOf, CountOf;
    if hashes != [] {
      BestBounds(hashes[1..], i);
      assert forall h :: h in hashes <==> h == hashes[0] || h in hashes[1..];
    }
  }

  lemma BestSame(a: seq<nat>, b: seq<nat>, i: nat)
    requires forall h :: h in a <==> h in b
    ensures Best(a, i) == Best(b, i)
  {
    hide Best, IndexOf, CountOf;
    BestBounds(a, i);
    BestBounds(b, i);
  }

  /** Order and repetition of additions do not matter. */
  lemma RegistersOrderFree(a: seq<nat>, b: seq<nat>)
    requires forall h :: h in a <==> h in b
    ensures Registers(Blank(), a) == Registers(Blank(), b)
  {
    hide Registers, Best;
    forall i | 0 <= i < REGISTERS
      ensures Registers(Blank(), a)[i] == Registers(Blank(), b)[i]
    {
      RegisterIsBest(Blank(), a, i);
      RegisterIsBest(Blank(), b, i);
      BestSame(a, b, i);
    }
  }

  lemma {:induction false} BestConcat(a: seq<nat>, b: seq<nat>, i: nat)
    ensures Best(a + b, i) == Max(Best(a, i), Best(b, i))
    decreases |a|
  {
    hide IndexOf, CountOf;
    if a == [] {
      assert a + b == b;
    } else {
      assert (a + b)[1..] == a[1..] + b;
      BestConcat(a[1..], b, i);
    }
  }

  /** Merging the sketches of two sets of additions is the sketch of both. */
  lemma MergeHomomorphism(a: seq<nat>, b: seq<nat>, c: seq<nat>)
    requires forall h :: h in c <==> h in a || h in b
    ensures MaxRegs(Registers(Blank(), a), Registers(Blank(), b)) == Registers(Blank(), c)
  {
    hide Registers, Best;
    forall i | 0 <= i < REGISTERS
      ensures MaxRegs(Registers(Blank(), a), Registers(Blank(), b))[i] == Registers(Blank(), a + b)[i]
    {
      RegisterIsBest(Blank(), a, i);
      RegisterIsBest(Blank(), b, i);
      RegisterIsBest(Blank(), a + b, i);
      BestConcat(a, b, i);
    }
    RegistersOrderFree(a + b, c);
  }

  /** The maximum over a list of packed register arrays. */
  function MergeAll(ins: seq<Bytes>): (r: Regs)
    requires forall d :: d in ins ==> |d| >= DENSE_BYTES
    ensures |r| == REGISTERS
  {
    if ins == [] then Blank() else MaxRegs(MergeAll(ins[..|ins| - 1]), DenseRegs(ins[|ins| - 1]))
  }

  /** Sketches of several element lists merge to the sketch of all the elements. */
  lemma {:induction false} MergeAllMeans(ins: seq<Bytes>, lists: seq<seq<nat>>, all: seq<nat>)
    requires |ins| == |lists| && forall d :: d in ins ==> |d| >= DENSE_BYTES
    requires forall k :: 0 <= k < |ins| ==> DenseRegs(ins[k]) == Registers(Blank(), lists[k])
    requires forall h :: h in all <==> exists k :: 0 <= k < |lists| && h in lists[k]
    ensures MergeAll(ins) == Registers(Blank(), all)
    decreases |ins|
  {
    hide DenseRegs, Registers;
    var n := |ins| - 1;
    if ins == [] {
      assert |all| == 0 || all[0] in all;
      NoAdditions();
    } else {
      var init := Flatten(lists[..n]);
      FlattenIn(lists[..n]);
      MergeAllMeans(ins[..n], lists[..n], init);
      forall h
        ensures h in all <==> h in init || h in lists[n]
      {
        if h in all {
          var k :| 0 <= k < |lists| && h in lists[k];
          if k < n { assert h in lists[..n][k]; }
        }
        if h in init {
          var k :| 0 <= k < n && h in lists[..n][k];
          assert h in lists[k];
        }
      }
      MergeHomomorphism(init, lists[n], all);
    }
  }

  lemma NoAdditions()
    ensures Registers(Blank(), []) == Blank()
  {
  }

  function Flatten(lists: seq<seq<nat>>): seq<nat> {
    if lists == [] then [] else Flatten(lists[..|lists| - 1]) + lists[|lists| - 1]
  }

  lemma {:induction false} FlattenIn(lists: seq<seq<nat>>)
    ensures forall h :: h in Flatten(lists) <==> exists k :: 0 <= k < |lists| && h in lists[k]
    decreases |lists|
  {
    if lists != [] {
      var n := |lists| - 1;
      FlattenIn(lists[..n]);
      forall h
        ensures h in Flatten(lists) <==> exists k :: 0 <= k < |lists| && h in lists[k]
      {
        if h in Flatten(lists[..n]) {
          var k :| 0 <= k < n && h in lists[..n][k];
          assert h in lists[k];
        }
        if k :| 0 <= k < |lists| && h in lists[k] {
          if k < n { assert h in lists[..n][k]; }
        }
      }
    }
  }
}
