/**
  Greedy construction of the Huffman tree (`createHuffmanTree` in
  HuffmanEncoderDecoder.c): while more than one node is listed, remove the
  two lightest, join them under a new internal node whose count is their
  sum (first removed on the left), and put that node back in order.

  The C function falls off its end without a `return`; the tree it builds
  is the one node left in the list, and that node is the result here.
 */
module TreeBuilder {
  import opened Optional
  import opened HuffmanNode
  import opened PriorityList

  /** Every tree on the list is as the greedy merge builds it. */
  predicate AllWellFormed(list: seq<Tree>)
  {
    forall i :: 0 <= i < |list| ==> WellFormed(list[i])
  }

  /** One round of the loop: the list shrinks by one, the two nodes at its
      head are replaced by their join, and order and well-formedness are
      kept. */
  function MergeStep(list: seq<Tree>): (r: seq<Tree>)
    requires |list| >= 2
    ensures |r| == |list| - 1
    ensures r == Insert(Internal(list[0].freq + list[1].freq, list[0], list[1]), list[2..])
    ensures multiset(r) == multiset(list[2..]) + multiset{Internal(list[0].freq + list[1].freq, list[0], list[1])}
    ensures Sorted(list) ==> Sorted(r)
    ensures Sorted(list) && AllWellFormed(list) ==> AllWellFormed(r)
  {
    PopTwice(list);
    var first := Pop(list).value;
    var second := Pop(first.1).value;
    var joined := Internal(first.0.freq + second.0.freq, first.0, second.0);
    assert joined == Internal(list[0].freq + list[1].freq, list[0], list[1]) && second.1 == list[2..];
    JoinHeadPair(list);
    Insert(joined, second.1)
  }

  /** Where the join goes: behind the `k` nodes after the head pair that
      are lighter than it, and in front of the next one. */
  lemma MergeStepAt(list: seq<Tree>, k: nat)
    requires 2 + k <= |list|
    requires forall i :: 2 <= i < 2 + k ==> list[i].freq < list[0].freq + list[1].freq
    requires 2 + k < |list| ==> list[0].freq + list[1].freq <= list[2 + k].freq
    ensures MergeStep(list) ==
      list[2..2 + k] + [Internal(list[0].freq + list[1].freq, list[0], list[1])] + list[2 + k..]
  {
    var rest := list[2..];
    assert rest[..k] == list[2..2 + k] && rest[k..] == list[2 + k..];
    InsertAt(Internal(list[0].freq + list[1].freq, list[0], list[1]), rest, k);
  }

  /** Two pops from a list of at least two nodes yield its first node, its
      second node, and the rest. */
  lemma PopTwice(list: seq<Tree>)
    requires |list| >= 2
    ensures Pop(list).value.0 == list[0]
    ensures Pop(list).value.1 == list[1..]
    ensures Pop(Pop(list).value.1).value == (list[1], list[2..])
  {
    assert list == [list[0]] + list[1..];
    assert list[1..] == [list[1]] + list[2..];
  }

  /** Joining the two head nodes and inserting the join into the rest keeps
      a sorted list of well-formed trees sorted and well-formed. */
  lemma JoinHeadPair(list: seq<Tree>)
    requires |list| >= 2
    ensures var joined := Internal(list[0].freq + list[1].freq, list[0], list[1]);
      var r := Insert(joined, list[2..]);
      && multiset(r) == multiset(list[2..]) + multiset{joined}
      && (Sorted(list) ==> Sorted(r))
      && (Sorted(list) && AllWellFormed(list) ==> AllWellFormed(r))
  {
    var rest := list[2..];
    var joined := Internal(list[0].freq + list[1].freq, list[0], list[1]);
    var r := Insert(joined, rest);
    if Sorted(list) && AllWellFormed(list) {
      assert WellFormed(joined);
      forall i | 0 <= i < |r|
        ensures WellFormed(r[i])
      {
        assert r[i] in multiset(r);
        if r[i] != joined {
          var j :| 0 <= j < |rest| && rest[j] == r[i];
          assert rest[j] == list[j + 2];
        }
      }
    }
  }

  /** The measures of a list of at least two trees, split after the two
      at its head. */
  lemma CensusOfHeadPair(list: seq<Tree>)
    requires |list| >= 2
    ensures LeafBag(list) == Leaves(list[0]) + Leaves(list[1]) + LeafBag(list[2..])
    ensures TotalWeight(list) == list[0].freq + list[1].freq + TotalWeight(list[2..])
    ensures InternalTotal(list) == InternalCount(list[0]) + InternalCount(list[1]) + InternalTotal(list[2..])
  {
    assert list[1..][1..] == list[2..];
  }

  /** Joining the two head nodes and inserting the join into the rest
      conserves the leaves and the total count, and adds one internal node. */
  lemma JoinHeadPairCensus(list: seq<Tree>)
    requires |list| >= 2
    ensures var r := Insert(Internal(list[0].freq + list[1].freq, list[0], list[1]), list[2..]);
      && LeafBag(r) == LeafBag(list)
      && TotalWeight(r) == TotalWeight(list)
      && InternalTotal(r) == InternalTotal(list) + 1
  {
    CensusOfHeadPair(list);
    InsertCensus(Internal(list[0].freq + list[1].freq, list[0], list[1]), list[2..]);
  }

  /** One round conserves the leaves and the total count, and creates
      exactly one internal node. */
  lemma MergeStepCensus(list: seq<Tree>)
    requires |list| >= 2
    ensures LeafBag(MergeStep(list)) == LeafBag(list)
    ensures TotalWeight(MergeStep(list)) == TotalWeight(list)
    ensures InternalTotal(MergeStep(list)) == InternalTotal(list) + 1
  {
    JoinHeadPairCensus(list);
  }

  /** The `while (linkedListLength > 1)` loop of `createHuffmanTree`. It
      stops with one node when it starts with any, and with none when it
      starts with none; a single node is left as it is. */
  function Build(list: seq<Tree>): (r: seq<Tree>)
    ensures |r| <= 1
    ensures |r| == 0 <==> |list| == 0
    ensures |list| == 1 ==> r == list
    ensures Sorted(list) && AllWellFormed(list) ==> AllWellFormed(r)
    decreases |list|
  {
    if |list| <= 1 then list
    else Build(MergeStep(list))
  }

  /** The loop conserves the leaves and the total count, and makes one
      internal node fewer than the number of nodes it started with. */
  lemma {:induction false} BuildCensus(list: seq<Tree>)
    ensures LeafBag(Build(list)) == LeafBag(list)
    ensures TotalWeight(Build(list)) == TotalWeight(list)
    ensures |list| >= 1 ==> InternalTotal(Build(list)) == InternalTotal(list) + |list| - 1
    decreases |list|
  {
    if |list| >= 2 {
      MergeStepCensus(list);
      BuildCensus(MergeStep(list));
    }
  }

  /** The tree for a frequency table: seed the list, run the loop, and take
      the node left over. A table without a positive entry in 0..254 leaves
      an empty list and no tree. */
  function HuffmanTree(freqs: seq<int>): (r: Option<Tree>)
    requires |freqs| >= SetSize
    ensures r.None? <==> forall i :: 0 <= i < SetSize ==> freqs[i] <= 0
    ensures r.Some? ==> WellFormed(r.value)
  {
    SeededEmpty(freqs);
    var list := Build(CreateLinkedList(freqs));
    if |list| == 0 then None else Some(list[0])
  }

  /** The seeded list is empty exactly when no entry in 0..254 is
      positive. */
  lemma SeededEmpty(freqs: seq<int>)
    requires |freqs| >= SetSize
    ensures CreateLinkedList(freqs) == [] <==> forall i :: 0 <= i < SetSize ==> freqs[i] <= 0
  {
    var list := CreateLinkedList(freqs);
    if list != [] {
      var t := list[0];
      assert multiset(list)[t] > 0;
      assert t.sym < SetSize && freqs[t.sym] > 0;
    }
    if i :| 0 <= i < SetSize && freqs[i] > 0 {
      var t := Leaf(i, freqs[i]);
      assert IsSeedLeaf(freqs, SetSize, t);
      assert multiset(list)[t] == 1;
    }
  }

  /** The list the loop leaves behind holds one tree with exactly one leaf
      per positive entry, the sum of those entries as its count, and one
      internal node fewer than it has leaves. */
  lemma BuiltListCensus(freqs: seq<int>)
    requires |freqs| >= SetSize
    ensures var list := Build(CreateLinkedList(freqs));
      && LeafBag(list) == multiset(CreateLinkedList(freqs))
      && TotalWeight(list) == SumPositive(freqs, SetSize)
      && (|list| == 1 ==> InternalTotal(list) + 1 == CountPositive(freqs, SetSize))
  {
    SeedCensus(freqs, SetSize);
    BuildCensus(CreateLinkedList(freqs));
  }

  /** The finished tree holds exactly one leaf per positive entry, carrying
      that entry's count; its root count is the sum of the positive entries;
      and it has one internal node fewer than it has leaves. */
  lemma HuffmanTreeCensus(freqs: seq<int>)
    requires |freqs| >= SetSize
    requires exists i :: 0 <= i < SetSize && freqs[i] > 0
    ensures HuffmanTree(freqs).Some?
    ensures forall t :: Leaves(HuffmanTree(freqs).value)[t] == if IsSeedLeaf(freqs, SetSize, t) then 1 else 0
    ensures HuffmanTree(freqs).value.freq == SumPositive(freqs, SetSize)
    ensures InternalCount(HuffmanTree(freqs).value) + 1 == CountPositive(freqs, SetSize)
  {
    SeededEmpty(freqs);
    BuiltListCensus(freqs);
    var list := Build(CreateLinkedList(freqs));
    assert |list| == 1;
    assert HuffmanTree(freqs) == Some(list[0]);
    SingleCensus(list);
  }

  /** The measures of a one-tree list are those of its tree. */
  lemma SingleCensus(list: seq<Tree>)
    requires |list| == 1
    ensures LeafBag(list) == Leaves(list[0])
    ensures TotalWeight(list) == list[0].freq
    ensures InternalTotal(list) == InternalCount(list[0])
  {
    assert list[1..] == [];
  }
}
