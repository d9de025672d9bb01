/**
  The first half of the fixed scenario that `main` in
  HuffmanEncoderDecoder.c runs: a table with counts for the letters a, b,
  c, e and f, and the tree built from it. A second, smaller table with two
  equal counts shows the tie order of the seeded leaves.
 */
module Scenario {
  import opened Optional
  import opened HuffmanNode
  import opened PriorityList
  import opened TreeBuilder

  /** The table of `main`: c (99) once, b (98) three times, e (101) four
      times, a (97) five times, f (102) six times, every other entry zero. */
  const MainFrequencies: seq<int> :=
    seq(SetSize, i =>
      if i == 99 then 1
      else if i == 98 then 3
      else if i == 101 then 4
      else if i == 97 then 5
      else if i == 102 then 6
      else 0)

  /** The tree built from that table, worked out by hand: c and b join
      first (1 + 3); the join goes in front of e, whose count is also 4; the
      next join takes it with e (4 + 4); a and f join (5 + 6); the root
      joins those two (8 + 11). */
  const MainTree: Tree :=
    Internal(19,
      Internal(8, Internal(4, Leaf(99, 1), Leaf(98, 3)), Leaf(101, 4)),
      Internal(11, Leaf(97, 5), Leaf(102, 6)))

  /** The five letters' entries of `main`'s table, and zero elsewhere. */
  predicate HasMainCounts(f: seq<int>)
  {
    && |f| >= SetSize
    && f[97] == 5 && f[98] == 3 && f[99] == 1 && f[101] == 4 && f[102] == 6
    && (forall i :: 0 <= i < 97 ==> f[i] <= 0)
    && f[100] <= 0
    && (forall i :: 103 <= i < SetSize ==> f[i] <= 0)
  }

  lemma MainFrequenciesHaveMainCounts()
    ensures HasMainCounts(MainFrequencies)
  {
  }

  /** Rounds 0 to 97 of the seeding loop: nothing before entry 97 is
      positive, so a goes into the empty list. */
  lemma SeedThroughA(f: seq<int>)
    requires HasMainCounts(f)
    ensures SeedUpTo(f, 98) == [Leaf(97, 5)]
  {
    SeedSkipsNonPositive(f, 0, 97);
    SeedStep(f, 97);
    InsertAt(Leaf(97, 5), [], 0);
    assert [][..0] + [Leaf(97, 5)] + [][0..] == [Leaf(97, 5)];
  }

  /** Round 98: b goes in at the head, since it is lighter than a. */
  lemma SeedThroughB(f: seq<int>)
    requires HasMainCounts(f)
    ensures SeedUpTo(f, 99) == [Leaf(98, 3), Leaf(97, 5)]
  {
    SeedThroughA(f);
    SeedStep(f, 98);
    InsertAt(Leaf(98, 3), [Leaf(97, 5)], 0);
    assert [Leaf(97, 5)][..0] + [Leaf(98, 3)] + [Leaf(97, 5)][0..] == [Leaf(98, 3), Leaf(97, 5)];
  }

  /** c (count 1) is the lightest yet and goes in at the head. */
  lemma InsertC()
    ensures Insert(Leaf(99, 1), [Leaf(98, 3), Leaf(97, 5)]) == [Leaf(99, 1), Leaf(98, 3), Leaf(97, 5)]
  {
    var c, b, a := Leaf(99, 1), Leaf(98, 3), Leaf(97, 5);
    assert [b, a][..0] + [c] + [b, a][0..] == [c, b, a];
    InsertAt(c, [b, a], 0);
  }

  /** Round 99: c goes in. */
  lemma SeedThroughC(f: seq<int>)
    requires HasMainCounts(f)
    ensures SeedUpTo(f, 100) == [Leaf(99, 1), Leaf(98, 3), Leaf(97, 5)]
  {
    SeedThroughB(f);
    SeedStep(f, 99);
    InsertC();
  }

  /** e (count 4) goes in behind c and b, which are lighter, and in front
      of a. */
  lemma InsertE()
    ensures Insert(Leaf(101, 4), [Leaf(99, 1), Leaf(98, 3), Leaf(97, 5)])
         == [Leaf(99, 1), Leaf(98, 3), Leaf(101, 4), Leaf(97, 5)]
  {
    var c, b, e, a := Leaf(99, 1), Leaf(98, 3), Leaf(101, 4), Leaf(97, 5);
    assert [c, b, a][..2] + [e] + [c, b, a][2..] == [c, b, e, a] by {
      assert [c, b, a][..2] == [c, b] && [c, b, a][2..] == [a];
    }
    InsertAt(e, [c, b, a], 2);
  }

  /** f (count 6) is the heaviest and goes in at the end. */
  lemma InsertF()
    ensures Insert(Leaf(102, 6), [Leaf(99, 1), Leaf(98, 3), Leaf(101, 4), Leaf(97, 5)])
         == [Leaf(99, 1), Leaf(98, 3), Leaf(101, 4), Leaf(97, 5), Leaf(102, 6)]
  {
    var l := [Leaf(99, 1), Leaf(98, 3), Leaf(101, 4), Leaf(97, 5)];
    assert l[..4] + [Leaf(102, 6)] + l[4..] == l + [Leaf(102, 6)] by {
      assert l[..4] == l && l[4..] == [];
    }
    InsertAt(Leaf(102, 6), l, 4);
  }

  /** Rounds 100 to 102: entry 100 is skipped, then e and f go in. */
  lemma SeedThroughF(f: seq<int>)
    requires |f| >= SetSize && f[100] <= 0 && f[101] == 4 && f[102] == 6
    requires SeedUpTo(f, 100) == [Leaf(99, 1), Leaf(98, 3), Leaf(97, 5)]
    ensures SeedUpTo(f, 103) == [Leaf(99, 1), Leaf(98, 3), Leaf(101, 4), Leaf(97, 5), Leaf(102, 6)]
  {
    SeedStep(f, 100);
    SeedStep(f, 101);
    InsertE();
    SeedStep(f, 102);
    InsertF();
  }

  /** The seeding loop on `main`'s table yields the five leaves in
      ascending order of count. */
  lemma MainSeededList()
    ensures CreateLinkedList(MainFrequencies) ==
      [Leaf(99, 1), Leaf(98, 3), Leaf(101, 4), Leaf(97, 5), Leaf(102, 6)]
  {
    MainFrequenciesHaveMainCounts();
    SeedThroughC(MainFrequencies);
    SeedThroughF(MainFrequencies);
    SeedSkipsNonPositive(MainFrequencies, 103, SetSize);
  }

  /** The four rounds of the merge loop on `main`'s list. In the first,
      the join of c and b (count 4) goes in front of e, whose count is also
      4. */
  lemma FirstMerge(list: seq<Tree>)
    requires list == [Leaf(99, 1), Leaf(98, 3), Leaf(101, 4), Leaf(97, 5), Leaf(102, 6)]
    ensures MergeStep(list) == [Internal(4, Leaf(99, 1), Leaf(98, 3)), Leaf(101, 4), Leaf(97, 5), Leaf(102, 6)]
  {
    var joined := Internal(4, Leaf(99, 1), Leaf(98, 3));
    assert list[2..2] + [Internal(list[0].freq + list[1].freq, list[0], list[1])] + list[2..]
        == [joined, Leaf(101, 4), Leaf(97, 5), Leaf(102, 6)] by {
      assert list[2..2] == [] && list[2..] == [Leaf(101, 4), Leaf(97, 5), Leaf(102, 6)];
    }
    MergeStepAt(list, 0);
  }

  /** The join of that node with e (count 8) goes behind a and f. */
  lemma SecondMerge(list: seq<Tree>)
    requires list == [Internal(4, Leaf(99, 1), Leaf(98, 3)), Leaf(101, 4), Leaf(97, 5), Leaf(102, 6)]
    ensures MergeStep(list) == [Leaf(97, 5), Leaf(102, 6), Internal(8, Internal(4, Leaf(99, 1), Leaf(98, 3)), Leaf(101, 4))]
  {
    var joined := Internal(8, Internal(4, Leaf(99, 1), Leaf(98, 3)), Leaf(101, 4));
    assert list[2..4] + [Internal(list[0].freq + list[1].freq, list[0], list[1])] + list[4..]
        == [Leaf(97, 5), Leaf(102, 6), joined] by {
      assert list[2..4] == [Leaf(97, 5), Leaf(102, 6)] && list[4..] == [];
    }
    MergeStepAt(list, 2);
  }

  /** The join of a and f (count 11) goes behind the node of count 8. */
  lemma ThirdMerge(list: seq<Tree>)
    requires list == [Leaf(97, 5), Leaf(102, 6), Internal(8, Internal(4, Leaf(99, 1), Leaf(98, 3)), Leaf(101, 4))]
    ensures MergeStep(list) == [Internal(8, Internal(4, Leaf(99, 1), Leaf(98, 3)), Leaf(101, 4)), Internal(11, Leaf(97, 5), Leaf(102, 6))]
  {
    var joined := Internal(11, Leaf(97, 5), Leaf(102, 6));
    assert list[2..3] + [Internal(list[0].freq + list[1].freq, list[0], list[1])] + list[3..]
        == [list[2], joined] by {
      assert list[2..3] == [list[2]] && list[3..] == [];
    }
    MergeStepAt(list, 1);
  }

  /** The last two nodes join into the root. */
  lemma FourthMerge(list: seq<Tree>)
    requires list == [Internal(8, Internal(4, Leaf(99, 1), Leaf(98, 3)), Leaf(101, 4)), Internal(11, Leaf(97, 5), Leaf(102, 6))]
    ensures MergeStep(list) == [MainTree]
  {
    assert list[2..2] + [Internal(list[0].freq + list[1].freq, list[0], list[1])] + list[2..]
        == [MainTree] by {
      assert list[2..2] == [] && list[2..] == [];
    }
    MergeStepAt(list, 0);
  }

  /** The merge loop on `main`'s list ends with the hand-worked tree. */
  lemma MainBuild()
    ensures Build([Leaf(99, 1), Leaf(98, 3), Leaf(101, 4), Leaf(97, 5), Leaf(102, 6)]) == [MainTree]
  {
    FirstMerge([Leaf(99, 1), Leaf(98, 3), Leaf(101, 4), Leaf(97, 5), Leaf(102, 6)]);
    SecondMerge([Internal(4, Leaf(99, 1), Leaf(98, 3)), Leaf(101, 4), Leaf(97, 5), Leaf(102, 6)]);
    ThirdMerge([Leaf(97, 5), Leaf(102, 6), Internal(8, Internal(4, Leaf(99, 1), Leaf(98, 3)), Leaf(101, 4))]);
    FourthMerge([Internal(8, Internal(4, Leaf(99, 1), Leaf(98, 3)), Leaf(101, 4)), Internal(11, Leaf(97, 5), Leaf(102, 6))]);
  }

  /** `main`'s table yields the hand-worked tree, whose root count is the
      19 symbols of the table. */
  lemma MainScenarioTree()
    ensures HuffmanTree(MainFrequencies) == Some(MainTree)
    ensures MainTree.freq == 19
  {
    MainSeededList();
    MainBuild();
  }

  /** Equal counts, as `main`'s table does not have them: with a and b seen
      once each, b is seeded in front of a, so the single merge puts b on
      the left. */
  lemma TiedTree(freqs: seq<int>)
    requires |freqs| >= SetSize && freqs[97] == 1 && freqs[98] == 1
    requires forall i :: 0 <= i < SetSize && i != 97 && i != 98 ==> freqs[i] <= 0
    ensures HuffmanTree(freqs) == Some(Internal(2, Leaf(98, 1), Leaf(97, 1)))
  {
    TiedSeedOrder(freqs);
    TiedMerge([Leaf(98, 1), Leaf(97, 1)]);
  }

  /** The loop on the tied list makes one join. */
  lemma TiedMerge(list: seq<Tree>)
    requires list == [Leaf(98, 1), Leaf(97, 1)]
    ensures Build(list) == [Internal(2, Leaf(98, 1), Leaf(97, 1))]
  {
    assert list[2..2] + [Internal(list[0].freq + list[1].freq, list[0], list[1])] + list[2..]
        == [Internal(2, Leaf(98, 1), Leaf(97, 1))] by {
      assert list[2..2] == [] && list[2..] == [];
    }
    MergeStepAt(list, 0);
  }
}
