/**
  The frequency-ordered priority list of HuffmanEncoderDecoder.c: a singly
  linked list behind a dummy head node, kept in ascending order of count by
  sorted insertion (`insertHuffmanNode`), drained from the head
  (`popHuffmanNode`) and seeded with one leaf per symbol that occurs
  (`createLinkedList`).

  The list is a sequence whose first element is the node after the dummy
  head; the global `linkedListLength` is the length of that sequence.
 */
module PriorityList {
  import opened Optional
  import opened HuffmanNode

  /** `EXTENDED_ASCII_SET_SIZE`: the number of table entries the list is
      seeded from. It is 255, so the entry for byte 255 is never read. */
  const SetSize: nat := 255

  /** Ascending order of count, equal counts allowed. */
  predicate Sorted(list: seq<Tree>)
  {
    forall i, j :: 0 <= i < j < |list| ==> list[i].freq <= list[j].freq
  }

  /** The scan of `insertHuffmanNode`: the position a new node takes is
      before the first node whose count is not below its own, or the end
      when there is none. */
  function InsertionPoint(node: Tree, list: seq<Tree>): (k: nat)
    ensures k <= |list|
    ensures forall i :: 0 <= i < k ==> list[i].freq < node.freq
    ensures k < |list| ==> node.freq <= list[k].freq
  {
    if |list| == 0 || node.freq <= list[0].freq then 0
    else 1 + InsertionPoint(node, list[1..])
  }

  /** The scan's position is the only one with its two properties: a
      position with every node in front lighter and the next node not
      lighter is the insertion point. */
  lemma InsertionPointUnique(node: Tree, list: seq<Tree>, k: nat)
    requires k <= |list|
    requires forall i :: 0 <= i < k ==> list[i].freq < node.freq
    requires k < |list| ==> node.freq <= list[k].freq
    ensures InsertionPoint(node, list) == k
  {
  }

  /** `insertHuffmanNode`: link the new node in at the position the scan
      found. The list grows by exactly that node and stays sorted. */
  function Insert(node: Tree, list: seq<Tree>): (r: seq<Tree>)
    ensures |r| == |list| + 1
    ensures multiset(r) == multiset(list) + multiset{node}
    ensures Sorted(list) ==> Sorted(r)
  {
    var k := InsertionPoint(node, list);
    SpliceFacts(node, list, k);
    list[..k] + [node] + list[k..]
  }

  /** Inserting at a position with the scan's two properties splices the
      node in there. */
  lemma InsertAt(node: Tree, list: seq<Tree>, k: nat)
    requires k <= |list|
    requires forall i :: 0 <= i < k ==> list[i].freq < node.freq
    requires k < |list| ==> node.freq <= list[k].freq
    ensures Insert(node, list) == list[..k] + [node] + list[k..]
  {
    InsertionPointUnique(node, list, k);
  }

  /** The tie-break of `insertHuffmanNode`: the new node sits at the scanned
      position, taking it out again gives back the old list (the existing
      nodes keep their order), and it goes in front of every node of equal
      count. */
  lemma InsertPlacement(node: Tree, list: seq<Tree>)
    ensures var k := InsertionPoint(node, list);
      && Insert(node, list)[k] == node
      && Insert(node, list)[..k] + Insert(node, list)[k + 1..] == list
      && forall i :: 0 <= i < |list| && list[i].freq == node.freq ==> k <= i
  {
    SpliceFacts(node, list, InsertionPoint(node, list));
  }

  /** What splicing a node into a list at a position where everything in
      front is lighter and the next node is not lighter does. */
  lemma SpliceFacts(node: Tree, list: seq<Tree>, k: nat)
    requires k <= |list|
    requires forall i :: 0 <= i < k ==> list[i].freq < node.freq
    requires k < |list| ==> node.freq <= list[k].freq
    ensures var r := list[..k] + [node] + list[k..];
      && multiset(r) == multiset(list) + multiset{node}
      && (Sorted(list) ==> Sorted(r))
      && r[..k] + r[k + 1..] == list
      && forall i :: 0 <= i < |r| && r[i].freq == node.freq && i != k ==> k < i
  {
    var r := list[..k] + [node] + list[k..];
    assert multiset(r) == multiset(list) + multiset{node} by {
      SpliceMultiset(node, list, k);
    }
    assert Sorted(list) ==> Sorted(r) by {
      if Sorted(list) {
        SpliceSorted(node, list, k);
      }
    }
    assert r[..k] + r[k + 1..] == list by {
      assert r[..k] == list[..k] && r[k + 1..] == list[k..];
      assert list == list[..k] + list[k..];
    }
    assert forall i :: 0 <= i < |r| && r[i].freq == node.freq && i != k ==> k < i by {
      forall i | 0 <= i < k
        ensures r[i].freq != node.freq
      {
        assert r[i] == list[i];
      }
    }
  }

  /** Splicing a node into a list adds exactly that node. */
  lemma SpliceMultiset(node: Tree, list: seq<Tree>, k: nat)
    requires k <= |list|
    ensures multiset(list[..k] + [node] + list[k..]) == multiset(list) + multiset{node}
  {
    assert list == list[..k] + list[k..];
  }

  /** Splicing a node into a sorted list where everything in front is
      lighter and everything behind is not lighter keeps the list sorted. */
  lemma SpliceSorted(node: Tree, list: seq<Tree>, k: nat)
    requires k <= |list| && Sorted(list)
    requires forall i :: 0 <= i < k ==> list[i].freq < node.freq
    requires k < |list| ==> node.freq <= list[k].freq
    ensures Sorted(list[..k] + [node] + list[k..])
  {
    var r := list[..k] + [node] + list[k..];
    assert forall i :: 0 <= i < k ==> r[i] == list[i];
    assert r[k] == node;
    assert forall i :: k < i < |r| ==> r[i] == list[i - 1];
    forall i, j | 0 <= i < j < |r|
      ensures r[i].freq <= r[j].freq
    {
      if j <= k {
      } else if i <= k {
        assert list[k].freq <= list[j - 1].freq;
      } else {
        assert list[i - 1].freq <= list[j - 1].freq;
      }
    }
  }

  /** `popHuffmanNode`: unlink the first node. The source stops the process
      on an empty list; here that is the `None` result. */
  function Pop(list: seq<Tree>): (r: Option<(Tree, seq<Tree>)>)
    ensures r.None? <==> |list| == 0
    ensures r.Some? ==> [r.value.0] + r.value.1 == list
    ensures r.Some? && Sorted(list) ==>
              && Sorted(r.value.1)
              && forall i :: 0 <= i < |list| ==> r.value.0.freq <= list[i].freq
  {
    if |list| == 0 then None else Some((list[0], list[1..]))
  }

  /** The leaves held by all trees of a list, with multiplicity. */
  function LeafBag(list: seq<Tree>): multiset<Tree>
  {
    if |list| == 0 then multiset{} else Leaves(list[0]) + LeafBag(list[1..])
  }

  /** The sum of the counts at the roots of the trees of a list. */
  function TotalWeight(list: seq<Tree>): nat
  {
    if |list| == 0 then 0 else list[0].freq + TotalWeight(list[1..])
  }

  /** The number of internal nodes in all trees of a list. */
  function InternalTotal(list: seq<Tree>): nat
  {
    if |list| == 0 then 0 else InternalCount(list[0]) + InternalTotal(list[1..])
  }

  /** The three list measures add up over concatenation. */
  lemma {:induction false} CensusOfConcat(a: seq<Tree>, b: seq<Tree>)
    ensures LeafBag(a + b) == LeafBag(a) + LeafBag(b)
    ensures TotalWeight(a + b) == TotalWeight(a) + TotalWeight(b)
    ensures InternalTotal(a + b) == InternalTotal(a) + InternalTotal(b)
  {
    if |a| == 0 {
      assert a + b == b;
    } else {
      assert (a + b)[1..] == a[1..] + b;
      CensusOfConcat(a[1..], b);
    }
  }

  /** Inserting a node adds exactly that node's leaves, count and internal
      nodes to the list's totals. */
  lemma InsertCensus(node: Tree, list: seq<Tree>)
    ensures LeafBag(Insert(node, list)) == LeafBag(list) + Leaves(node)
    ensures TotalWeight(Insert(node, list)) == TotalWeight(list) + node.freq
    ensures InternalTotal(Insert(node, list)) == InternalTotal(list) + InternalCount(node)
  {
    var k := InsertionPoint(node, list);
    var front, back := list[..k], list[k..];
    assert list == front + back;
    CensusOfConcat(front, back);
    CensusOfConcat(front + [node], back);
    CensusOfConcat(front, [node]);
    assert [node][1..] == [];
  }

  /** The leaf that `createLinkedList` makes for table entry `t.sym` when it
      has seen the first `n` entries: the entry is positive and the leaf
      carries exactly that count. */
  predicate IsSeedLeaf(freqs: seq<int>, n: nat, t: Tree)
    requires n <= |freqs|
  {
    t.Leaf? && t.sym < n && freqs[t.sym] > 0 && t.freq == freqs[t.sym]
  }

  /** The number of positive entries among the first `n`. */
  function CountPositive(freqs: seq<int>, n: nat): nat
    requires n <= |freqs|
  {
    if n == 0 then 0
    else CountPositive(freqs, n - 1) + (if freqs[n - 1] > 0 then 1 else 0)
  }

  /** The sum of the positive entries among the first `n`. */
  function SumPositive(freqs: seq<int>, n: nat): nat
    requires n <= |freqs|
  {
    if n == 0 then 0
    else SumPositive(freqs, n - 1) + (if freqs[n - 1] > 0 then freqs[n - 1] else 0)
  }

  /** The order `createLinkedList` gives leaves of equal count: the entries
      are inserted by rising index and each goes in front of its equals, so
      of two equally heavy leaves the one with the larger symbol comes
      first. */
  predicate LaterSymbolFirst(list: seq<Tree>)
  {
    forall p, q :: 0 <= p < q < |list| && list[p].freq == list[q].freq ==>
      list[p].Leaf? && list[q].Leaf? && list[p].sym > list[q].sym
  }

  /** The list after the first `n` rounds of the seeding loop of
      `createLinkedList`: sorted, holding each leaf for a positive entry
      exactly once and nothing else, with equally heavy leaves in
      descending order of symbol. */
  function SeedUpTo(freqs: seq<int>, n: nat): (r: seq<Tree>)
    requires n <= SetSize <= |freqs|
    ensures Sorted(r)
    ensures LaterSymbolFirst(r)
    ensures forall t :: multiset(r)[t] == if IsSeedLeaf(freqs, n, t) then 1 else 0
  {
    if n == 0 then []
    else
      var prior := SeedUpTo(freqs, n - 1);
      var f := freqs[n - 1];
      if f > 0 then
        SeedInsertStep(freqs, n, prior);
        Insert(Leaf(n - 1, f), prior)
      else
        assert forall t :: IsSeedLeaf(freqs, n, t) <==> IsSeedLeaf(freqs, n - 1, t);
        prior
  }

  /** A seeding round with a positive entry: inserting its leaf into the
      list of the earlier rounds gives the list of this round. */
  lemma SeedInsertStep(freqs: seq<int>, n: nat, prior: seq<Tree>)
    requires 0 < n <= SetSize <= |freqs| && freqs[n - 1] > 0
    requires Sorted(prior) && LaterSymbolFirst(prior)
    requires forall t :: multiset(prior)[t] == if IsSeedLeaf(freqs, n - 1, t) then 1 else 0
    ensures var r := Insert(Leaf(n - 1, freqs[n - 1]), prior);
      && Sorted(r)
      && LaterSymbolFirst(r)
      && forall t :: multiset(r)[t] == if IsSeedLeaf(freqs, n, t) then 1 else 0
  {
    var leaf := Leaf(n - 1, freqs[n - 1]);
    assert forall t :: IsSeedLeaf(freqs, n, t) <==> IsSeedLeaf(freqs, n - 1, t) || t == leaf;
    SeedLeavesBelow(freqs, n - 1, prior);
    InsertKeepsTieOrder(leaf, prior);
  }

  /** A list holding exactly the seed leaves of the first `n` entries holds
      only leaves, each with a symbol below `n` and a positive count. */
  lemma SeedLeavesBelow(freqs: seq<int>, n: nat, list: seq<Tree>)
    requires n <= |freqs|
    requires forall t :: multiset(list)[t] == if IsSeedLeaf(freqs, n, t) then 1 else 0
    ensures forall i :: 0 <= i < |list| ==> list[i].Leaf? && list[i].sym < n && list[i].freq > 0
  {
    assert forall i :: 0 <= i < |list| ==> multiset(list)[list[i]] > 0;
  }

  /** Inserting a leaf whose symbol is above every symbol in a sorted list
      of leaves keeps equally heavy leaves in descending order of symbol:
      the new leaf goes in front of its equals. */
  lemma InsertKeepsTieOrder(node: Tree, list: seq<Tree>)
    requires node.Leaf? && Sorted(list) && LaterSymbolFirst(list)
    requires forall i :: 0 <= i < |list| ==> list[i].Leaf? && list[i].sym < node.sym
    ensures LaterSymbolFirst(Insert(node, list))
  {
    var k := InsertionPoint(node, list);
    var r := Insert(node, list);
    assert r == list[..k] + [node] + list[k..];
    forall p, q | 0 <= p < q < |r|
      ensures r[p].freq == r[q].freq ==> r[p].Leaf? && r[q].Leaf? && r[p].sym > r[q].sym
    {
      if q < k {
        assert r[p] == list[p] && r[q] == list[q];
      } else if q == k {
        assert r[p] == list[p];
      } else if p == k {
        assert r[q] == list[q - 1];
      } else if p < k {
        assert r[p] == list[p] && r[q] == list[q - 1];
      } else {
        assert r[p] == list[p - 1] && r[q] == list[q - 1];
      }
    }
  }

  /** `createLinkedList`: one leaf per positive entry among the first
      `SetSize` entries of the table, in ascending order of count, equally
      heavy leaves in descending order of symbol. Symbol 255 never receives
      a leaf. */
  function CreateLinkedList(freqs: seq<int>): (r: seq<Tree>)
    requires |freqs| >= SetSize
    ensures Sorted(r)
    ensures LaterSymbolFirst(r)
    ensures forall t :: multiset(r)[t] == if IsSeedLeaf(freqs, SetSize, t) then 1 else 0
    ensures forall i :: 0 <= i < |r| ==> r[i].Leaf? && r[i].sym < SetSize && r[i].freq > 0
  {
    var r := SeedUpTo(freqs, SetSize);
    SeedLeavesBelow(freqs, SetSize, r);
    r
  }

  /** Ascending count with ties broken by descending symbol is a strict
      order, so two lists ordered that way with the same elements are the
      same list. */
  lemma {:induction false} OrderedUnique(a: seq<Tree>, b: seq<Tree>)
    requires Sorted(a) && LaterSymbolFirst(a)
    requires Sorted(b) && LaterSymbolFirst(b)
    requires multiset(a) == multiset(b)
    ensures a == b
    decreases |a|
  {
    assert |a| == |multiset(a)| == |multiset(b)| == |b|;
    if |a| > 0 {
      HeadsAgree(a, b);
      assert multiset(a) == multiset{a[0]} + multiset(a[1..]) by {
        assert a == [a[0]] + a[1..];
      }
      assert multiset(b) == multiset{b[0]} + multiset(b[1..]) by {
        assert b == [b[0]] + b[1..];
      }
      assert multiset(a[1..]) == multiset(a) - multiset{a[0]};
      assert multiset(b[1..]) == multiset(b) - multiset{b[0]};
      TailOrdered(a);
      TailOrdered(b);
      OrderedUnique(a[1..], b[1..]);
      assert a == [a[0]] + a[1..] && b == [b[0]] + b[1..];
    }
  }

  /** Two lists ordered that way with the same elements start with the
      same node: each head is in the other list, and neither can come
      strictly before the other. */
  lemma HeadsAgree(a: seq<Tree>, b: seq<Tree>)
    requires |a| > 0 && |b| > 0
    requires Sorted(a) && LaterSymbolFirst(a)
    requires Sorted(b) && LaterSymbolFirst(b)
    requires multiset(a) == multiset(b)
    ensures a[0] == b[0]
  {
    assert a[0] in multiset(b) && b[0] in multiset(a);
    var j :| 0 <= j < |b| && b[j] == a[0];
    var i :| 0 <= i < |a| && a[i] == b[0];
    assert i == 0 || j == 0;
  }

  /** The tail of an ordered list is ordered. */
  lemma TailOrdered(list: seq<Tree>)
    requires |list| > 0 && Sorted(list) && LaterSymbolFirst(list)
    ensures Sorted(list[1..]) && LaterSymbolFirst(list[1..])
  {
    assert forall p :: 0 <= p < |list| - 1 ==> list[1..][p] == list[p + 1];
  }

  /** The contract of `createLinkedList` pins its result down: a sorted list
      with equally heavy leaves in descending order of symbol that holds
      exactly the seed leaves is the seeded list. */
  lemma SeedOrderUnique(freqs: seq<int>, list: seq<Tree>)
    requires |freqs| >= SetSize
    requires Sorted(list) && LaterSymbolFirst(list)
    requires forall t :: multiset(list)[t] == if IsSeedLeaf(freqs, SetSize, t) then 1 else 0
    ensures list == CreateLinkedList(freqs)
  {
    var seeded := CreateLinkedList(freqs);
    assert multiset(list) == multiset(seeded);
    OrderedUnique(list, seeded);
  }

  /** Two symbols with the same count: the later one is seeded in front of
      the earlier. */
  lemma TiedSeedOrder(freqs: seq<int>)
    requires |freqs| >= SetSize && freqs[97] == 1 && freqs[98] == 1
    requires forall i :: 0 <= i < SetSize && i != 97 && i != 98 ==> freqs[i] <= 0
    ensures CreateLinkedList(freqs) == [Leaf(98, 1), Leaf(97, 1)]
  {
    var list := [Leaf(98, 1), Leaf(97, 1)];
    forall t
      ensures multiset(list)[t] == if IsSeedLeaf(freqs, SetSize, t) then 1 else 0
    {
      assert IsSeedLeaf(freqs, SetSize, t) <==> t == Leaf(98, 1) || t == Leaf(97, 1);
    }
    SeedOrderUnique(freqs, list);
  }

  /** The seeding loop reads the table only below index `n`. */
  lemma {:induction false} SeedReadsOnlyPrefix(a: seq<int>, b: seq<int>, n: nat)
    requires n <= SetSize <= |a| && SetSize <= |b|
    requires a[..n] == b[..n]
    ensures SeedUpTo(a, n) == SeedUpTo(b, n)
  {
    if n > 0 {
      assert a[..n - 1] == a[..n][..n - 1] == b[..n][..n - 1] == b[..n - 1];
      assert a[n - 1] == a[..n][n - 1] == b[..n][n - 1] == b[n - 1];
      SeedReadsOnlyPrefix(a, b, n - 1);
    }
  }

  /** Two tables that agree on entries 0..254 seed the same list, whatever
      else they hold: entry 255 is never consulted. */
  lemma CreateLinkedListIgnoresLastEntry(a: seq<int>, b: seq<int>)
    requires |a| >= SetSize && |b| >= SetSize
    requires a[..SetSize] == b[..SetSize]
    ensures CreateLinkedList(a) == CreateLinkedList(b)
  {
    SeedReadsOnlyPrefix(a, b, SetSize);
  }

  /** One round of the seeding loop: a positive entry is inserted as a
      leaf, any other entry is skipped. */
  lemma SeedStep(freqs: seq<int>, n: nat)
    requires n < SetSize <= |freqs|
    ensures freqs[n] > 0 ==> SeedUpTo(freqs, n + 1) == Insert(Leaf(n, freqs[n]), SeedUpTo(freqs, n))
    ensures freqs[n] <= 0 ==> SeedUpTo(freqs, n + 1) == SeedUpTo(freqs, n)
  {
  }

  /** Entries that are zero or negative add nothing to the list. */
  lemma {:induction false} SeedSkipsNonPositive(freqs: seq<int>, a: nat, b: nat)
    requires a <= b <= SetSize <= |freqs|
    requires forall i :: a <= i < b ==> freqs[i] <= 0
    ensures SeedUpTo(freqs, b) == SeedUpTo(freqs, a)
    decreases b - a
  {
    if a < b {
      SeedSkipsNonPositive(freqs, a, b - 1);
      SeedStep(freqs, b - 1);
    }
  }

  /** The seeded list holds only leaves, one per positive entry, and its
      total count is the sum of the positive entries. */
  lemma {:induction false} SeedCensus(freqs: seq<int>, n: nat)
    requires n <= SetSize <= |freqs|
    ensures |SeedUpTo(freqs, n)| == CountPositive(freqs, n)
    ensures LeafBag(SeedUpTo(freqs, n)) == multiset(SeedUpTo(freqs, n))
    ensures TotalWeight(SeedUpTo(freqs, n)) == SumPositive(freqs, n)
    ensures InternalTotal(SeedUpTo(freqs, n)) == 0
  {
    if n > 0 {
      SeedCensus(freqs, n - 1);
      var f := freqs[n - 1];
      if f > 0 {
        InsertCensus(Leaf(n - 1, f), SeedUpTo(freqs, n - 1));
      }
    }
  }
}
