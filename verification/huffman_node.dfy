/**
  Nodes of the Huffman coding tree (`struct HuffmanNode` and
  `createHuffmanNode` in HuffmanEncoderDecoder.c).

  The source stores every node in one record and marks an internal node by
  giving it the symbol `'\0'`, which a leaf for byte 0 would also carry.
  Here leaves and internal nodes are separate constructors, so the two can
  never be confused. The `next` pointer of the record belongs to the priority
  list and is modelled by the position of the node in a sequence.
 */
module HuffmanNode {

  /** One byte value: the range of the node's `unsigned char` symbol. */
  type Byte = b: nat | b < 256

  /** A leaf carries a symbol and its count; an internal node carries the
      summed count of exactly two children. */
  datatype Tree =
    | Leaf(sym: Byte, freq: nat)
    | Internal(freq: nat, left: Tree, right: Tree)

  /** The leaf nodes of a tree, with multiplicity. */
  function Leaves(t: Tree): multiset<Tree>
  {
    match t
    case Leaf(_, _) => multiset{t}
    case Internal(_, l, r) => Leaves(l) + Leaves(r)
  }

  /** The number of internal (merge) nodes of a tree. */
  function InternalCount(t: Tree): nat
  {
    match t
    case Leaf(_, _) => 0
    case Internal(_, l, r) => 1 + InternalCount(l) + InternalCount(r)
  }

  /** The sum of the counts stored in the leaves of a tree. */
  function LeafWeight(t: Tree): nat
  {
    match t
    case Leaf(_, f) => f
    case Internal(_, l, r) => LeafWeight(l) + LeafWeight(r)
  }

  /** A tree as the greedy merge builds it: every leaf has a positive count,
      every internal node holds the sum of its children's counts, and the
      lighter child (the one removed first) is on the left. */
  predicate WellFormed(t: Tree)
  {
    match t
    case Leaf(_, f) => f > 0
    case Internal(f, l, r) =>
      && f == l.freq + r.freq
      && l.freq <= r.freq
      && WellFormed(l)
      && WellFormed(r)
  }

  /** Every internal node has two children, so a tree has one leaf more than
      it has internal nodes. */
  lemma {:induction false} LeavesOutnumberInternals(t: Tree)
    ensures |Leaves(t)| == InternalCount(t) + 1
  {
    match t
    case Leaf(_, _) =>
    case Internal(_, l, r) =>
      LeavesOutnumberInternals(l);
      LeavesOutnumberInternals(r);
  }

  /** In a well-formed tree the count at the root is the total count of the
      leaves. */
  lemma {:induction false} RootWeightIsLeafWeight(t: Tree)
    requires WellFormed(t)
    ensures t.freq == LeafWeight(t)
  {
    match t
    case Leaf(_, _) =>
    case Internal(_, l, r) =>
      RootWeightIsLeafWeight(l);
      RootWeightIsLeafWeight(r);
  }
}
