# Huffman tree builder and bit writer

A Dafny model of the Huffman coding core of `HuffmanEncoderDecoder.c`:

- the frequency-ordered priority list: `createLinkedList`, `insertHuffmanNode` and `popHuffmanNode`;
- the greedy tree construction, `createHuffmanTree`;
- the bit writer, `writeBit` and `flushBuffer`;
- the fixed scenario that `main` runs.

How the model maps onto the C program:

- **Priority list.** The C program keeps a singly linked list with a dummy head and a global length counter. The model uses an immutable `seq<Tree>` kept sorted by ascending count, and the global `linkedListLength` is the length of the sequence.
- **Nodes.** In C a node is a record with a symbol, a count, two children and a `next` pointer. The model uses the datatype `Tree`, which is either `Leaf(sym, freq)` or `Internal(freq, left, right)`. The `'\0'` symbol that the source uses to mark an internal node is replaced by the constructor, so it cannot be confused with a leaf for byte 0.
- **Bit writer.** The source passes the accumulator and its bit count around as globals by pointer and writes bytes to a file. The model makes the writer a pure state transition over `Writer(buffer, bitCount, out)`, where `out` is the sequence of bytes written so far.

Modules:

| file | module | contents |
|---|---|---|
| `optional.dfy` | `Optional` | `Option` |
| `huffman_node.dfy` | `HuffmanNode` | `Byte`, `Tree`, the tree measures, `WellFormed` |
| `priority_list.dfy` | `PriorityList` | `Insert`, `Pop`, `CreateLinkedList`, the list census |
| `tree_builder.dfy` | `TreeBuilder` | `MergeStep`, `Build`, `HuffmanTree`, conservation |
| `bit_writer.dfy` | `BitWriter` | `WriteBit`, `FlushBuffer`, `WriteBits`, `Pack`, and their bit-level meaning |
| `scenario.dfy` | `Scenario` | `main`'s frequency table and the tree it yields |
| `writer_scenario.dfy` | `WriterScenario` | `main`'s fifty bits and the seven bytes they yield |

What each operation is proved against:

- **Insert and seeding:** a multiset (permutation) and sortedness characterisation; for seeding also the order of equal counts, which together pin the seeded list down uniquely.
- **Merge loop:** the census, meaning the leaf multiset, total count and number of internal nodes.
- **Writer:** the bit stream a writer state stands for (`Stream`), read back through `Unpack`, with `Value`/`BitsOf` as a proved inverse pair.

## Model

| member | source | states |
|---|---|---|
| PriorityList.InsertionPoint | HuffmanEncoderDecoder.c:135-142 | The scan stops at a position where every node in front is strictly lighter than the new node and the node there, if any, is at least as heavy. |
| PriorityList.InsertionPointUnique | HuffmanEncoderDecoder.c:139-142 | That position is the only one with this property, so the scan's stopping point is fully determined by the counts. |
| PriorityList.Insert | HuffmanEncoderDecoder.c:133-147 | Sorted insertion grows the list by exactly one. The result holds the old nodes plus the new one, as a multiset. A sorted list stays sorted. |
| PriorityList.InsertAt | HuffmanEncoderDecoder.c:139-145 | At any position where everything in front is lighter and the next node is not lighter, insertion is exactly the splice `list[..k] + [node] + list[k..]`. |
| PriorityList.InsertPlacement | HuffmanEncoderDecoder.c:139-145 | Tie-break: the new node sits at the scan position and comes before every existing node of equal count. Removing it gives back the old list, so the existing nodes keep their relative order. |
| PriorityList.Pop | HuffmanEncoderDecoder.c:97-107 | An empty list is the error result. Otherwise the result is the head and the remaining tail. For a sorted list the tail is sorted and the head is a minimum-count node. |
| PriorityList.InsertCensus | HuffmanEncoderDecoder.c:133-147 | Insertion adds exactly the new node's leaves, count and internal nodes to the list's totals. |
| PriorityList.SeedUpTo | HuffmanEncoderDecoder.c:154-160 | After the first n rounds of the seeding loop, the list is sorted. It holds exactly one leaf `Leaf(i, freq[i])` for each i < n with a positive count, and nothing else. Of two leaves with equal counts, the one with the larger symbol comes first. |
| PriorityList.CreateLinkedList | HuffmanEncoderDecoder.c:149-162 | The seeded list is sorted. It has exactly one leaf per positive entry 0..254, carrying that entry's count. Every element is a leaf with a symbol below 255 and a positive count. Equally heavy leaves are in descending order of symbol, because entries are inserted by rising index and each goes in front of its equals. |
| PriorityList.InsertKeepsTieOrder | HuffmanEncoderDecoder.c:139-145 | Inserting a leaf whose symbol is above every symbol in a sorted list keeps equally heavy leaves in descending order of symbol. |
| PriorityList.OrderedUnique | HuffmanEncoderDecoder.c:139-145 | Ascending count with ties broken by descending symbol is a strict order: two lists ordered that way with the same elements are equal. |
| PriorityList.SeedOrderUnique | HuffmanEncoderDecoder.c:149-162 | The contract of the seeded list determines it: any sorted list with that tie order holding exactly the seed leaves is the seeded list. |
| PriorityList.TiedSeedOrder | HuffmanEncoderDecoder.c:139-159 | A table with a and b seen once each (and nothing else positive) seeds `[Leaf(98, 1), Leaf(97, 1)]`: the later symbol lands in front. |
| PriorityList.SeedReadsOnlyPrefix | HuffmanEncoderDecoder.c:154-155 | The first n rounds read only entries below n: tables that agree on them seed the same list. |
| PriorityList.CreateLinkedListIgnoresLastEntry | HuffmanEncoderDecoder.c:5 | Because the loop bound is 255, two tables that agree on entries 0..254 seed the same list. Entry 255 is never read. |
| PriorityList.SeedSkipsNonPositive | HuffmanEncoderDecoder.c:156 | A run of entries that are not positive adds nothing to the list. |
| PriorityList.SeedCensus | HuffmanEncoderDecoder.c:149-162 | The seeded list has as many nodes as there are positive entries, their counts sum to the sum of those entries, and it has no internal node. |
| HuffmanNode.LeavesOutnumberInternals | HuffmanEncoderDecoder.c:116-119 | Every internal node gets exactly two children, so a tree has one leaf more than it has internal nodes. |
| HuffmanNode.RootWeightIsLeafWeight | HuffmanEncoderDecoder.c:116-117 | In a tree built by summing children's counts, the root count equals the total of its leaves' counts. |
| TreeBuilder.MergeStep | HuffmanEncoderDecoder.c:113-121 | One round pops the two lightest nodes and joins them with the first-popped on the left and the sum as the count. It reinserts the join, so the list shrinks by exactly one. Sortedness is kept, and so is well-formedness (sum count, left not heavier than right). |
| TreeBuilder.MergeStepAt | HuffmanEncoderDecoder.c:113-121 | The join lands behind exactly those remaining nodes that are lighter than it. |
| TreeBuilder.MergeStepCensus | HuffmanEncoderDecoder.c:113-121 | One round conserves the leaf multiset and the total count, and adds exactly one internal node. |
| TreeBuilder.Build | HuffmanEncoderDecoder.c:113-121 | The loop terminates with at most one node. It ends with none exactly when it started with none. A single node is left alone, so no merge happens. For a sorted list of well-formed trees the result is well-formed. |
| TreeBuilder.BuildCensus | HuffmanEncoderDecoder.c:109-122 | From n ≥ 1 nodes, the loop keeps the leaf multiset and total count and creates exactly n-1 internal nodes. |
| TreeBuilder.HuffmanTree | HuffmanEncoderDecoder.c:109-122 | There is no tree exactly when no entry 0..254 is positive. Otherwise the remaining node is a well-formed tree. |
| TreeBuilder.SeededEmpty | HuffmanEncoderDecoder.c:149-162 | The seeded list is empty exactly when no entry 0..254 is positive. |
| TreeBuilder.HuffmanTreeCensus | HuffmanEncoderDecoder.c:109-122 | When some entry 0..254 is positive, there is a tree. It has exactly one leaf per positive entry, carrying its count. Its root count is the sum of the positive entries. It has one internal node fewer than it has leaves. |
| Scenario.MainScenarioTree | HuffmanEncoderDecoder.c:31-39 | `main`'s table {c:1, b:3, e:4, a:5, f:6} yields the tree `((c b) e) (a f)` with root count 19. |
| Scenario.MainBuild | HuffmanEncoderDecoder.c:113-121 | The merge loop on `main`'s seeded list ends with that tree. The first join goes in front of the equally heavy `e`. |
| Scenario.MainSeededList | HuffmanEncoderDecoder.c:149-162 | `main`'s table seeds the list c, b, e, a, f. |
| Scenario.TiedTree | HuffmanEncoderDecoder.c:109-122 | The table with a and b seen once each yields the tree with b on the left and a on the right, root count 2. |
| BitWriter.WriteBit | HuffmanEncoderDecoder.c:51-60 | From a valid state (0 ≤ bitCount ≤ 7, buffer < 2^bitCount), the state stays valid and exactly `bit & 1` is appended to the bit stream. A byte is written exactly when the eighth pending bit arrives, and the state then resets to (0, 0) with earlier bytes untouched. |
| BitWriter.WriteBitFacts | HuffmanEncoderDecoder.c:53-58 | The eight-bit truncation of the shift loses no pending bit, and the byte written on the eighth bit carries all eight bits in order. |
| BitWriter.FlushBuffer | HuffmanEncoderDecoder.c:62-70 | With nothing pending, the flush changes nothing. Otherwise it writes one byte and resets the state, and that byte carries the pending bits at its top followed by zero padding. |
| BitWriter.FlushFacts | HuffmanEncoderDecoder.c:64-66 | Shifting the pending bits up by `8 - bitCount` keeps them all and fills the low end with zeros. |
| BitWriter.WriteBits | HuffmanEncoderDecoder.c:44-46 | Writing a bit sequence appends it to the stream. It writes (bitCount + n) / 8 more bytes and leaves (bitCount + n) % 8 bits pending. |
| BitWriter.PackLayout | HuffmanEncoderDecoder.c:42-47 | Writing n bits from the fresh state and flushing yields ceil(n/8) bytes. Their bits are the input followed by zero padding. |
| BitWriter.PackRoundTrip | HuffmanEncoderDecoder.c:42-47 | The first n bits of the written bytes, read most significant first, are exactly the bits written. |
| BitWriter.ValueOfBits | HuffmanEncoderDecoder.c:53 | The n-bit MSB-first digits of a number below 2^n read back to that number. |
| BitWriter.BitsOfValue | HuffmanEncoderDecoder.c:53 | Reading a bit sequence as a number and taking that many digits gives back the bits. |
| BitWriter.UnpackInjective | HuffmanEncoderDecoder.c:56 | Two byte sequences with the same bits are equal, so the written bytes are determined by the bit stream. |
| WriterScenario.MainPackLayout | HuffmanEncoderDecoder.c:42-47 | `main`'s 50 bits give 7 bytes: six full ones and one with six zero padding bits. |
| WriterScenario.MainScenarioBytes | HuffmanEncoderDecoder.c:42-47 | The output file of `main` holds the bytes 178, 109, 227, 89, 28, 170, 192. |

## Left out

- main.c is not part of this model. It holds argument checking, counting the bytes of an input file, and printing. Its own `createLinkedList` is an unfinished fragment.
- `printTree` and `printHuffmanNodeLinkedList` are left out because they only print to the console.
- `fopen`, `fputc` and `fclose` are not modelled as file I/O. The output file is the `out` sequence of the writer state, and `fputc` appends to it.
- The `malloc` failure path of `createHuffmanNode` (message and `exit(1)`) is left out: allocation always succeeds in the model. `createHuffmanNode` itself is the `Leaf` and `Internal` constructors.
- The dummy head node and the `next` pointers are modelled by positions in the sequence, and the global `linkedListLength` by its length.
- Pop: the source prints an error and exits the process on an empty list. The model returns `None` instead, and the merge loop never pops from a list shorter than two.
- C `int` overflow of frequency sums is not modelled: counts are unbounded naturals. A negative count never enters the list, because only positive entries are seeded.
- TreeBuilder.HuffmanTree: `createHuffmanTree` has no `return` statement, so the value `main` stores in `root` is indeterminate in C. The model returns the tree the loop leaves in the list, which is evidently the intended result.
- The symbol of `createHuffmanNode` is a plain `char`, so indices 128..254 pass through a possibly signed `char` before being stored in the `unsigned char` field. They come back unchanged, so the model stores the index directly.
- `main`'s loop computes `bits[i] - '0'` from a character string. The model starts from the resulting 0/1 sequence, written out as literal bits.
- `writeBit` is given only 0 and 1 by `main`. The model still takes any `int` and keeps `bit % 2`, which is the two's-complement low bit `bit & 1`.
- BitWriter.FlushBuffer requires `bitCount <= 8`. A larger count would give a negative shift, which C leaves undefined. All valid states meet this requirement.
- Code assignment, the encoded file header, decoding and a bit reader are not part of this source file, and so are not modelled.
- Edge cases follow the code as written:
  - Only symbols 0..254 are seeded, because `EXTENDED_ASCII_SET_SIZE` is 255; byte 255 never gets a leaf.
  - A table with one positive entry yields a bare leaf as the tree; no internal root is added for it.
  - An empty table yields no tree, modelled as `None`; the code reports no error for it.
  - A new node goes in front of existing nodes of equal count, because the scan continues only while the new node is strictly heavier.
