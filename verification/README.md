# Chicago: a verified model

Chicago reads the save files of Source engine games. A payload walks the game's datamaps and
sends them to an executable, which orders them, packs them into one file of relative offsets
and writes it; a loader turns such a file back into a graph of datamaps; a restore engine uses
the datamaps to rebuild objects from the size-prefixed records of a save file. The project also
ships the libraries this rests on: a Robin Hood hash map, an arena allocator, miniz and Brotli.

This Dafny project models the algorithms of these parts and proves what they are for.

* `RobinHood`, `HashMap`: the hash map as a class over its bucket array. Every operation is
  proved against a specification on finite maps, and the specification over whole runs.
* `CodeCost`, `HuffmanTree`, `HuffmanForest`, `Huffman`, `HuffmanLimit`, `RadixSort`,
  `HuffmanCodes`, `HuffmanSizes`, `CheapestSizes`, `HuffmanTable`: from symbol counts to codes.
  The in-place length construction ends with a Kraft sum of exactly 1 for any weights and with
  lengths of minimum redundancy if no sum wraps, the repair loop makes the code space exactly
  full, the codes that come out are those of RFC 1951, never confused by a decoder, and no others
  make a shorter text exactly if the shortest text does not take a code longer than the limit.
* `ZipIndex`, `Adler32`, `BrotliLimit`, `Arena`: heap sort and binary search of a ZIP
  directory against a linear scan, blocked against bytewise checksums, the largest distance
  alphabet of Brotli, and an arena whose blocks never overlap.
* `Datamaps`, `DatamapOrder`, `Receiver` (with its specification `ReceiverSpec`): the trees
  that are received, the protocol as a state machine, and the order in which maps are written.
* `Layout`, `Strings`, `Image`, `Packing`, `Packer`: the offsets of the packed fields, the
  strings that are written once, the image of the file byte by byte, its intended contents,
  and the code that fills the buffer.
* `Loader` (with `LoaderSpec`), `Readback`, `RoundTrip`, `Collection`: the in-place fix-up of a
  loaded image, what can be read through its pointers, the round trip from writer to loader,
  and the way from received messages to the lookup table.
* `ByteReader`, `SymbolTable`, `FieldReader`, `Restorer`, `FieldFrames`, `FieldAnswers`,
  `FieldSearch`, `FieldOrder`, `OrderMatters`, `ClassOrder`, `ObjectSlots`, `ObjectOrder`,
  `WrittenClass`: windowed readers, records, the circular field search, and the restore engine as a class that is
  proved to do what functions on values say. About these, framing, non-interference, what any
  bytes are answered with, independence of order, and what a restored object holds at any depth of
  bases and embedded classes are then proved.

`Wrappers`, `Bytes` and `Bits` hold what several parts share. Sizes and offsets are unbounded
numbers except where a width is written out (`%` and `_RANGE` constants). Allocation failures,
the contents of files and the answers of custom handlers are parameters.

A pointer and a `size_t` have `Bits.PTR` bytes, which is 4 or 8, and nothing says which: every
result holds for both, and so for the 32-bit builds of the repository (CMakeSettings.json). The
words and structs of the file, its NULL, the casts to `size_t`, the alignment of slots and the
arena follow it.

Every lemma switches automatic induction off; where a proof is by induction, its body says so.

`dafny verify dfyconfig.toml` checks everything.

## What turned out not to hold

Each of these is proved, with the exact condition under which the code does what it is for.

* Sorting by (module, count, name) puts a base or embedded map before the map that uses it
  exactly if its module does not sort after the user's module (`DatamapOrder.ChildBefore`,
  `DatamapOrder.SortedByDependency`; `DatamapOrder.LaterModule` is a case where it does).
* A collection without linked names is written but refused by the loader, and so is one with a
  class whose last saved field is empty at an aligned end (`RoundTrip.SaveAndLoad`;
  `RoundTrip.EmptyFieldRefused` is one).
* Whether a collection can be loaded depends on the width of pointers (`RoundTrip.WidthDecides`
  is a class that is accepted exactly if they have eight bytes).
* The order of records matters exactly if two fields reach the same byte
  (`OrderMatters.OrderMattersExactly`), which in a written class takes a string-like field that
  reaches to where a later one starts (`FieldOrder.OverlapOfLaidOut`;
  `OrderMatters.StringsWithoutRoom` is such a class).
* Elements of an embedded field are restored total_size_bytes apart, but the slot that the writer
  lays out for the field takes one of them: two or more reach into the fields behind it, unless
  they are empty (`ObjectSlots.ElementsFitSlot`; where they land, `ObjectSlots.EmbeddedRestored`).
* The classes of a file have the sizes of their chains of bases exactly if each base is written
  before the classes that have it, or is empty (`Collection.LaidOutExactly`).
* A linked name may be that of a datamap that is received later (`ReceiverSpec.LinkedNameTaken`).
  After any accepted run none is exactly if no datamap that came after the linked names has, or
  leads to a map that has, one of the names (`ReceiverSpec.RunLinksApart`).
* A record that claims to be larger than its window is started without an error. The reader
  overflows when the record ends, so the field is restored from whatever the window still
  holds (`FieldFrames.RecordRest`, `FieldFrames.OversizedRecord`).
* After a resize the hash map grows at the default load factor of 60%, whatever factor was set
  (`HashMap.LoadFactorForgotten`; `HashMap.LoadFactorForgottenInRun` is a run in which it does).
  This is the limit of the factor that was set exactly if that is 60%, or 57 to 62% of 16
  buckets, or 60 to 62% of 32. Its clamp goes up to 95%, not to 90% as its comment says.
* Limited code lengths are not always the cheapest (`HuffmanTable.LimitCosts`). They are exactly
  if the construction makes no length above the limit, so that there is nothing to repair; the
  longest length that it makes is the least that any shortest text takes
  (`HuffmanTable.OptimizeHuffmanTable`). Counts that add up to less than the Fibonacci number
  of the limit + 3 make none.
* Names that differ only behind an embedded NUL and are equally long compare as equal
  (`DatamapOrder.CmpZero`), and come back cut at the NUL (`RoundTrip.Sent`, `Collection.CutWhole`).

## Model

| member | source | states |
|---|---|---|
| RobinHood.Chain | shared/thirdparty/hashmap/hashmap.c:291-316 | In a table where each dib is at most its predecessor's plus one, dibs grow along the probe order by at most the steps taken. |
| RobinHood.RunBound | shared/thirdparty/hashmap/hashmap.c:293-316 | A run of occupied buckets is never longer than the map is large, so no probe goes on for ever. |
| RobinHood.EmptyExists | shared/thirdparty/hashmap/hashmap.c:335-345 | With fewer items than buckets there is an empty bucket, at which every `while(1)` probe ends. |
| RobinHood.AbsentAtGap | shared/thirdparty/hashmap/hashmap.c:303-310 | A key that was not met before a bucket closer to home than the probe is nowhere in the table: `set` meets an equal key before its first displacement. |
| RobinHood.InFlightRun | shared/thirdparty/hashmap/hashmap.c:278-283 | An item in flight is at most count + 1 buckets from home. |
| RobinHood.StepOver | shared/thirdparty/hashmap/hashmap.c:308-315 | Passing a bucket that is not closer to home keeps all that holds of a table with an item in flight. |
| RobinHood.StepSwap | shared/thirdparty/hashmap/hashmap.c:308-313 | Swapping with a bucket that is closer to home keeps the order of the table and the distance rule, exchanges the items in the map, and the displaced key is now in flight only. |
| RobinHood.StepPlace | shared/thirdparty/hashmap/hashmap.c:295-299 | Putting the item in flight into an empty bucket ends with an ordered table that holds it as well. |
| RobinHood.StepReplace | shared/thirdparty/hashmap/hashmap.c:303-307 | Overwriting the item of an equal key changes that key's value and nothing else. |
| RobinHood.ShiftStart | shared/thirdparty/hashmap/hashmap.c:384-385 | Emptying a bucket leaves a table that is in order but for the step out of the hole, without the key. |
| RobinHood.ShiftStep | shared/thirdparty/hashmap/hashmap.c:386-396 | Moving the next bucket back by one keeps this, with the hole one further on. |
| RobinHood.ShiftEnd | shared/thirdparty/hashmap/hashmap.c:390-393 | When the bucket after the hole is empty or at home, the whole table is in order again. |
| HashMap.RoundCapIsPow2 | shared/thirdparty/hashmap/hashmap.c:118-126 | The rounded capacity is a power of two, at least 16 and at least what was asked for, and less than twice that. |
| HashMap.SetSound | shared/thirdparty/hashmap/hashmap.c:273-317 | Setting keeps what holds between operations: bucket counts are powers of two, nbuckets >= cap, count < nbuckets and growat < nbuckets. |
| HashMap.DeleteSound | shared/thirdparty/hashmap/hashmap.c:369-408 | Deleting keeps it too, also when the map shrinks, and takes one item away. |
| HashMap.SetBinds | shared/thirdparty/hashmap/hashmap.c:273-317 | A set is refused exactly if the map has as many items as its grow limit, or more, and no memory. Otherwise the item is bound and no other key changes, whether or not the table grows; it grows by the grow power, and its limit is then 60%. |
| HashMap.DeleteUnbinds | shared/thirdparty/hashmap/hashmap.c:369-408 | A delete unbinds the key and no other, and halves the table exactly if the key was bound, there are more buckets than the capacity, few items and memory. |
| HashMap.ClearSound | shared/thirdparty/hashmap/hashmap.c:210-227 | Clearing keeps it, whether or not the capacity is updated. |
| HashMap.NewSound | shared/thirdparty/hashmap/hashmap.c:107-165 | A new map is empty and sound. |
| HashMap.RunSound | shared/thirdparty/hashmap/hashmap.c:210-408 | Over any run of sets, deletes, clears and settings, with any allocations failing, the map stays sound. |
| HashMap.RunIsFold | shared/thirdparty/hashmap/hashmap.c:210-408 | Over any run the contents are what the operations leave in a plain map, one after the other, where a set that is refused is no operation: growing, shrinking and limits never show. |
| HashMap.NoneRefused | shared/thirdparty/hashmap/hashmap.c:273-284 | With memory at hand no operation of a run is refused. |
| HashMap.LastDecides | shared/thirdparty/hashmap/hashmap.c:210-408 | The last operation on a key decides: after any run it is bound exactly if that was a set, and to the value of that set. |
| HashMap.LoadFactorForgotten | shared/thirdparty/hashmap/hashmap.c:78-82 | Setting a load factor sets the grow limit by it. After a resize to any size the limit is that of the factor exactly if the factor is the default, or 57 to 62% of 16 buckets, or 60 to 62% of 32. |
| HashMap.LoadFactorForgottenInRun | shared/thirdparty/hashmap/hashmap.c:273-284 | A new map with factor 75% grows with its thirteenth item, and has from then on a limit of 19 of 32 items instead of 24. |
| HashMap.BumpExact | shared/thirdparty/hashmap/hashmap.c:34-37 | While there are fewer than 65535 items the 16-bit distance of an item in flight does not wrap. |
| HashMap.ProbeStep | shared/thirdparty/hashmap/hashmap.c:300-315 | One turn of the probe loop: the item in flight moves on, its distance is exact, and nothing is lost or duplicated. |
| HashMap.HashMap.constructor | shared/thirdparty/hashmap/hashmap.c:107-165 | A new map is empty, with rounded capacity and all buckets free. |
| HashMap.HashMap.Resize | shared/thirdparty/hashmap/hashmap.c:229-264 | A resize that gets its memory keeps exactly the same items in a fresh ordered table, using the old array as scratch; one that does not changes nothing. |
| HashMap.HashMap.Rehash | shared/thirdparty/hashmap/hashmap.c:234-255 | Moving the items one after the other ends with all of them, each once, in the new array. |
| HashMap.HashMap.Reinsert | shared/thirdparty/hashmap/hashmap.c:235-255 | One item of the old array is inserted into the new one, without looking for an equal key. |
| HashMap.HashMap.SetWithHash | shared/thirdparty/hashmap/hashmap.c:273-317 | A set fails exactly if it finds the map at its grow limit and without memory, and then changes no item. Otherwise the key is bound to the item and nothing else changes, also when the table grows. Bucket count and limit afterwards are stated, and the old item of the key is returned. |
| HashMap.HashMap.Set | shared/thirdparty/hashmap/hashmap.c:323-325 | The same with the hash that the map computes. |
| HashMap.HashMap.Insert | shared/thirdparty/hashmap/hashmap.c:285-316 | The probe loop binds the key to the item, keeps the table ordered and returns what was replaced. |
| HashMap.HashMap.GetWithHash | shared/thirdparty/hashmap/hashmap.c:330-346 | The bound item is returned, or nothing exactly if the key is not bound. |
| HashMap.HashMap.DeleteWithHash | shared/thirdparty/hashmap/hashmap.c:369-408 | The key is unbound and nothing else changes, the old item is returned, and the table is halved exactly when it may and can be. |
| HashMap.HashMap.Delete | shared/thirdparty/hashmap/hashmap.c:412-414 | The same with the hash that the map computes. |
| HashMap.HashMap.ShiftBack | shared/thirdparty/hashmap/hashmap.c:384-396 | The backward shift removes the key and nothing else, and restores the order of the table. |
| HashMap.HashMap.Shrink | shared/thirdparty/hashmap/hashmap.c:397-403 | Halving happens exactly when there are more buckets than the capacity, few items and memory; a failure is harmless. |
| HashMap.HashMap.Clear | shared/thirdparty/hashmap/hashmap.c:210-227 | No items are left; the bucket count is that of the capacity, or stays and becomes the capacity, and the limits follow the load factor that was set, even if the smaller array could not be had. |
| HashMap.HashMap.SetLoadFactor | shared/thirdparty/hashmap/hashmap.c:78-82 | The factor becomes the nearest percentage from 50 to 95 and the grow limit is that of it. |
| HashMap.HashMap.Iter | shared/thirdparty/hashmap/hashmap.c:470-479 | The next item at or behind a cursor is found, and all buckets passed are empty. |
| HashMap.HashMap.Items | shared/thirdparty/hashmap/hashmap.c:452-479 | Iterating to the end visits every item of the map, and each once. |
| Bits.AndMask | shared/thirdparty/hashmap/hashmap.c:292 | Masking with one less than a power of two is the remainder. |
| Bits.BitByBit | shared/ch_arena.h:25 | And, and-not and or are what they are bit by bit. |
| Bits.AlignNeverShrinks | shared/ch_arena.h:25 | `CH_ALIGN_TO` is at least its input and less than one alignment above, even if the alignment is no power of two. |
| Bits.AlignIsLeastMultiple | shared/ch_arena.h:25 | For a power of two it is the least multiple that is not below the input. |
| CodeCost.LightestLongest | shared/thirdparty/miniz/miniz.c:797-840 | In any lengths that fit the code space the two first items, by weight and then by height, can be given the two longest codes, which costs no more and, if it costs as much, is not deeper. |
| CodeCost.MergeLightest | shared/thirdparty/miniz/miniz.c:800-816 | Lengths for some items give lengths for the items with the first two joined, which cost less by what these two weigh, and are not deeper if they are not cheaper still. |
| CodeCost.MergeBound | shared/thirdparty/miniz/miniz.c:800-816 | So a lower bound on the cost of all codes, and on the depth of those that cost no more, carries over from the joined items to the items before. |
| HuffmanTree.DepthFalls | shared/thirdparty/miniz/miniz.c:817-819 | Since parent pointers do not decrease, internal depths do not increase with the index. |
| HuffmanTree.LevelBound | shared/thirdparty/miniz/miniz.c:800-816 | A level has at most twice as many internal nodes as the level above. |
| Huffman.LevelCount | shared/thirdparty/miniz/miniz.c:824-839 | The loop that walks a level finds exactly its internal nodes, and the next level has twice as many places. |
| HuffmanTree.Merge | shared/thirdparty/miniz/miniz.c:800-816 | Merging the two lightest nodes keeps both queues sorted, keeps the total weight, and makes a parent outweigh its child and any earlier sibling level together. |
| HuffmanTree.Climb | shared/thirdparty/miniz/miniz.c:800-816 | Weights along a path to the root grow at least like the Fibonacci numbers. |
| HuffmanTree.DeepTreesAreHeavy | shared/thirdparty/miniz/miniz.c:797-840 | A tree of some depth has at least the Fibonacci number of the depth + 3 as its total weight. |
| HuffmanTree.ShallowTree | shared/thirdparty/miniz/miniz.c:797-840 | With weights that add up to less than 65536 no internal node is deeper than 21. |
| HuffmanForest.OneMoreMerge | shared/thirdparty/miniz/miniz.c:800-816 | Taking the lighter front of the two queues twice, a leaf when both weigh the same, takes the first two of all that is left by weight and then by height. |
| HuffmanForest.LowerBound | shared/thirdparty/miniz/miniz.c:797-816 | No code for what is left before a merge costs less than the sum of all merges still to come, and none that costs as little is less deep than the root is high. |
| HuffmanForest.CostOfMerges | shared/thirdparty/miniz/miniz.c:797-840 | What was merged so far weighs as much as the lengths below it cost. |
| HuffmanForest.TreeCost | shared/thirdparty/miniz/miniz.c:797-840 | The lengths that the tree gives its leaves cost the sum of all merges. |
| HuffmanForest.RootIsHigh | shared/thirdparty/miniz/miniz.c:797-819 | The root is at least as much higher than a node as the node is deep in the tree. |
| HuffmanForest.TreeIsMinimum | shared/thirdparty/miniz/miniz.c:797-840 | So no lengths that fit the code space cost less than those of the tree, and all that cost as little have one as long as its longest. |
| Huffman.BuildTree | shared/thirdparty/miniz/miniz.c:797-816 | The first phase leaves parent pointers that form a binary tree: each points further on, they do not decrease, and no parent has more than two internal children. Unless sums wrap, every merge took the two lightest nodes that were left, and of those as light the least high. |
| Huffman.FindDepths | shared/thirdparty/miniz/miniz.c:817-819 | The second phase replaces each parent pointer by the depth of its node. |
| Huffman.LevelGiven | shared/thirdparty/miniz/miniz.c:824-839 | The places that a level hands out are those of the leaves whose parents are the internal nodes of the level above. |
| Huffman.AssignLengths | shared/thirdparty/miniz/miniz.c:820-839 | The third phase replaces depths by leaf lengths, longest first, whose Kraft sum is exactly 1; each is the depth of its leaf in the tree of the first phase. |
| Huffman.CalculateMinimumRedundancy | shared/thirdparty/miniz/miniz.c:787-840 | For two symbols or more the in-place construction ends with lengths whose Kraft sum is exactly 1, whatever the weights, the first being the longest. With weights in order that add up to less than 65536 none is longer than 22, a longest length of k takes a sum of at least the Fibonacci number of k + 2, no lengths that fit the code space, so those of no prefix-free code, make a shorter text, and none that make as short a text have a shorter longest length. Symbols stay where they are. |
| HuffmanLimit.LimitIsNecessary | shared/thirdparty/miniz/miniz.c:847-869 | No complete code with lengths up to the limit has more than 2^limit symbols. |
| HuffmanLimit.RepairStart | shared/thirdparty/miniz/miniz.c:853-856 | Counting all longer codes at the limit leaves a code that is too long by no more than can be repaired, in a sum that fits 32 bits. |
| HuffmanLimit.RepairPossible | shared/thirdparty/miniz/miniz.c:857-866 | While the sum is not 2^limit there is a code at the limit to give up and a shorter one to split. |
| HuffmanLimit.RepairStep | shared/thirdparty/miniz/miniz.c:857-868 | One turn keeps the number of codes and all counts nonnegative, and takes exactly one from the sum. |
| HuffmanLimit.WithinLimit | shared/thirdparty/miniz/miniz.c:847-869 | If no code is longer than the limit, the codes up to it fill the code space, so that there is nothing to repair. |
| HuffmanLimit.EnforceMaxCodeSize | shared/thirdparty/miniz/miniz.c:847-869 | Codes above the limit are counted at it; each turn of the repair loop gives up one code at the limit and splits one of the longest that are shorter. It ends, for at most 2^limit symbols, with as many codes as before and a code space that is exactly full; without longer codes it changes nothing. |
| RadixSort.BucketedSorted | shared/thirdparty/miniz/miniz.c:766-782 | A pass by the high digit over entries sorted by the low digit sorts them by key. |
| RadixSort.BucketedPermutes | shared/thirdparty/miniz/miniz.c:766-776 | A pass loses and duplicates nothing. |
| RadixSort.Distribute | shared/thirdparty/miniz/miniz.c:768-776 | Scattering through the offsets array is exactly the stable bucketing of the entries. |
| RadixSort.PassIsStable | shared/thirdparty/miniz/miniz.c:766-776 | A pass leaves entries with equal keys in their order. |
| RadixSort.StableTies | shared/thirdparty/miniz/miniz.c:753-784 | So of symbols that are equally frequent, the lower one comes first. |
| RadixSort.RadixSortSyms | shared/thirdparty/miniz/miniz.c:753-784 | The array that is returned holds the same entries sorted by key, those with equal keys in their order, also when the second pass is skipped. |
| HuffmanCodes.PrefixFree | shared/thirdparty/miniz/miniz.c:908-917 | No canonical code is a prefix of another, as in section 3.2.2 of RFC 1951. |
| HuffmanCodes.ReversePrefix | shared/thirdparty/miniz/miniz.c:918-919 | Reversal turns the first bits of a code into its low bits. |
| HuffmanCodes.ReverseInjective | shared/thirdparty/miniz/miniz.c:918-919 | Different codes of one length stay different when reversed. |
| HuffmanCodes.ReverseBit | shared/thirdparty/miniz/miniz.c:918-919 | Each bit of the reversed code is the bit of the code that is as far from the other end. |
| HuffmanCodes.CodedCanonical | shared/thirdparty/miniz/miniz.c:908-921 | The codes, read from their first bit, follow the two rules of section 3.2.2 of RFC 1951: the smallest code of a length is twice the number behind the codes that are one shorter, starting at zero, and codes of one length are consecutive in symbol order. |
| HuffmanCodes.CanonicalIsUnique | shared/thirdparty/miniz/miniz.c:908-921 | Codes that follow the rules are determined by the sizes, so that a decoder has the same. |
| HuffmanCodes.CodedAscending | shared/thirdparty/miniz/miniz.c:908-921 | As strings of bits codes ascend with the symbols of one size, and every code comes before all longer ones. |
| HuffmanCodes.NeverConfused | shared/thirdparty/miniz/miniz.c:908-921 | The low bits of a reversed code are never another symbol's code. |
| HuffmanCodes.CanonDecodable | shared/thirdparty/miniz/miniz.c:908-921 | Canonical codes, reversed, can be told apart by a decoder that reads low bits first. |
| HuffmanCodes.AssignCodes | shared/thirdparty/miniz/miniz.c:908-921 | For all sizes that fit the code space, the loop writes codes that a decoder can tell apart and that, their bits reversed, follow the two rules of section 3.2.2 of RFC 1951 and ascend as strings of bits. Symbols without a size keep what they had. |
| HuffmanSizes.AssignSizes | shared/thirdparty/miniz/miniz.c:903-905 | Sizes go to symbols from the rarest up: as many of each size as counted, and no symbol gets a longer code than a rarer one. |
| HuffmanSizes.Gather | shared/thirdparty/miniz/miniz.c:884-891 | One entry for each symbol that occurs, with its count. |
| HuffmanSizes.CountLengths | shared/thirdparty/miniz/miniz.c:896-897 | Each count is that of the lengths, and counting keeps the Kraft sum. |
| CheapestSizes.SizesAreLengths | shared/thirdparty/miniz/miniz.c:901-905 | Without repair each entry gets as its size the length that was made for it. |
| CheapestSizes.CostIsTextLength | shared/thirdparty/miniz/miniz.c:871-922 | The sizes of the entries cost what the text of all symbols takes. |
| CheapestSizes.MadeIsCheapest | shared/thirdparty/miniz/miniz.c:871-922 | The lengths that were made, given to the symbols, make the shortest text of all sizes that encode the symbols within the code space. |
| CheapestSizes.MadeIsLeast | shared/thirdparty/miniz/miniz.c:871-905 | The longest length that was made is the least longest size with which the shortest text can be had. |
| HuffmanTable.NoRepair | shared/thirdparty/miniz/miniz.c:847-899 | When no length that was made is above the limit, all codes are counted within it and there is nothing to repair. |
| HuffmanTable.LimitCosts | shared/thirdparty/miniz/miniz.c:847-869 | With counts 1, 1, 2, 3 and a limit of 2 no sizes that fill the code space make the shortest text. |
| HuffmanTable.LengthCounts | shared/thirdparty/miniz/miniz.c:893-899 | After construction and repair the counts describe a code of all symbols that fills the code space within the limit. They are what the repair turns make of the counts of the lengths of minimum redundancy, and these counts themselves when none of the lengths is above the limit. |
| HuffmanTable.LongestIsLeast | shared/thirdparty/miniz/miniz.c:847-899 | The longest length that was made is the least that the shortest text takes, and at most the limit when the counts add up to less than the Fibonacci number of the limit + 3. |
| HuffmanTable.CheapestWithin | shared/thirdparty/miniz/miniz.c:847-869 | Sizes within a limit that is below the least longest size do not make the shortest text. |
| HuffmanTable.OptimizeHuffmanTable | shared/thirdparty/miniz/miniz.c:871-922 | From counts to codes: exactly the symbols that occur get a size within the limit, rarer symbols, and of two as frequent ones the lower, do not get shorter ones, two or more fill the code space, and as many get each size as the repair turns leave of lengths of minimum redundancy. The codes can be decoded and are those that section 3.2.2 of RFC 1951 gives to the sizes. No sizes make a shorter text exactly if the least longest size that the shortest text takes is within the limit; it is when the counts add up to less than the Fibonacci number of the limit + 3. Static sizes are kept. |
| ZipIndex.BeforeCarries | shared/thirdparty/miniz/miniz.c:3540-3557 | The order by lower-cased name is total and transitive. |
| ZipIndex.BeforeExactly | shared/thirdparty/miniz/miniz.c:3540-3557 | A name comes before another one exactly if it is smaller where they first differ, or is a proper beginning of it. |
| ZipIndex.FilenameLess | shared/thirdparty/miniz/miniz.c:3540-3557 | The comparison is the lexicographic order of lower-cased names. |
| ZipIndex.FilenameCompare | shared/thirdparty/miniz/miniz.c:4373-4388 | The three-way comparison agrees with that order, and is zero exactly for names that are the same but for case. |
| Bytes.SameByLetter | shared/thirdparty/miniz/miniz.c:4373-4388 | Two names are the same but for case exactly if they are equally long and each byte is the same letter, as a capital or not. |
| ZipIndex.SiftStep | shared/thirdparty/miniz/miniz.c:3586-3597 | Swapping with the larger child moves the one broken place of the heap down. |
| ZipIndex.SiftDown | shared/thirdparty/miniz/miniz.c:3586-3597 | Sifting down makes a heap again, of the same entries, and touches nothing behind it. |
| ZipIndex.SortByFilename | shared/thirdparty/miniz/miniz.c:3569-3619 | The index afterwards is a permutation of the file numbers, sorted by lower-cased name. |
| ZipIndex.BinarySearch | shared/thirdparty/miniz/miniz.c:4390-4428 | What is found has the name but for case, and nothing is found exactly if no file has. |
| ZipIndex.LinearScan | shared/thirdparty/miniz/miniz.c:4459-4501 | The first file that has the name but for case, or none exactly if there is none. |
| ZipIndex.LocateFile | shared/thirdparty/miniz/miniz.c:4439-4502 | Searching by index or by scan finds a file exactly if one has the name, and what it finds has it. |
| Adler32.AdlerConcat | shared/thirdparty/miniz/miniz.c:40-66 | The checksum of a concatenation is that of the second part seeded with that of the first. |
| Adler32.AdlerIs | shared/thirdparty/miniz/miniz.c:40-66 | The lower half of a checksum is that of the seed plus all bytes, modulo 65521. The upper half is that of the seed, plus its lower half once a byte, plus each byte as often as there are bytes from it on. |
| Adler32.ReduceLate | shared/thirdparty/miniz/miniz.c:46-64 | Reducing once per block is as good as reducing at every byte. |
| Adler32.BlockFits | shared/thirdparty/miniz/miniz.c:43-64 | Neither sum of a block overflows 32 bits: the first has less than 5552 bytes, later ones start reduced. |
| Adler32.AddBlock | shared/thirdparty/miniz/miniz.c:48-60 | Eight bytes a turn and then the rest, in 32-bit arithmetic, give the exact sums. |
| Adler32.MzAdler32 | shared/thirdparty/miniz/miniz.c:40-66 | For any 32-bit seed the blocked loop ends with the checksum of section 2.2 of RFC 1950, also written out as sums over all bytes modulo 65521. |
| BrotliLimit.GroupsAdjoin | shared/thirdparty/brotli/common/constants.h:128-188 | The distances of a group of symbols begin where those of the group before end. |
| BrotliLimit.DistanceOfGroup | shared/thirdparty/brotli/common/constants.h:150-186 | A symbol of a group has the distances that section 4 of RFC 7932 gives it. |
| BrotliLimit.DistanceCoded | shared/thirdparty/brotli/common/constants.h:150-186 | Every distance from one on has a symbol and extra bits. |
| BrotliLimit.DistanceOnce | shared/thirdparty/brotli/common/constants.h:150-186 | No distance has two. |
| BrotliLimit.GroupsLimit | shared/thirdparty/brotli/common/constants.h:150-186 | The symbols of complete groups represent no distance above their limit and the limit itself, and one more group would contain the first prohibited distance. |
| BrotliLimit.DirectLimit | shared/thirdparty/brotli/common/constants.h:133-140 | The same for limits that direct codes reach. |
| BrotliLimit.CalculateDistanceCodeLimit | shared/thirdparty/brotli/common/constants.h:128-188 | The alphabet that is returned represents exactly distances up to the one returned, at most the requested one, and the next symbols would exceed it; beyond direct codes it is made of complete groups. |
| Arena.NewBlock | shared/ch_arena.h:66-73 | A new chunk overlaps no live one. |
| Arena.GivenGrows | shared/ch_arena.h:82-89 | The space behind the arena's pointer overlaps nothing that was given out before. |
| Arena.OffArena | shared/ch_arena.h:9-21 | No block given out overlaps the fields of the arena, which lie in its first chunk. |
| Arena.Arena.New | shared/ch_arena.h:28-47 | The arena starts in its own first chunk, with an aligned amount of free space. |
| Arena.Arena.Alloc | shared/ch_arena.h:60-90 | The block that is given out is aligned, within a live chunk, behind that chunk's header, and overlaps no other block nor the fields of the arena itself; chunks are only added, and without memory nothing changes. |
| Arena.Arena.Grow | shared/ch_arena.h:65-81 | A new chunk is linked in front and has room for the block. |
| Arena.Arena.FreeAll | shared/ch_arena.h:49-58 | Every chunk is freed exactly once and nothing else is. |
| Datamaps.ChildCount | chicago_parser_exe/src/ch_recv.c:232-244 | The number of maps visited from a map exceeds that from each map it refers to. |
| Datamaps.VisitClosed | chicago_parser_exe/src/ch_recv.c:232-244 | Visiting is closed under references. |
| Datamaps.VisitOrder | chicago_parser_exe/src/ch_recv.c:232-244 | A map is visited first, then what its base class leads to, then what its embedded classes lead to, in the order of the fields. |
| DatamapOrder.CmpZero | chicago_parser_exe/src/ch_recv.c:70-81 | Two names compare as equal exactly if they are equally long and the same up to the first NUL. |
| DatamapOrder.CmpBefore | chicago_parser_exe/src/ch_recv.c:70-81 | A name compares as smaller exactly if it is where the two first differ, or is shorter when they do not differ before a NUL or an end. |
| DatamapOrder.CmpTransitive | chicago_parser_exe/src/ch_recv.c:70-81 | The comparison of names is transitive, strictly if either part is strict. |
| DatamapOrder.CompareTransitive | chicago_parser_exe/src/ch_recv.c:364-375 | So is that of datamaps by module, count and name, as sorting needs. |
| DatamapOrder.CompareExactly | chicago_parser_exe/src/ch_recv.c:364-375 | A datamap comes first exactly if its module does, or the modules are equal and it leads to fewer maps, or to as many and its name comes first. |
| DatamapOrder.SortMaps | chicago_parser_exe/src/ch_recv.c:641 | Sorting gives a permutation in that order. |
| DatamapOrder.ChildBefore | chicago_parser_exe/src/ch_recv.c:364-375 | A map that another refers to comes before it exactly if its module does not sort after the other's. |
| DatamapOrder.SortedByDependency | chicago_parser_exe/src/ch_recv.c:636-641 | Sorting puts all dependencies first, as datamap_utils.py demands, exactly if no map refers to one of a later module. |
| DatamapOrder.OneModuleSuffices | chicago_parser_exe/src/ch_recv.c:636-641 | It does when nested maps are of their owner's module. |
| DatamapOrder.LaterModule | chicago_parser_exe/src/ch_recv.c:364-375 | A class of one module derived from one of a later module is written before its base. |
| ReceiverSpec.HashConcat | chicago_parser_exe/src/ch_recv.c:232-244 | Visiting stops at the first map that is not accepted. |
| ReceiverSpec.HashVerdict | chicago_parser_exe/src/ch_recv.c:284-313 | The maps of a visit are accepted exactly if each has the module and offset of the one stored under its name, or of the first of that name in the visit, and there is memory for each new name. Otherwise those before the first that fails are taken in, and the answer says which of the two it was. |
| ReceiverSpec.MessageAnswered | chicago_parser_exe/src/ch_recv.c:705-760 | For each kind of message, before and after HELLO: exactly when it is accepted, finishes the session, or is refused and how, and what the state is then. An accepted tree leaves the first map of each new name in the store, and nothing else new. |
| ReceiverSpec.StepGoesOn | chicago_parser_exe/src/ch_recv.c:763-812 | A session goes on after a message exactly if it is accepted and, in case it brings a new map or linked names, there is memory to keep it. |
| ReceiverSpec.RunTakesIn | chicago_parser_exe/src/ch_recv.c:284-313 | After any accepted run the store has the first map of each name that any message brought, and nothing else. |
| ReceiverSpec.CheckedPairs | chicago_parser_exe/src/ch_recv.c:316-352 | Linked names are accepted exactly if all are strings, no name is that of a stored datamap and every target is stored. Otherwise the first pair that is not so decides the error. |
| ReceiverSpec.TreeStored | chicago_parser_exe/src/ch_recv.c:284-313 | Accepting a tree stores all it leads to, changes no stored map, and every map of it agrees with what is stored under its name. |
| ReceiverSpec.StepSafe | chicago_parser_exe/src/ch_recv.c:705-760 | Each accepted message keeps the state safe; before HELLO only HELLO is accepted. |
| ReceiverSpec.RunSafe | chicago_parser_exe/src/ch_recv.c:705-812 | After any run of accepted messages: the first was HELLO, every base and embedded map of a stored tree is stored, every linked name's target is stored, and each name that was ever sent has one module and offset. |
| ReceiverSpec.LinksAreApart | chicago_parser_exe/src/ch_recv.c:316-352 | When linked names are accepted, none of them is that of a datamap that came before. |
| ReceiverSpec.DatamapAfterLinks | chicago_parser_exe/src/ch_recv.c:316-352 | One datamap keeps linked names apart exactly if neither it nor a map that it leads to has one of the names. |
| ReceiverSpec.LinksApartFrom | chicago_parser_exe/src/ch_recv.c:284-355 | From any safe state, an accepted run ends with linked names apart from datamaps exactly if they were at its start and no datamap brings the name of a link that was there before it. |
| ReceiverSpec.RunLinksApart | chicago_parser_exe/src/ch_recv.c:284-355 | After any accepted run, linked names are apart from all datamaps exactly if no datamap that came after them has, or leads to a map that has, one of the names. |
| ReceiverSpec.LinkedNameTaken | chicago_parser_exe/src/ch_recv.c:316-352 | A run in which a datamap is accepted under a name that was linked before. |
| ReceiverSpec.ListedOnce | chicago_parser_exe/src/ch_recv.c:628-634 | The list that is written has every stored map, and each name once. |
| Receiver.Receiver.HashTree | chicago_parser_exe/src/ch_recv.c:232-244 | The recursive visit with its callback accepts a tree exactly if each map has the module and offset of the one stored under its name, or of the first of that name, and there is memory for each new name; what is stored afterwards is stated for all outcomes. |
| Receiver.Receiver.VerifyLinkedNames | chicago_parser_exe/src/ch_recv.c:316-355 | Linked names are accepted exactly once, if there are any and each pair links a new name to a stored datamap; the old ones are kept otherwise. |
| Receiver.Receiver.WriteAllToFile | chicago_parser_exe/src/ch_recv.c:614-641 | Something is written exactly if there are datamaps and the file can be written, and then all of them in order. |
| Receiver.Receiver.ProcessMessage | chicago_parser_exe/src/ch_recv.c:705-760 | For each kind of message the answer and the new state are those stated: a datamap is accepted exactly if its tree agrees with what is stored and fits, linked names exactly if they come once and all are good, and GOODBYE finishes exactly if there is something to write and it can be written. Output appears only then. |
| Receiver.Receiver.Process | chicago_parser_exe/src/ch_recv.c:763-812 | The session goes on exactly after the messages stated, and as long as it does the state stays safe; output ends it. |
| Layout.SlotHoldsField | chicago_parser_exe/src/ch_recv.c:574-577 | The slot of a field that is not custom is at least as large as the field, and empty only if the field is. |
| Layout.SlotSizes | chicago_parser_exe/src/ch_recv.c:574-577 | A custom field takes one pointer, another one the least whole number of pointers that holds it; below the size of a pointer the sizes 0 to 7 take 0, 1, 2, 5, 4, 9, 10 and 9 bytes. |
| Layout.OffsetsRun | chicago_parser_exe/src/ch_recv.c:550-579 | The first field stands where the class starts, and each other one where the slot of the one before it ends. |
| Layout.ClassSizeIsLeast | chicago_parser_exe/src/ch_recv.c:583 | ch_size is the least whole number of pointers that takes all fields. |
| Layout.OffsetsOrdered | chicago_parser_exe/src/ch_recv.c:550-579 | The slots of one class follow each other without overlap, from where the class starts. |
| Layout.ChainSlotInside | chicago_parser_exe/src/ch_recv.c:550-583 | Along a chain of bases every slot lies behind the base's ch_size and inside the class's own. |
| Layout.ChainSlotsApart | chicago_parser_exe/src/ch_recv.c:550-583 | Along a chain of bases no two slots overlap. |
| Layout.ClassSizeGrows | chicago_parser_exe/src/ch_recv.c:550-583 | A ch_size is a whole number of pointers, and a class whose fields start later, by a pointer or more, is larger. |
| Layout.FieldsStartInside | chicago_compress_lib/src/ch_archive.c:139-140 | Every field starts before ch_size exactly if the last one is not empty at an aligned end. |
| Strings.Starts | chicago_parser_exe/src/ch_recv.c:426-445 | Interned strings lie apart, in order, each followed by a NUL. |
| Strings.SectionCString | chicago_parser_exe/src/ch_recv.c:527-531 | The C string at an interned string's offset is that string up to its first NUL. |
| Image.Sections | chicago_parser_exe/src/ch_recv.c:507-522 | Header, datamaps, type descriptions, strings and linked names fill the image exactly, each starting where the one before ends. |
| Image.SetDm | chicago_parse_lib/src/SDK/datamap.h:198-205 | Writing one word at its address in the image changes that member of that datamap and nothing else. |
| Image.SetTd | chicago_parse_lib/src/SDK/datamap.h:208-219 | The same for type descriptions. |
| Image.SetLnk | chicago_parse_lib/src/SDK/datamap.h:192-195 | The same for linked names. |
| Image.SetHead | chicago_parse_lib/src/SDK/datamap.h:180-190 | The same for the header. |
| Packing.SavedBit | chicago_parser_exe/src/ch_recv.c:491 | A field is saved exactly if its flags have FTYPEDESC_SAVE, whatever other flags it has. |
| Packing.SavedExactly | chicago_parser_exe/src/ch_recv.c:488-500 | What is saved of a class are exactly the fields with that flag, in their order. |
| Packing.InternedReady | chicago_parser_exe/src/ch_recv.c:481-505 | Every string that a datamap, a saved field or a linked name refers to is interned. |
| Packer.Interner.AddStrings | chicago_parser_exe/src/ch_recv.c:426-445 | The table has each string where it first occurred, at the sum of the sizes before it. |
| Packer.FillStrings | chicago_parser_exe/src/ch_recv.c:527-531 | Copying the strings in any order fills the section exactly. |
| Packer.SizeRead | chicago_parser_exe/src/ch_recv.c:552-554 | The size read for a base class is the one written, or zero if the base comes later. |
| Packer.FillFields | chicago_parser_exe/src/ch_recv.c:555-579 | The loop over the fields writes the descriptions of the saved ones at the offsets of the layout. |
| Packer.FillMaps | chicago_parser_exe/src/ch_recv.c:539-585 | The loop over the maps fills both tables exactly. |
| Packer.FillLinks | chicago_parser_exe/src/ch_recv.c:587-591 | The loop over the linked names fills the last section exactly. |
| Packer.Pack | chicago_parser_exe/src/ch_recv.c:458-612 | The buffer that is written is the image of the tables, byte for byte; what these mean is stated by `RoundTrip.SaveAndLoad`. |
| Loader.FixUp | chicago_compress_lib/src/ch_archive.c:88-102 | A word becomes NULL or a pointer, and the answer is whether the pointer is inside. |
| Loader.CheckEnds | chicago_compress_lib/src/ch_archive.c:122-123 | The last bytes of the datamaps and of the linked names are inside the image, so both checks pass. |
| Loader.FixDm | chicago_compress_lib/src/ch_archive.c:127-131 | The pointers of one datamap are fixed in place and nothing else changes, or one of them is out of range. |
| Loader.FixFields | chicago_compress_lib/src/ch_archive.c:134-141 | All type descriptions of a datamap are fixed exactly if their references are in range and their fields start inside the class. |
| Loader.FixMaps | chicago_compress_lib/src/ch_archive.c:125-142 | So are all datamaps, exactly if each has fields when it says so. |
| LoaderSpec.AcceptedIfSafe | chicago_compress_lib/src/ch_archive.c:104-151 | An image is accepted, wherever it is in memory, exactly if magic and version are right, it has datamaps and linked names, every pointer in it is null or into the image when it is fixed, a datamap has a list of fields exactly if it has fields, and each field starts inside of its class. |
| Loader.VerifyAndFixup | chicago_compress_lib/src/ch_archive.c:104-151 | An image is refused for its magic, its version or no datamaps, no linked names, or a reference or field that is out of range, and otherwise fixed in place completely. |
| Readback.AllReads | chicago_compress_lib/src/ch_archive.c:104-151 | What can be read through the pointers of a loaded image is what the offsets of the file meant. |
| RoundTrip.WriterExact | chicago_parser_exe/src/ch_recv.c:458-612 | All references that the writer makes are to entries and strings that are there. |
| RoundTrip.FieldsAccepted | chicago_compress_lib/src/ch_archive.c:134-141 | The loader accepts the fields of a written class exactly if its last saved field is not empty at an aligned end. |
| RoundTrip.WriterVerdict | chicago_compress_lib/src/ch_archive.c:104-151 | The loader accepts what the writer wrote exactly if there are datamaps and linked names and every class ends behind the start of its last field. |
| RoundTrip.SentCame | chicago_parser_exe/src/ch_recv.c:539-591 | Of what is written: the fields of each class are those with FTYPEDESC_SAVE, in order, with their names up to a NUL and their numbers modulo the width they have in the file; they fill the class, one slot behind the other, from the end of a base class that is written before it. |
| RoundTrip.SaveAndLoad | chicago_parser_exe/src/ch_recv.c:458-612 | Writing and loading, at any address, succeeds exactly if the collection is loadable, and gives back names, modules, base and embedded links, exactly the fields with FTYPEDESC_SAVE in order, each with its numbers and its place, the size of each class, and linked names with their targets. |
| RoundTrip.EmptyFieldRefused | chicago_compress_lib/src/ch_archive.c:139-140 | A linked class with one saved float of size zero can be written but is not loaded. |
| RoundTrip.WidthDecides | chicago_compress_lib/src/ch_archive.c:139-140 | A linked class with a float of four bytes and one of none can be loaded exactly if pointers have eight bytes. |
| Collection.ReceivedComplete | chicago_parser_exe/src/ch_recv.c:447-456 | For every state that accepts messages, each reference that the writer looks up is to something that is written. |
| Collection.ReceivedInOrder | chicago_parser_exe/src/ch_recv.c:636-641 | When equal names came with equal trees, the written order is one of dependencies exactly if no map refers to one of a later module. |
| Collection.PositiveSizesLoad | chicago_parser_exe/src/ch_recv.c:574-583 | Saved fields with room are enough for a class to be accepted. |
| Collection.LaidOutAsChain | chicago_parser_exe/src/ch_recv.c:550-583 | With every base written before the classes that have it, or empty, the offsets and size of every class in the file are those of its chain of bases. |
| Collection.LaidOutExactly | chicago_parser_exe/src/ch_recv.c:550-583 | All classes have the sizes of their chains exactly if every base is written before the classes that have it, or is empty. |
| Collection.TooSmall | chicago_parser_exe/src/ch_recv.c:550-554 | A class whose base is not empty and comes later ends before the end of its chain. |
| Collection.WrittenSlotsApart | chicago_parser_exe/src/ch_recv.c:550-583 | The slots of a written class start behind its base class, do not overlap and lie inside its ch_size. |
| Collection.CutWhole | chicago_parser_exe/src/ch_recv.c:530-531 | A name comes back whole exactly if it has no NUL. |
| Collection.CreateLookup | chicago_compress_lib/src/ch_archive.c:153-182 | Every name can be looked up; no entry replaces another exactly if all names differ, and then each leads to its own datamap or its target. |
| Collection.ReceivedLookup | chicago_compress_lib/src/ch_archive.c:166-179 | Of what was received, no entry replaces another exactly if linked names are apart from datamaps and from each other. |
| WrittenClass.DependenciesBefore | chicago_parser_exe/src/ch_recv.c:636-641 | In the order of dependencies, all that a datamap refers to is in the list before it. |
| WrittenClass.WrittenClassIsLaidOut | chicago_parser_exe/src/ch_recv.c:550-583 | The own fields of a loaded class, of any kind, are where the writer laid them out, behind the size of its base class. |
| WrittenClass.WrittenClassIsWhole | chicago_parser_exe/src/ch_recv.c:550-583 | Each class of a written chain starts where its base ends, ends at its ch_size, and has slots with room for its fields and for all that is embedded in them. |
| WrittenClass.WrittenObjectRestored | chicago_parse_lib/src/ch_field_reader.h:33-38 | An object of a written class is restored completely, if each string has room for its pointer and each embedded class fits its slot: each record of the class, of its bases and of what is embedded in them, at any depth, is in its place in the end, and nothing outside of the ch_size bytes has changed. |
| WrittenClass.WrittenOrderDoesNotMatter | chicago_parse_lib/src/ch_field_reader.h:33-38 | Two save files that hold the same of an object of such a class, with the records of each class along the chain of bases and of each embedded class in any order, both restore, and restore the same object. |
| ByteReader.OverflowIsSticky | chicago_parse_lib/src/ch_byte_reader.h:13-62 | A reader that overflowed yields nothing and stays overflowed, whatever is asked of it. |
| ByteReader.SplitDivides | chicago_parse_lib/src/ch_byte_reader.h:93-104 | A chunk and what follows it divide the window exactly if the chunk fits; otherwise what follows is overflowed. |
| ByteReader.ByteReader.Read | chicago_parse_lib/src/ch_byte_reader.h:52-62 | Bytes are copied and skipped if they are there, and the reader overflows otherwise. |
| ByteReader.ByteReader.SplitSkipSwap | chicago_parse_lib/src/ch_byte_reader.h:93-104 | The reader keeps the chunk, and the result is the reader behind it, with the enclosing end. |
| SymbolTable.ReadSymbolTable | chicago_parse_lib/src/ch_field_reader.c:8-25 | A table is read exactly if its strings end within the window; each entry leads to its string, or is not set for an empty one, and the reader is behind the last one. |
| SymbolTable.TableOfSymbols | chicago_parse_lib/src/ch_field_reader.c:8-25 | Symbols stored one behind the other are found at their places, except that the entry of an empty one is not set. |
| SymbolTable.SymbolsOfTable | chicago_parse_lib/src/ch_field_reader.c:8-35 | What the entries lead to in a file that begins with the symbols are the symbols. |
| Restorer.Restorer.ReadSymbol | chicago_parse_lib/src/ch_field_reader.c:27-35 | Reading a symbol moves the reader and reports what the specification says. |
| Restorer.Restorer.StartRecord | chicago_parse_lib/src/ch_field_reader.c:37-48 | Starting a record leaves the reader in its bytes, with the same errors. |
| Restorer.Restorer.FindField | chicago_parse_lib/src/ch_field_reader.c:167-180 | The circular search finds what the specification finds, from the same cookie and with the same number of tests. |
| Restorer.Restorer.RestoreSimple | chicago_parse_lib/src/ch_field_reader.c:79-136 | Restoring a simple field writes the same memory and reads the same bytes. |
| Restorer.Restorer.RestoreField | chicago_parse_lib/src/ch_field_reader.c:182-208 | So does restoring any field, with any custom handler, however far it reads. |
| Restorer.Restorer.RestoreRecursive | chicago_parse_lib/src/ch_field_reader.h:33-38 | So does restoring a class after its bases. |
| Restorer.Restorer.RestoreFields | chicago_parse_lib/src/ch_field_reader.c:138-215 | So does restoring the fields of one class, in the mutual recursion. |
| FieldFrames.RecordRest | chicago_parse_lib/src/ch_field_reader.c:37-56 | A started record leaves the reader at its start + 4 + size, with the enclosing end, exactly if it fits its window. |
| FieldFrames.OversizedRecord | chicago_parse_lib/src/ch_field_reader.c:37-48 | A record of four bytes in a window with one byte left is started without an error, and what follows it is overflowed. |
| FieldFrames.RecordsFramed | chicago_parse_lib/src/ch_field_reader.c:163-212 | However little handlers read, n restored records consume the sum of their encoded sizes, exactly if they fit. |
| FieldFrames.FieldsFramed | chicago_parse_lib/src/ch_field_reader.c:138-215 | So does the block of one class with its header. |
| FieldFrames.ClassFramed | chicago_parse_lib/src/ch_field_reader.h:33-38 | So do a class and its bases, at any depth of embedding. |
| FieldFrames.AgreeFields | chicago_parse_lib/src/ch_field_reader.c:138-215 | What is restored depends on no byte outside the window. |
| FieldAnswers.StartAnswered | chicago_parse_lib/src/ch_field_reader.c:27-48 | A record is started exactly if its four bytes are there, with a size below 32768 and the index of a symbol; otherwise the error is that of the first that fails. A record that is larger than what is left gets what is left. |
| FieldAnswers.SimpleAnswered | chicago_parse_lib/src/ch_field_reader.c:79-136 | A string-like field takes any bytes, one of another readable type takes as many as it is large, if it is not empty and they are there; a refused record changes nothing. |
| FieldAnswers.RecordAnswered | chicago_parse_lib/src/ch_field_reader.c:163-212 | Records stop at the first that cannot be started, is for no field of the class, or is refused by its field, and the answer is that of this record. |
| FieldAnswers.HeaderAnswered | chicago_parse_lib/src/ch_field_reader.c:138-162 | A class is refused before its records exactly if the marker is not 4 or the name is not the expected one; a number of records that is negative, or is not there, is none. |
| FieldSearch.SearchAgainstScan | chicago_parse_lib/src/ch_field_reader.c:158-180 | The search fails exactly if a plain scan does, after testing every field once; it finds the same field exactly if matches are not on both sides of the cookie. |
| FieldSearch.SearchOfUnique | chicago_parse_lib/src/ch_field_reader.c:158-180 | With names unique but for case it finds what the scan finds, wherever the cookie is. |
| FieldSearch.InOrderCost | chicago_parse_lib/src/ch_field_reader.c:158-180 | Records in datamap order, even with gaps, take one comparison for each field up to the last one found. |
| FieldOrder.StartEncoded | chicago_parse_lib/src/ch_field_reader.c:37-48 | Starting an encoded record gives back its symbol and exactly its bytes. |
| FieldOrder.StringTexts | chicago_parse_lib/src/ch_field_reader.c:58-110 | The pointers that a string-like field gets are to the strings that the bytes begin with, in order, each up to its NUL, as many as there are or as the field has elements. |
| FieldOrder.FieldWritten | chicago_parse_lib/src/ch_field_reader.c:79-136 | Restoring a field from enough bytes succeeds and writes its cells at its offset. |
| FieldOrder.CellsFitSlot | chicago_parser_exe/src/ch_recv.c:574-577 | With room for a pointer for each string, no record of a field reaches beyond the slot that the writer laid out. |
| FieldOrder.CellsReach | chicago_parse_lib/src/ch_field_reader.c:79-136 | A record writes at most as many bytes as its field can reach: a pointer for each element, or the size of the field, as far as a record can be large. |
| FieldOrder.OverlapOfLaidOut | chicago_parser_exe/src/ch_recv.c:574-577 | In a class that was laid out a field overlaps a later one exactly if it is string-like, reaches to where that one starts, and that one can be written at all. |
| FieldOrder.RoomSuffices | chicago_parser_exe/src/ch_recv.c:574-577 | With room for a pointer for each string no two fields overlap. |
| FieldOrder.RecordsApplied | chicago_parse_lib/src/ch_field_reader.c:163-212 | Restoring encoded records succeeds, consumes them exactly, and writes one field after the other. |
| FieldOrder.RecordsCommute | chicago_parse_lib/src/ch_field_reader.c:163-212 | Records for different fields can change places when no two fields overlap. |
| FieldOrder.PermutedApplied | chicago_parse_lib/src/ch_field_reader.c:163-212 | All orders of the same records write the same memory. |
| FieldOrder.OrderDoesNotMatter | chicago_parse_lib/src/ch_field_reader.c:163-212 | When no two fields overlap, two runs of records with the same valid records in any two orders both restore, and restore the same object. |
| OrderMatters.OverlapMatters | chicago_parse_lib/src/ch_field_reader.c:163-212 | Where two fields overlap, there are two records, one for each, that restore different objects in the two orders. |
| OrderMatters.OrderMattersExactly | chicago_parse_lib/src/ch_field_reader.c:163-212 | For uniquely named simple fields, wherever they are, the order of records never matters exactly if no two fields reach the same byte. |
| OrderMatters.StringsWithoutRoom | chicago_parse_lib/src/ch_field_reader.c:79-110 | A written class of two strings with room for one and a float is restored differently in two orders. |
| ClassOrder.BlockApplied | chicago_parse_lib/src/ch_field_reader.c:138-215 | The encoded block of a class, its header and its records, is restored completely and consumed exactly. |
| ClassOrder.PermutedBlock | chicago_parse_lib/src/ch_field_reader.c:138-215 | Two blocks with the same records in any two orders write the same memory. |
| ClassOrder.ClassOrderDoesNotMatter | chicago_parse_lib/src/ch_field_reader.h:33-38 | So do two save files for a class with its bases, whatever the order within each class, and both are consumed exactly. |
| ClassOrder.HeaderRead | chicago_parse_lib/src/ch_field_reader.c:138-162 | A header with the marker, a name that is the same but for case and a number is read, and as many records follow. |
| ObjectSlots.ElementsFitSlot | chicago_parser_exe/src/ch_recv.c:574-577 | The slot of an embedded field has room for all of its elements exactly if there is at most one, or they are empty. |
| ObjectSlots.SlotsApart | chicago_parser_exe/src/ch_recv.c:574-577 | The slots of two fields of a laid-out class, of any kind, do not overlap. |
| ObjectSlots.BodyFrame | chicago_parse_lib/src/ch_field_reader.c:182-208 | What a record left depends on nothing but the slot of its field, at any depth of embedding. |
| ObjectSlots.EmbeddedRestored | chicago_parse_lib/src/ch_field_reader.c:197-201 | Element j of an embedded field is restored at ch_offset + total_size_bytes * j, each of its records at the offset of its own field behind that, and nothing outside of the elements changes, if the embedded class is not larger than total_size_bytes. |
| ObjectSlots.HandlerAnswered | chicago_parse_lib/src/ch_field_reader.c:184-196 | A custom handler that makes an object leaves a pointer to it at ch_offset and changes nothing else; one that fails changes nothing, and without a handler the record is skipped. |
| ObjectSlots.ElementsRestored | chicago_parse_lib/src/ch_field_reader.c:197-201 | The elements of an embedded field, one behind the other, are all in their places in the end. |
| ObjectSlots.BodyRestored | chicago_parse_lib/src/ch_field_reader.c:182-208 | A record for a field of any kind is restored in the slot of its field, and nothing outside of the slot changes. |
| ObjectSlots.ItemsRestored | chicago_parse_lib/src/ch_field_reader.c:163-212 | So are all records of a class, in any order, and nothing changes outside of their slots. |
| ObjectSlots.PartRestored | chicago_parse_lib/src/ch_field_reader.c:138-215 | So is the block of a class with its header; it is consumed exactly and changes nothing before the end of the bases nor behind the end of the class. |
| ObjectSlots.PartsRestored | chicago_parse_lib/src/ch_field_reader.h:33-38 | An object is restored completely: every record of every class of the chain, and of whatever is embedded in it at any depth, is in its place in the end, all bytes are consumed, and nothing outside of the object has changed. |
| ObjectOrder.ItemsOnly | chicago_parse_lib/src/ch_field_reader.c:163-212 | No record writes any byte but those of the cells that it brings, wherever it stands among the others. |
| ObjectOrder.PartsOnly | chicago_parse_lib/src/ch_field_reader.h:33-38 | Nor does a class with its bases and all that is embedded in it. |
| ObjectOrder.PartsAgree | chicago_parse_lib/src/ch_field_reader.h:33-38 | Where two objects that hold the same, but for the order of records at any depth, are kept, they agree in every byte that is written. |
| ObjectOrder.ObjectOrderDoesNotMatter | chicago_parse_lib/src/ch_field_reader.h:33-38 | Two save files that hold the same of an object, with embedded and custom fields, bases and records in any order at any depth, are both restored, and to the same object. |

## Left out

- HashMap.HashMap.SetWithHash: asks for fewer than 65535 items, where the 16-bit distance of the source could first wrap; likewise `Resize`, `Rehash`, `Reinsert`, `Insert` and `Shrink`.
- HashMap.HashMap.constructor: the load factor is an integer percentage instead of a double, and NaN is not modelled; there is memory for the map.
- HashMap: `hashmap_scan`, `hashmap_probe`, the element-freeing callback, seeds, and the bytes of `spare` and `edata`, which hold copies here; two 64-bit hashes are one as far as their low 48 bits go.
- HashMap.HashMap.Clear: whether the smaller array could be had is a parameter; the arrays that the source frees are left to Dafny.
- Huffman.CalculateMinimumRedundancy: minimum redundancy is stated for positive weights in order whose sum fits the 16-bit keys, as its caller passes them; sums that wrap only keep the Kraft sum.
- HuffmanTable.OptimizeHuffmanTable: asks that counts add up to less than 65536, which the size of the LZ buffer guarantees, and that no more symbols occur than codes of the limit exist, without which the repair loop has nothing to end with (`HuffmanLimit.LimitIsNecessary`); entries behind the table length are not modelled. How much longer than the shortest a text becomes by repair is not bounded.
- ZipIndex.LocateFile: comments, the flags for case and paths, names of 65536 bytes and more, and reading the directory itself; names are byte strings.
- Adler32.MzAdler32: the bytes are a sequence, not a pointer that moves.
- BrotliLimit.CalculateDistanceCodeLimit: limits so large that the 32-bit sums of the source would wrap.
- Arena.Arena.Alloc: sizes near the end of the address space, the debug counters, and `ch_arena_calloc`, which only clears what it got; where a new chunk lies is up to the modelled heap.
- Receiver.Receiver.Process: unpacking of msgpack and the checks of its schema, which decide between a tree and `Malformed`; log messages; a datamap sent as linked names is refused without saying with which of the two errors.
- Receiver.Receiver.WriteAllToFile: the msgpack output format, and what is left of a file when writing fails; no memory for the list is one case of not being able to write.
- ReceiverSpec.HashOne: datamaps are found by equal names. The source compares 48 bits of a hash and then up to the first NUL, so that two names that differ behind a NUL and have the same hash bits would count as one.
- DatamapOrder.SortMaps: `qsort` is an insertion sort; any sort gives an ordered permutation. The count of visited maps does not wrap at 32 bits. The comment in ch_recv.c says that maps are sorted by count and then name; the code sorts by module first, and the model follows the code.
- Packer.Pack: sums of sizes and offsets that no `size_t` can hold, though each number that is sent is cut to one; asks that every reference is to a map in the list, which the source asserts and `Collection.ReceivedComplete` proves for all that is received; memory that cannot be had is not modelled. A struct is put into the buffer in one piece where the source assigns its members, and the members of ch_type_description in front of its first pointer are one cell. Writer and loader have the same width.
- Loader.VerifyAndFixup: images whose header or whose fields offsets are not the ones of their sections, files shorter than a header, and pointers that wrap. Magic, version and all other references may be anything.
- Image: words are cells, not bytes in the machine's order; `ch_datamap_collection` is the one NULL word behind the header.
- Collection.CreateLookup: the classes are names instead of pointers, and running out of memory is not modelled.
- SymbolTable.ReadSymbolTable: what memory holds in the entry of an empty symbol, and the byte behind the window that the source looks at before it overflows.
- Restorer.Restorer.RestoreSimple: the arena of the strings; a string that does not end in its window is cut there, where the source leaves one byte of it unset.
- Restorer.Restorer.RestoreField: custom handlers are functions of the bytes left in their window; they read as far as they like, and make an object or fail, but do not write elsewhere.
- OrderMatters.OrderMattersExactly: embedded and custom fields; for these, order is only proved not to matter (`ObjectOrder.ObjectOrderDoesNotMatter`) where each has room in its slot.
- WrittenClass.ClassOf: the functions of `ch_reg.c` that register handlers are one function from the operations of the game to handlers.
- ByteReader: pointers that wrap around.
- Finding and loading files, decompression by Brotli, `ch_reg.c`, injection into the game, signature scanning, the entity factory walk, dumping as text and the Python scripts.
- CRC tables, full DEFLATE compression and decompression, and the word transforms of Brotli.
