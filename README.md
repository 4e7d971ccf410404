# 2-3 tree, hash tables and byte arena of a song catalogue

This project models in Dafny the data structures at the core of a Java song
catalogue.

- **The byte arena (`DynamicByteArray`).** Artist and song names are stored as
  records in one growing byte array. Each record is a flag byte (1 live,
  0 deleted), a 16-bit little-endian length, then the name's bytes.
- **Handles (`Handle`).** A handle points at a record's payload by offset and
  length.
- **Hash tables (`HashTable`).** Two open-addressing tables, one for artists
  and one for songs, index the handles. They use quadratic probing, and a
  shared gravestone marks a deleted slot.
- **The tree (`TTNode`, `TTTree`).** A 2-3 tree keeps key/value pairs, which
  are ordered by key and then by value.

The model follows the code file by file.

- `kvpair.dfy`: `KVPair` is a class with mutable key and value fields. Its
  ordering is lexicographic.
- `handle.dfy`: a `Handle` is a value. It holds the buffer contents it reads,
  its start and its length. `getStringAt` is Java's `Arrays.copyOfRange`,
  which pads with zeros past the end.
- `byte_layout.dfy`: a list of ghost records has a layout. It says what the
  arena's bytes mean and which payloads `toString` lists.
- `hash_table.dfy`: `HashTable` is a class over an `array<Slot>`. Its probe,
  hash and expansion loops are methods proved against functions on the
  slots.
- `dynamic_byte_array.dfy`: `DynamicByteArray` is a class over an
  `array<Byte>` with a write cursor.
  - The invariant `Laid()`: the bytes before the cursor are the layout of
    the ghost records, and every byte after it is zero.
  - `expandMemory`'s copy loop is a method. Its invariant ties the new
    buffer to the live records copied so far, and each table update to a
    function of the records.
  - The invariant `Indexed()`: every handle in either table starts at the
    payload of a record and reads that payload. Insert and delete keep it.
    expandMemory keeps it when its updates reach every handle.
- `tt_node.dfy`: the tree node as written, on values. Every in-place update
  of a node is a function from the old node to the new one.
- `tt_insert.dfy` and `tt_remove.dfy`: the corrected insertion and removal.
  They are proved to keep the tree balanced and to insert or remove exactly
  the right pair. The proofs compare each tree's in-order sequence with the
  reference operations in `tt_order.dfy`.
- `tt_shape.dfy`: the shape and order facts the proofs rest on.
- `tt_findings.dfy`: inputs on which the code as written loses pairs.
- `tt_agree.dfy`: where the code as written does what the corrected
  functions do. `add` agrees exactly when the child it keeps is the split's
  left half. `removeHelper` agrees unless the key is the right key of an
  internal node.
- `tt_tree.dfy`: `TTTree` is a class whose `root` field the methods replace.

Keys and values of the tree are `int`. Bytes are a `Byte` type on 0..255.

## Model

| member | source | states |
|---|---|---|
| KVPairs.KVPair.constructor | src/KVPair.java:34-37 | the new pair holds the given key and value |
| KVPairs.KVPair.GetKey | src/KVPair.java:43-45 | returns the stored key |
| KVPairs.KVPair.GetValue | src/KVPair.java:51-53 | returns the stored value |
| KVPairs.KVPair.SetKey | src/KVPair.java:59-61 | the key becomes the argument and the value is unchanged |
| KVPairs.KVPair.SetValue | src/KVPair.java:67-69 | the value becomes the argument and the key is unchanged |
| KVPairs.Lexicographic | src/KVPair.java:72-81 | zero exactly when both comparisons are zero; otherwise the sign of the key comparison, or the value comparison's sign when the keys tie |
| KVPairs.KVPair.CompareTo | src/KVPair.java:72-81 | orders by key, and by value only on equal keys; zero iff key and value both compare equal |
| KVPairs.CompareToAntisymmetric | src/KVPair.java:72-81 | swapping the two pairs flips the sign of compareTo when both component orders are antisymmetric |
| KVPairs.LexicographicAntisymmetric | src/KVPair.java:72-81 | the lexicographic combination of two antisymmetric comparisons is antisymmetric |
| Handles.CopyOfRange | src/Handle.java:30-33 | defined exactly when 0 <= from <= length and from <= to; the result has to - from bytes, copied from the array and zero past its end |
| Handles.GetStringAt | src/Handle.java:30-33 | defined exactly when the start lies in the buffer and the length is not negative; the payload has exactly `length` bytes |
| Handles.GetStringAtInRange | src/Handle.java:30-33 | a handle inside its buffer reads exactly the slice it points at |
| Handles.CompareStringsZeroIff | src/Handle.java:36-41 | the byte-string comparison is zero exactly on equal strings |
| Handles.CompareStringsAntisymmetric | src/Handle.java:36-41 | swapping the strings negates the comparison |
| Handles.CompareStringsTransitive | src/Handle.java:36-41 | a < b and b < c give a < c |
| Handles.CompareTo | src/Handle.java:36-41 | the comparison exists exactly when both payloads can be read |
| Handles.CompareToZeroIff | src/Handle.java:36-41 | two handles compare equal exactly when their payloads are equal |
| Handles.CompareToAntisymmetric | src/Handle.java:36-41 | swapping the handles negates the result |
| Handles.EqualsEquivalence | src/Handle.java:44-60 | equals (same start and length) is reflexive, symmetric and transitive |
| Handles.EqualsSameString | src/Handle.java:44-60 | equal handles into the same buffer read the same payload |
| ByteLayouts.LengthRoundTrip | src/DynamicByteArray.java:100-102 | the two little-endian length bytes decode back to the length, and they are the only bytes that do |
| ByteLayouts.Encode | src/DynamicByteArray.java:99-105 | a record takes three bytes more than its payload |
| ByteLayouts.DecodeAt | src/DynamicByteArray.java:156-171 | reading record n where it starts: the flag is nonzero iff the record is live, the length bytes decode to the payload length, and the next bytes are the payload |
| ByteLayouts.Append | src/DynamicByteArray.java:99-117 | writing a record after the others extends the layout by its encoding and the listed payloads by its payload |
| ByteLayouts.DeleteLayout | src/DynamicByteArray.java:136-137 | clearing a record's flag byte in the layout is the layout of the records with that one marked deleted |
| ByteLayouts.DeleteIdempotent | src/DynamicByteArray.java:136-137 | deleting a record twice is deleting it once, and the record is no longer live |
| ByteLayouts.DeletePayloads | src/DynamicByteArray.java:133-149 | after a delete, the listed payloads are the old ones without exactly that record's payload |
| ByteLayouts.LiveRecordsShort | src/DynamicByteArray.java:196-238 | the live records alone never take more room than all records |
| ByteLayouts.LiveRecordsIdempotent | src/DynamicByteArray.java:196-238 | compacting twice keeps what compacting once keeps, and compacting keeps the listed payloads |
| ByteLayouts.PayloadsAppend | src/DynamicByteArray.java:151-175 | the payloads listed for two runs of records are those of the first followed by those of the second |
| HashTables.Home | src/HashTable.java:38-62 | the home slot lies inside the table |
| HashTables.ProbeAt | src/HashTable.java:69 | the i-th probe lies inside the table |
| HashTables.ProbeFitsInt | src/HashTable.java:68-69 | for a table of at most 46340 slots, homePos + i*i never overflows a Java int |
| HashTables.ProbeSpec | src/HashTable.java:64-76 | the probe is -1 exactly when every probed slot is occupied, and otherwise names an empty slot |
| HashTables.LiveUpdate | src/HashTable.java:27 | overwriting one slot changes the table's handles by exactly that slot's old and new handle |
| HashTables.DeletedLive | src/DynamicByteArray.java:139-148 | deleting from a table only takes handles out |
| HashTables.RehashFromSpec | src/HashTable.java:80-85 | re-inserting slots i.. keeps every handle of the accumulator and adds every live handle of those slots, leaving no gravestone |
| HashTables.RehashSpec | src/HashTable.java:78-88 | a successful rehash has the new size, no gravestones, and exactly the live handles of the old table |
| HashTables.InsertThenSearch | src/HashTable.java:19-30 | after a handle is placed where the probe puts it, a search for its payload finds a handle with that payload |
| HashTables.HashTable.constructor | src/HashTable.java:12-17 | the table keeps the byte array it is given and has the given number of slots, all empty, with no handles; a size of 0 gives a table without slots |
| HashTables.HashTable.HashHelper | src/HashTable.java:38-62 | the nested loops compute the sum of the 4-byte groups of the payload modulo the table length |
| HashTables.HashTable.QuadraticProbe | src/HashTable.java:64-76 | the loop returns the first empty slot of the probe sequence, or -1 |
| HashTables.HashTable.Hash | src/HashTable.java:33-36 | the probe from the home slot of the handle's payload |
| HashTables.HashTable.ExpandTable | src/HashTable.java:78-88 | the table doubles, its slots are the rehash of the old ones, gravestones are dropped and the live handles are the same |
| HashTables.HashTable.Insert | src/HashTable.java:19-30 | the table is expanded first when it is half full; insert succeeds exactly when the probe finds an empty slot; then the handle is in that slot, is added to the live handles, and the count rises by one; on failure nothing else changes |
| HashTables.HashTable.PutAt | src/HashTable.java:27-28 | the handle fills the empty slot, joins the live handles, and the count rises by one |
| HashTables.HashTable.ScanTable | src/DynamicByteArray.java:219-220 | the loop finds the first match along the probe sequence, stopping at an empty slot |
| HashTables.HashTable.Search | src/DynamicByteArray.java:75-82 | finds a handle exactly when the lookup reaches a slot whose payload is the name; that handle is in the table and reads the name |
| HashTables.HashTable.Delete | src/DynamicByteArray.java:139-148 | the slot of a handle equal to the argument becomes a gravestone, the handle leaves the live handles and the count drops by one; when there is none nothing changes |
| HashTables.HashTable.SetHandle | src/DynamicByteArray.java:222-230 | one slot's handle is replaced and the live handles change by exactly that swap |
| DynamicByteArrays.Relocate | src/DynamicByteArray.java:219-231 | the update replaces exactly one handle reading the payload by the moved handle: a song handle that sat at the old position, or else an artist handle; it fails only when no artist handle reads the payload |
| DynamicByteArrays.RelocateFrom | src/DynamicByteArray.java:196-234 | the handle updates for all remaining live records, in storage order, keep both tables' sizes |
| DynamicByteArrays.RelocateFromSpec | src/DynamicByteArray.java:196-234 | after the updates every slot is unchanged or held a handle and now holds the moved handle of a live record, reading what the old handle read |
| DynamicByteArrays.MovedReads | src/DynamicByteArray.java:211-230 | the handle moved for a live record starts where that record's payload starts among the live records, and reads that payload |
| DynamicByteArrays.RelocationPoints | src/DynamicByteArray.java:186-239 | after expandMemory's updates each slot is unchanged, or reads what it read before from where a live record's payload starts in the new buffer |
| DynamicByteArrays.ReachedPoints | src/DynamicByteArray.java:186-239 | when the updates reach every slot holding a handle, every handle of both tables points at a live record's payload in the new buffer and reads it |
| DynamicByteArrays.StartIncreasing | src/DynamicByteArray.java:99-117 | records written one after another start further on the later they come, so a payload position names one record |
| DynamicByteArrays.AllPointDelete | src/DynamicByteArray.java:133-149 | marking a record deleted and taking handles out of a table keeps every remaining handle pointing at its record |
| DynamicByteArrays.AllPointAppend | src/DynamicByteArray.java:90-120 | appending a record and adding a handle to it keeps every handle pointing at its record |
| DynamicByteArrays.DecodeIn | src/DynamicByteArray.java:199-210 | in the arena, record n reads back as its flag, its length and its payload |
| DynamicByteArrays.WalkStep | src/DynamicByteArray.java:156-171 | one step of the toString walk moves to the next record, or past the cursor over zero bytes, and adds exactly the live payload it reads |
| DynamicByteArrays.CompactedLive | src/DynamicByteArray.java:214-215 | copying a live record appends its encoding to the compacted prefix |
| DynamicByteArrays.CopiedLaid | src/DynamicByteArray.java:237-238 | the new buffer holds the layout of the live records followed by zeros |
| DynamicByteArrays.CopyIteration | src/DynamicByteArray.java:196-215 | one iteration of the copy loop: a live record's bytes land right after the compacted prefix; a deleted record is skipped and the new buffer is unchanged |
| DynamicByteArrays.DeleteIn | src/DynamicByteArray.java:136-137 | zeroing the byte three before a payload yields the layout of the records with that record deleted |
| DynamicByteArrays.WriteRecord | src/DynamicByteArray.java:99-105 | writing a record at the cursor keeps the arena invariant for the records with it appended |
| DynamicByteArrays.CopyBytes | src/DynamicByteArray.java:214-215 | System.arraycopy: the destination range holds the source range and the rest of the destination is unchanged |
| DynamicByteArrays.WriteAt | src/DynamicByteArray.java:99-105 | the flag, the two length bytes and the name are written at the position, and nothing else changes |
| DynamicByteArrays.CopyOut | src/DynamicByteArray.java:205-215 | copying one live record extends the new buffer's compacted prefix by that record |
| DynamicByteArrays.DynamicByteArray.constructor | src/DynamicByteArray.java:43-50 | an empty arena of the initial size whose growth step is the initial size, holding the two given tables |
| DynamicByteArrays.DynamicByteArray.TableHandle | src/DynamicByteArray.java:133-149 | a handle found in either table of an indexed arena starts at a record's payload and reads it, which is what delete needs |
| DynamicByteArrays.DynamicByteArray.ToString | src/DynamicByteArray.java:151-175 | the loop lists exactly the payloads of the live records, in storage order |
| DynamicByteArrays.DynamicByteArray.ClearFlag | src/DynamicByteArray.java:136-137 | the flag byte of the record is zeroed and that record is marked deleted |
| DynamicByteArrays.DynamicByteArray.Delete | src/DynamicByteArray.java:133-149 | the record is marked deleted in memory, and the handle is deleted from the artist or the song table only; every table handle still points at its record |
| DynamicByteArrays.DynamicByteArray.Unindex | src/DynamicByteArray.java:139-148 | the handle is deleted from the artist or the song table and the other table is untouched |
| DynamicByteArrays.DynamicByteArray.DeletedIndexed | src/DynamicByteArray.java:133-149 | after delete, with the record marked deleted and the handle out of its table, every table handle still points at its record |
| DynamicByteArrays.DynamicByteArray.MoveHandle | src/DynamicByteArray.java:219-231 | the song handle at the old position, or else the artist handle with that payload, now points at the new copy |
| DynamicByteArrays.DynamicByteArray.MoveRecord | src/DynamicByteArray.java:217-231 | the handle update for one live record is the first step of the updates still to do |
| DynamicByteArrays.DynamicByteArray.CopyRecord | src/DynamicByteArray.java:196-234 | one loop iteration advances to the next record and keeps the copy invariant and the handle updates still to do |
| DynamicByteArrays.DynamicByteArray.CopyLiveRecord | src/DynamicByteArray.java:205-234 | a live record is copied right after the compacted prefix and its handle is moved |
| DynamicByteArrays.DynamicByteArray.SkipRecord | src/DynamicByteArray.java:196-205 | a deleted record, or zero bytes past the cursor, are skipped by the length their bytes hold, without copying or moving a handle |
| DynamicByteArrays.DynamicByteArray.CopyLive | src/DynamicByteArray.java:186-236 | the new buffer is larger by one block and holds the live records packed from the start; every handle update is the one the records call for |
| DynamicByteArrays.DynamicByteArray.ExpandMemory | src/DynamicByteArray.java:186-239 | memory grows by one block, only the live records are kept, the cursor follows the last of them, and the handles are relocated; each slot is unchanged or reads what it read from where a live record's payload now starts, and when the updates reach every handle, every table handle points at its record |
| DynamicByteArrays.DynamicByteArray.Expand | src/DynamicByteArray.java:186-238 | the copy and the swap of expandMemory: the new buffer is one block longer, holds only the live records packed from the start, and the tables are the relocation the records call for |
| DynamicByteArrays.DynamicByteArray.Install | src/DynamicByteArray.java:237-238 | the new buffer and cursor replace the old ones, and the arena holds exactly the live records |
| DynamicByteArrays.DynamicByteArray.Relocated | src/DynamicByteArray.java:217-231 | after the relocation every slot is unchanged or moved to where its record now starts, and when the updates reach every handle the arena is indexed |
| DynamicByteArrays.DynamicByteArray.MakeRoom | src/DynamicByteArray.java:93-97 | memory is expanded exactly when the record would reach its end, after which the record fits; every table handle still points at its record (after an expansion, when its updates reach every handle) |
| DynamicByteArrays.DynamicByteArray.PutRecord | src/DynamicByteArray.java:98-108 | the record is appended at the cursor, the cursor moves past it, and the new handle reads the name |
| DynamicByteArrays.DynamicByteArray.Index | src/DynamicByteArray.java:109-114 | the handle is inserted into the chosen table only; that table gains the handle or is unchanged |
| DynamicByteArrays.DynamicByteArray.Place | src/DynamicByteArray.java:98-117 | the record is written, the handle reads the name, and the chosen table's live handles gain at most that handle; every table handle still points at its record (after an expansion, when its updates reach every handle) |
| DynamicByteArrays.DynamicByteArray.Add | src/DynamicByteArray.java:90-120 | the possible expansion, then the write: the records are those kept plus the new live record, and the handle reads the name; every table handle still points at its record (after an expansion, when its updates reach every handle) |
| DynamicByteArrays.DynamicByteArray.Insert | src/DynamicByteArray.java:69-121 | a name already in its table returns the stored handle and changes nothing; otherwise the name is appended as a live record, and its handle reads the name; every table handle still points at its record (after an expansion, when its updates reach every handle) |
| TTNodes.CompareInt | src/TTNode.java:269 | Integer.compareTo: negative, zero or positive as a is below, equal to or above b |
| TTNodes.CompareKVPair | src/TTNode.java:921-928 | below exactly when the key is smaller, or equal with a smaller value; zero exactly when both are equal |
| TTNodes.IsLeaf | src/TTNode.java:79-81 | a well-shaped node is a leaf exactly when it has no center child, and then it has no right child |
| TTNodes.Height | src/TTNode.java:362-375 | the height is at least 1 and at most the longest path; on a balanced tree it is the number of levels (HeightBalanced) |
| TTNodes.Add | src/TTNode.java:467-534 | the node handed back has a left key; a split hands back a one-key node and otherwise the node itself (balance: AddShape; where it agrees with the corrected add: TTAgreement.AddAgrees) |
| TTNodes.InsertHelp | src/TTNode.java:214-251 | the node handed back has a left key; a split hands back a one-key node and otherwise the node itself (balance: InsertHelpShape) |
| TTNodes.TreeInsert | src/TTTree.java:10-20 | the root is never empty after an insert |
| TTNodes.RemoveHelper | src/TTNode.java:264-353 | the node handed back exists (where it agrees with the corrected removal: TTAgreement.RemoveAgrees) |
| TTNodes.RotateCounterClockwise | src/TTNode.java:780-811 | the result is a node; rotating about the center leaves the right pair and right child, and rotating about the right leaves the left pair and left child (contents: RotateCounterClockwise*InOrder) |
| TTNodes.RotateClockwise | src/TTNode.java:840-877 | the result is a node; rotating about the center leaves the left pair and left child, and rotating about the left leaves the right pair and right child (contents: RotateClockwise*InOrder) |
| TTNodes.BalanceSiblingWithTwoKeys | src/TTNode.java:600-661 | the result is a node (balance and contents: RebalanceLeftEmpty, RebalanceCenterEmpty, RebalanceRightEmpty) |
| TTNodes.BalanceTwoSingletonSiblings | src/TTNode.java:673-709 | the result is a node (balance and contents: the Rebalance lemmas) |
| TTNodes.BalanceOneSingletonSibling | src/TTNode.java:720-751 | the result is a node (contents: MergeCenterIntoLeftInOrder, MergeLeftIntoCenterInOrder) |
| TTNodes.RebalanceChildren | src/TTNode.java:536-589 | the result is a node (balance and contents: RebalanceCorrect) |
| TTNodes.RangeSearchHelper | src/TTNode.java:377-427 | the search only appends to the list it is given (what it appends: RangeSearchCorrect) |
| TTNodes.SearchCenterAndRight | src/TTNode.java:396-420 | the search of the center and right children only appends to the list (what it appends: SearchCenterAndRightCorrect) |
| TTNodes.LeftmostLeaf | src/TTNode.java:284-287 | the successor is a node with a left key |
| TTNodes.FindSuccessor | src/TTNode.java:284-287 | the loop stops at the leftmost leaf below its start |
| TTNodes.SetLeftmost | src/TTNode.java:296 | replacing the successor's left pair keeps the tree's shape and depth |
| TTOrder.LtIsCompare | src/TTNode.java:921-928 | the order on pairs is compareKVPair's |
| TTOrder.InsertSortedElements | src/TTNode.java:214-251 | the reference insertion adds exactly the one pair |
| TTOrder.InsertSortedStrictlySorted | src/TTNode.java:214-251 | the reference insertion of a new pair keeps a sorted sequence sorted |
| TTOrder.RemoveKeyElements | src/TTNode.java:264-353 | the reference removal takes out exactly the pair found under the key |
| TTOrder.RemoveKeyStrictKeys | src/TTNode.java:264-353 | after the reference removal the key is gone and the keys stay strictly increasing |
| TTOrder.FilterRangeAppend | src/TTNode.java:377-427 | the range filter distributes over concatenation |
| TTShapes.HeightBalanced | src/TTNode.java:362-375 | height() of a balanced tree is its number of levels |
| TTShapes.LeftmostLeafFirst | src/TTNode.java:284-287 | the successor leaf's left pair is the first pair of the subtree in order |
| TTShapes.SetLeftmostInOrder | src/TTNode.java:289-296 | swapping a pair into the successor changes only the first pair in order |
| TTShapes.SetLeftmostBalanced | src/TTNode.java:289-296 | swapping a pair into the successor keeps the subtree balanced |
| TTShapes.RotateCounterClockwiseCenterInOrder | src/TTNode.java:780-811 | rotating a key from the center child into the empty left child keeps the in-order sequence |
| TTShapes.RotateCounterClockwiseRightInOrder | src/TTNode.java:780-811 | rotating a key from the right child into the empty center child keeps the in-order sequence |
| TTShapes.RotateClockwiseCenterInOrder | src/TTNode.java:840-865 | rotating a key from the center child into the empty right child keeps the in-order sequence |
| TTShapes.RotateClockwiseLeftInOrder | src/TTNode.java:866-877 | rotating a key from the left child into the empty center child keeps the in-order sequence |
| TTShapes.MergeCenterIntoLeftInOrder | src/TTNode.java:673-751 | merging an empty center child into its one-key left sibling keeps the in-order sequence |
| TTShapes.MergeLeftIntoCenterInOrder | src/TTNode.java:720-751 | merging an empty left child with its one-key center sibling keeps the in-order sequence |
| TTShapes.RebalanceNoEmpty | src/TTNode.java:536-589 | with no empty child, rebalanceChildren changes nothing |
| TTShapes.RebalanceLeftEmpty | src/TTNode.java:536-661 | after an empty left child is repaired, the node is balanced or an empty node above a balanced subtree, and its in-order sequence is unchanged |
| TTShapes.RebalanceCenterEmpty | src/TTNode.java:536-751 | the same for an empty center child |
| TTShapes.RebalanceRightEmpty | src/TTNode.java:536-751 | the same for an empty right child |
| TTShapes.RebalanceCorrect | src/TTNode.java:536-589 | after one child loses a level, rebalanceChildren yields a balanced node (or an empty one above a balanced subtree) with the same in-order sequence |
| TTShapes.RangeSearchCorrect | src/TTNode.java:377-427 | rangeSearchHelper appends exactly the values whose keys lie in [lower, higher], in key order |
| TTShapes.SearchCenterAndRightCorrect | src/TTNode.java:396-420 | searching the center and then, when the right key is in range, the right child appends the values in range from those subtrees |
| TTInsertion.AddShape | src/TTNode.java:467-534 | add, as written, hands back a subtree of the same height or a one-key node one level higher |
| TTInsertion.InsertHelpShape | src/TTNode.java:214-251 | insertHelp, as written, keeps the tree balanced |
| TTInsertion.AddFixedShape | src/TTNode.java:467-534 | the corrected add keeps the same shape guarantee |
| TTInsertion.AddFixed | src/TTNode.java:467-534 | the node handed back has a left key; a split hands back a one-key node and otherwise the node itself |
| TTInsertion.InsertHelpFixed | src/TTNode.java:214-251 | the node handed back has a left key; a split hands back a one-key node and otherwise the node itself (contents and balance: InsertHelpFixedCorrect) |
| TTInsertion.TreeInsertFixed | src/TTTree.java:10-20 | the root is never empty after an insert (contents and balance: TTTrees.InsertFixedValid) |
| TTInsertion.InsertHelpFixedShape | src/TTNode.java:214-251 | the corrected insertHelp keeps the tree balanced |
| TTInsertion.InsertHelpFixedCorrect | src/TTNode.java:214-251 | the corrected insertion into a balanced sorted tree keeps it balanced and puts the pair at its sorted place, losing nothing |
| TTInsertion.AddFixedLeaf | src/TTNode.java:467-484 | adding a pair to a leaf puts it at its sorted place |
| TTRemoval.RemoveFixedShape | src/TTNode.java:264-353 | the corrected removal leaves a balanced subtree, or an empty node above one |
| TTRemoval.RemoveHelperFixed | src/TTNode.java:264-353 | the node handed back exists (contents: RemoveFixedContents; balance: RemoveFixedShape; at the root: TTTrees.RemoveFixedValid) |
| TTRemoval.RemoveFixedContents | src/TTNode.java:264-353 | with strictly increasing keys, the corrected removal returns the value stored under the key (none when absent) and drops exactly that pair |
| TTRemoval.RemoveLeafContents | src/TTNode.java:269-308 | removing a key from a leaf returns its value and drops that pair |
| TTRemoval.SuccessorSwap | src/TTNode.java:284-296 | after the swap, the successor subtree starts with the removed pair and is otherwise unchanged |
| TTTrees.InsertFixedValid | src/TTTree.java:10-20 | inserting into the root keeps a 2-3 tree, raises its height by at most one, and inserts the pair at its sorted place |
| TTTrees.RemoveFixedValid | src/TTTree.java:22-28 | removing from the root keeps a 2-3 tree, lowers its height by at most one, returns the key's value and drops that pair |
| TTTrees.TTTree.constructor | src/TTTree.java:6-8 | the tree starts empty |
| TTTrees.TTTree.Insert | src/TTTree.java:10-20 | the root is replaced by the insertion's result; the tree stays balanced, grows by at most one level, and its contents are the old ones with the pair inserted in order |
| TTTrees.TTTree.Remove | src/TTTree.java:22-28 | the root is replaced, collapsing an empty root into its left child; the tree stays balanced, shrinks by at most one level, returns the key's value and its contents lose exactly that pair |
| TTFindings.OneKeyAddLosesPair | src/TTNode.java:476-483 | inserting 3 into the tree built from 10, 20, 5, 7 drops 3 and duplicates 7 as written; the corrected insertion keeps all five in order |
| TTFindings.MiddleSplitLosesPair | src/TTNode.java:511-523 | inserting 12 into a two-level tree drops 12 and duplicates 17 as written; the corrected insertion keeps all seven in order |
| TTFindings.RightSplitLosesPair | src/TTNode.java:524-533 | inserting 22 into a two-level tree drops 22 and duplicates 30 as written; the corrected insertion keeps all seven in order |
| TTFindings.RightKeyRemovalMisses | src/TTNode.java:313-326 | removing the right key 20 of an internal node returns nothing and leaves key 20 in the tree |
| TTFindings.RightKeyRemovalFixed | src/TTNode.java:300-328 | the corrected removal of 20 from the same tree returns 20 and leaves the other four pairs in order |
| TTAgreement.AddAgrees | src/TTNode.java:467-534 | add as written gives what the corrected add gives exactly when the child it keeps is the split's left half |
| TTAgreement.AddCenterAgrees | src/TTNode.java:467-475 | a one-key node absorbing a split key on its right agrees with the corrected add and holds its left subtree, its key, then the split node in order |
| TTAgreement.AddLeafAgrees | src/TTNode.java:467-534 | adding a new leaf to a leaf agrees with the corrected add |
| TTAgreement.InsertLeafAgrees | src/TTNode.java:214-222 | inserting into a one-leaf tree agrees with the corrected insertion, at the node and at the root |
| TTAgreement.RemoveAgrees | src/TTNode.java:264-353 | unless the key is the right key of an internal node, removeHelper and TTTree.remove as written give what the corrected removal gives |
| TTAgreement.RemoveLeafAgrees | src/TTNode.java:269-308 | removing from a one-leaf tree agrees with the corrected removal |

## Left out

- Display code is not modelled: `printTree`, `TTNode`'s `toString`, `printDepthFirst` and `printGivenLevel`. They only format text.
- `SongSearch.java` is not part of this model. It parses commands and calls the structures.
- `KVPair.toString` is not modelled. It only formats text.
- Handle's constructor, `getLength` and `getStartingLocation` are the datatype's constructor and fields.
- `Handles.Equals` has no contract of its own. Its properties are `EqualsEquivalence` and `EqualsSameString`.
- `Handles.GetStringAt`: Java decodes the bytes into a `String` with the platform charset. The model compares and hashes the bytes themselves.
- Handles hold a snapshot of the buffer, not a reference. A payload is never rewritten after it is written, so the snapshot reads the same bytes as the live array. Aliasing between a handle and the arena is not modelled.
- Handles are values, so `expandMemory` replaces the handle in a table slot. In Java, `setOffset` and `setMemory` (src/DynamicByteArray.java:224-230) change the one shared handle object, so every other holder sees the move too. `SongSearch.java` keeps such handles in its trees (src/SongSearch.java:205-237). Those copies are outside this model and are not updated in it.
- `DynamicByteArray.java` calls `getOffset`, `setOffset` and `setMemory` on handles, and `search` and `delete` on hash tables. None of them is defined in `Handle.java` or `HashTable.java`.
  - `getOffset` is taken to be the start of the payload.
  - Moving a handle is modelled as replacing the table's slot with a handle to the new copy.
  - `search` and `delete` are modelled from how they are called: a lookup along the same probe sequence that stops at an empty slot and passes over gravestones.
- `HashTables.HashTable.constructor` keeps the byte array it is given in a field that no method reads, as the Java field is never read either. It requires at most 46340 slots, which Java does not check; beyond that size the probe `homePos + i*i` could overflow a Java int. A size of 0 is accepted, as in Java.
- The callers in the repository construct tables with a one-argument `new HashTable(size)` (src/SongSearch.java:123-124). No such constructor is declared in src/HashTable.java, and the model follows the two-argument one.
- `HashTables.HashTable.Insert` requires a table with at least one slot. On an empty table Java's `hashHelper` takes a remainder by zero and throws. Search and delete on a table without slots find nothing.
- `HashTables.HashTable.Insert`: the expansion must place every handle and stay within 46340 slots, so that `homePos + i*i` fits a Java int. Java would index the new array at -1, or overflow, when that fails.
- `HashTables.HashTable.HashHelper`: the Java `long` sum is taken not to overflow, which holds for names shorter than 2^33 bytes.
- Gravestones are never reused by insert, because the probe looks only for empty slots, exactly as the code does.
- `DynamicByteArrays.DynamicByteArray.Insert` requires the name to have at most 32767 bytes, where the `(short)` cast keeps the length. It also requires one expansion to make room for the record, where Java would write past the end, and requires the chosen table's expansion to succeed.
- `DynamicByteArrays.DynamicByteArray.Insert` states only that the chosen table gains the new handle or is unchanged. The result of the table insert is ignored in the source, so the model does not say which.
- `DynamicByteArrays.DynamicByteArray.ExpandMemory` requires every live record to have a handle to move. Java dereferences a null artist handle otherwise.
- `DynamicByteArrays.DynamicByteArray.ExpandMemory` keeps every table handle pointing at its record only when the updates reach every slot that holds a handle. The model does not derive that from what the tables hold, which would need unique names and one handle per record. Without it, the proof only says that each slot is unchanged or correctly moved.
- `DynamicByteArrays.DynamicByteArray.ToString` returns the list of payloads rather than the list's text.
- Tree keys and values are `int`. The generic `Comparable` keys and values of `TTNode` are not modelled.
- A node's key and value are set and cleared together, so the model tests the pair where the code tests the key in some places and the value in others.
- `TTTrees.TTTree.Remove` requires a non-empty tree. Java dereferences a null root otherwise.
- `TTTrees.TTTree.Remove`: its contents guarantee is stated only for trees whose keys are strictly increasing. Removal searches by key alone, so with duplicate keys it may remove either pair.
- `TTTrees.TTTree.Insert`: its contents guarantee is stated for trees whose pairs are strictly increasing. This always holds when every inserted pair is new.
- A tree is a value, so a node is never shared. Java's `add` as written can leave one node object under two parents (src/TTNode.java:476-483 and 511-533). The model copies that node, so once a pair has been lost, later changes to one copy do not show in the other. The findings lemmas follow only the first faulty insert, where both agree.
- The class `TTTree` uses the corrected insertion and removal. The as-written ones are kept in `TTNodes` and are the subject of the findings below.

## Findings

| source | as written | input that shows it | evidently intended | confidence | as-written member | corrected member |
|---|---|---|---|---|---|---|
| src/TTNode.java:476-483 | when a one-key node absorbs a split child's key on the left, its left child is left pointing at the child's stale node instead of the split's left half | insert keys 10, 20, 5, 7, then 3 (value = key): 3 is lost and 7 appears twice | the left child becomes the split's left half | not executed | TTFindings.OneKeyAddLosesPair | TTInsertion.InsertHelpFixedCorrect |
| src/TTNode.java:511-523 | when a two-key node splits around a key arriving from its center child, the old center child is kept as the left half's center instead of the split's left half | insert 12 into the tree with keys 10, 20 over leaves 5 / 13, 17 / 25: 12 is lost and 17 appears twice | the left half's center becomes the split's left half | not executed | TTFindings.MiddleSplitLosesPair | TTInsertion.InsertHelpFixedCorrect |
| src/TTNode.java:524-533 | when a two-key node splits around a key arriving from its right child, the arriving node's left child is overwritten with the old right child | insert 22 into the tree with keys 10, 20 over leaves 5 / 15 / 25, 30: 22 is lost and 30 appears twice | the arriving node is the new right half unchanged | not executed | TTFindings.RightSplitLosesPair | TTInsertion.InsertHelpFixedCorrect |
| src/TTNode.java:313-326 | removing the right key of an internal node swaps the successor with the node's left pair, so the key never reaches the successor leaf | remove 20 from the tree with keys 10, 20 over leaves 5 / 15 / 25: nothing is returned and 20 stays | the successor is swapped with the right pair, and the right pair is removed from the right subtree | not executed | TTFindings.RightKeyRemovalMisses | TTRemoval.RemoveFixedContents |
