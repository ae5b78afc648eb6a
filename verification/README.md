# Models of ntfs-3g and libfuse-lite

These Dafny modules model the parts of the vendored ntfs-3g 2017.3.23 whose correctness is hard to see, and prove
what they are for. `dafny verify dfyconfig.toml` checks the whole project (Dafny 4.11).

- **LZNT1 compression** (`Bytes`, `Lznt1Format`, `Lznt1Tokens`, `Lznt1Compress`, `Lznt1Block`, `Lznt1Decompress`,
  `Lznt1Bounds`, `CompressionSet`). The format (section 2.5 of [MS-XCA]) is a function from bytes to texts. The
  compressor, with its hash chains, lazy matching and incremental split of the phrase bits, is proved against it, and so
  is the decompressor; together they give the round trip.
- **Runlists** (`Runlist`, `RunlistChecks`, `SavedClusters`, `HoleSplit`, `GatherRead`, `ClusterWrite`). A runlist
  means a map from virtual to logical clusters. Freeing saved clusters, splitting holes, reading and writing are proved
  against this map.
- **Compressed files** (`CompressedWrite`, `CompressedRead`). What is flushed to a compression block, on a device of
  bytes, is read back through the new runlist.
- **MFT records** (`Collation`, `MftRecord`, `AttributeRecords`, `RecordEdit`). The bytes of a record are a list of
  attributes sorted by type, name and value; search, insertion, resizing and rollback work on the bytes.
- **Byte-range locks** (`Seqs`, `LockSpec`, `LockList`). The linked list of lock records means, for each owner, a map
  from offsets to lock types (the record locks of IEEE Std 1003.1); `locks_insert` is proved to update exactly this map.
- **Node table and paths** (`Links`, `HashChains`, `NodeTree`, `Ancestry`, `NodeTable`, `PathName`). Two hash tables,
  two counters for each node and the parents, with the abstract tree of names beside them.
- **LRU cache** (`CacheSpec`, `CacheLists`, `LruCache`). Four linked structures against a sequence of items.
- **Interruption of requests** (`Interrupts`, `InterruptInvariant`, `InterruptRuns`, `RequestRing`). Threads step from
  one lock operation to the next in any order; safety is proved for all runs.
- **Bitmaps** (`Bitmap`, `FreeBits`), **multi-sector transfer protection** (`MultiSector`), and the **implicit mapping
  of SIDs** (`ImplicitSids`).

## Where the code does less than one expects

The members named here give an input, or the exact condition under which the property holds.

- Decoding can store one byte behind the room it is given, and still succeed: when a sub-block fills the last 4096 bytes
  and goes on with a literal (`LiteralBehind`, `StoredBehind`). It reads one byte behind the stream when a header or a
  phrase is cut off there (`PhraseBehind`, `HeaderBehind`, `ReadBehind`), and its answer depends on that byte when a
  single zero is left (`BehindMatters`). Nothing that the compressor writes is of this kind (`RoundTrip`, `ReadBlock`).
- Splitting a hole at the end of the runlist leaves the count of unused slots one too high (`SplitCompressedHole`).
- Renaming a directory below itself makes a circle of parents, which nothing in the table prevents (`RenameGrounded`).
- An all-zero block whose last sub-block has 3 or 4 bytes is not recognised as zero (`ShortZeroTail`, `CompSet`): it is
  stored compressed, not as a hole.
- A user id other than 0 whose low 30 bits are zero gets a SID that leads back to user 0 (`IdOfSid`, `BackToId`).
- Protecting a record and restoring it replaces a stale update sequence array (`StaleArray`, `AllButTheNumber`).
- An attribute added with a value but without a name (a null name, not the empty one) can land out of order
  (`NamelessBreaksOrder`, `NamelessKeepsOrder`).
- When adding an attribute is undone, the next instance number is not taken back (`AddResident`).

## Conventions

Shifts are written as multiplication and division, `|=` of disjoint bits as addition; only bitmaps use bit-vectors.
C structures that are linked in place are class instances, or maps from an address to a structure, in which freeing is
removal. Buffers that a function only reads are sequences. Outcomes of the device, the bitmap allocator or the attribute
list are parameters. Ghost parameters carry the abstract value that a buffer or a list holds.

## Model

| member | source | states |
|---|---|---|
| `Lznt1Compress.CompressContext.Insert` | kloop/ntfs-3g_ntfsprogs-2017.3.23-fixed/libntfs-3g/compress.c:166-180 | A position joins the chain of its three bytes: its old head, if any, is an earlier position already inserted, so the links of every chain strictly decrease |
| `Lznt1Compress.CompressContext.BestMatch` | kloop/ntfs-3g_ntfsprogs-2017.3.23-fixed/libntfs-3g/compress.c:149-238 | A size above the minimum is that of a true earlier match, possibly overlapping, that cannot be made longer; when a maximal match is the head of the chain it is found |
| `Lznt1Compress.CompressContext.SkipPosition` | kloop/ntfs-3g_ntfsprogs-2017.3.23-fixed/libntfs-3g/compress.c:248-259 | Passing a position without a search keeps all chains sound |
| `Lznt1Block.SplitAgrees` | kloop/ntfs-3g_ntfsprogs-2017.3.23-fixed/libntfs-3g/compress.c:323-361 | The split of the 16 bits of a phrase that the compressor keeps up to date is the one the decoder derives from the position |
| `Lznt1Block.CodeLazily` | kloop/ntfs-3g_ntfsprogs-2017.3.23-fixed/libntfs-3g/compress.c:345-400 | Lazy matching: one literal or phrase goes out that codes the text at this position, in at most two bytes, and the match finder is left ready for the next |
| `Lznt1Block.CompressBlock` | kloop/ntfs-3g_ntfsprogs-2017.3.23-fixed/libntfs-3g/compress.c:276-447 | The output for 1 to 4096 bytes has at most 4098 bytes, decodes to the input with zeroes to 4096 whatever follows it, and is the zero marker exactly for zero texts other than of 3 or 4 bytes; nothing outside the 4100 bytes from its start is touched |
| `Lznt1Block.MarkerExact` | kloop/ntfs-3g_ntfsprogs-2017.3.23-fixed/libntfs-3g/compress.c:276-447 | A coded block is the zero marker if and only if the text is all zeroes and not three or four bytes long |
| `Lznt1Tokens.DecodePayload` | kloop/ntfs-3g_ntfsprogs-2017.3.23-fixed/libntfs-3g/compress.c:545-631 | Reading a group of tokens with its tag byte yields exactly the text that the tokens code, whatever bytes follow |
| `Lznt1Tokens.CloseGroup` | kloop/ntfs-3g_ntfsprogs-2017.3.23-fixed/libntfs-3g/compress.c:412-425 | Tag byte and payload of a full group extend what the emitted bytes decode to by the text of the group |
| `Lznt1Format.CopyBackUnique` | kloop/ntfs-3g_ntfsprogs-2017.3.23-fixed/libntfs-3g/compress.c:601-621 | A copy from back places before is the only extension in which each new byte equals the one back before it, so overlapping copies have one meaning |
| `Lznt1Decompress.CopyPhrase` | kloop/ntfs-3g_ntfsprogs-2017.3.23-fixed/libntfs-3g/compress.c:601-621 | The copy in two parts, without overlap and then byte by byte, is the copy of the format, and no other byte changes |
| `Lznt1Decompress.DecodeSubBlock` | kloop/ntfs-3g_ntfsprogs-2017.3.23-fixed/libntfs-3g/compress.c:503-631 | A compressed sub-block is accepted if and only if its tokens decode; then the buffer holds the text filled with zeroes. A literal that follows a full sub-block is stored behind it, and nothing else outside is touched |
| `Lznt1Decompress.Decompress` | kloop/ntfs-3g_ntfsprogs-2017.3.23-fixed/libntfs-3g/compress.c:464-631 | For any bytes: 0 if and only if the stream of sub-blocks decodes, then the buffer holds what it stands for, and -1 otherwise. The byte behind the room gets the literal that the format decoder names, or stays; the byte behind the stream is read exactly when the format decoder says so; both need to exist only then, and nothing else behind is touched |
| `Lznt1Bounds.StoredBehind` | kloop/ntfs-3g_ntfsprogs-2017.3.23-fixed/libntfs-3g/compress.c:545-620 | A byte is stored behind the room if and only if a sub-block in its last 4096 bytes fills them and goes on with a literal, and it is this literal |
| `Lznt1Bounds.ReadBehind` | kloop/ntfs-3g_ntfsprogs-2017.3.23-fixed/libntfs-3g/compress.c:484-590 | The byte behind the stream is read if and only if one byte is left where a header should begin, or the last sub-block ends in the middle of a phrase |
| `Lznt1Bounds.BehindMatters` | kloop/ntfs-3g_ntfsprogs-2017.3.23-fixed/libntfs-3g/compress.c:484-497 | What is decoded depends on the byte behind the stream if and only if a single zero byte is left, and room: then that byte decides whether the stream is closed |
| `Lznt1Bounds.StreamFits` | kloop/ntfs-3g_ntfsprogs-2017.3.23-fixed/libntfs-3g/compress.c:545-620 | A successful decoding fits the room, or is one byte longer and that is the byte stored behind |
| `Lznt1Bounds.LiteralBehind` | kloop/ntfs-3g_ntfsprogs-2017.3.23-fixed/libntfs-3g/compress.c:545-566 | Seven bytes that decode with success and store a byte behind a room of 4096 |
| `Lznt1Bounds.PhraseBehind` | kloop/ntfs-3g_ntfsprogs-2017.3.23-fixed/libntfs-3g/compress.c:576-590 | Six bytes that end in the middle of a phrase: the byte behind is read, and they are refused |
| `Lznt1Bounds.HeaderBehind` | kloop/ntfs-3g_ntfsprogs-2017.3.23-fixed/libntfs-3g/compress.c:484-497 | A single zero byte is accepted or refused by the byte behind it |
| `CompressionSet.RoundTrip` | kloop/ntfs-3g_ntfsprogs-2017.3.23-fixed/libntfs-3g/compress.c:276-447 | A text of 1 to 4096 bytes, compressed, closed by a zero header and decompressed, comes back filled with zeroes to 4096, without any byte outside the two buffers |
| `CompressionSet.CompressAll` | kloop/ntfs-3g_ntfsprogs-2017.3.23-fixed/libntfs-3g/compress.c:1085-1128 | Block after block stays inside the buffer of block size plus two bytes per sub-block plus two; it stops early only when no cluster could be saved |
| `CompressionSet.CompSet` | kloop/ntfs-3g_ntfsprogs-2017.3.23-fixed/libntfs-3g/compress.c:1060-1151 | An accepted block is written as whole clusters, at least one less than the block, and reads back as the whole input; 0 is returned only for zeroes, and for all those the marker knows; a block is rejected only when what was compressed leaves no cluster |
| `CompressionSet.ShortZeroTail` | kloop/ntfs-3g_ntfsprogs-2017.3.23-fixed/libntfs-3g/compress.c:1105-1128 | Compressing zeroes whose last sub-block has 3 or 4 bytes never answers that they are all zeroes |
| `CompressionSet.SetRoundTrip` | kloop/ntfs-3g_ntfsprogs-2017.3.23-fixed/libntfs-3g/compress.c:1060-1151 | What the set layer writes, followed by any bytes, decompresses to the input at the beginning of the block |
| `RunlistChecks.IsCbCompressed` | kloop/ntfs-3g_ntfsprogs-2017.3.23-fixed/libntfs-3g/compress.c:648-684 | True if and only if something in the compression block is not mapped to a cluster |
| `RunlistChecks.SavedBlockIsCompressed` | kloop/ntfs-3g_ntfsprogs-2017.3.23-fixed/libntfs-3g/compress.c:648-684 | Once at least one cluster of the last block has become a hole the block counts as compressed |
| `RunlistChecks.ValidCompressedRun` | kloop/ntfs-3g_ntfsprogs-2017.3.23-fixed/libntfs-3g/compress.c:1160-1194 | Starts at the beginning of the compression block and answers exactly whether the order of runs it looks at is good |
| `RunlistChecks.GoodOrderIsValid` | kloop/ntfs-3g_ntfsprogs-2017.3.23-fixed/libntfs-3g/compress.c:1160-1194 | A contiguous runlist passes the full check if and only if its holes are aligned and never adjacent |
| `SavedClusters.TailClusters` | kloop/ntfs-3g_ntfsprogs-2017.3.23-fixed/libntfs-3g/compress.c:1479-1533 | The runs given back hold exactly the clusters of the vcns behind the used ones, in their order |
| `SavedClusters.FreedShape` | kloop/ntfs-3g_ntfsprogs-2017.3.23-fixed/libntfs-3g/compress.c:1532-1555 | In all four cases holes stay aligned to the end of a block and are never adjacent |
| `SavedClusters.CompressFree` | kloop/ntfs-3g_ntfsprogs-2017.3.23-fixed/libntfs-3g/compress.c:1436-1567 | Gives back each cluster of the vcns behind the used ones exactly once, keeps every earlier mapping, makes the rest a hole up to the same end with aligned holes that are never adjacent; refuses without any change when the list does not end with a block. The first vcn to update is the code's, and every run that ends at or before it is the same before and after |
| `SavedClusters.FreedBefore` | kloop/ntfs-3g_ntfsprogs-2017.3.23-fixed/libntfs-3g/compress.c:1532-1555 | What is in front of the first vcn to update is as it was, also when the hole is merged with the one before |
| `CompressedWrite.FlushBlock` | kloop/ntfs-3g_ntfsprogs-2017.3.23-fixed/libntfs-3g/compress.c:1618-1646 | On a device of bytes: the last block afterwards holds the text, compressed and followed by a hole, or as it is, or as a hole; the runlist in front is the same, no cluster of others is written, the clusters freed are counted, and it succeeds when the device and the bitmap do |
| `ClusterWrite.WriteClusters` | kloop/ntfs-3g_ntfsprogs-2017.3.23-fixed/libntfs-3g/compress.c:1015-1046 | The bytes counted by the result are on the device where the runs map their positions, whatever the device refuses, and only clusters of the runs are written |
| `ClusterWrite.StaysStored` | kloop/ntfs-3g_ntfsprogs-2017.3.23-fixed/libntfs-3g/compress.c:1015-1046 | With no cluster used twice, writing to one run leaves what was written to the runs in front of it |
| `CompressedRead.ReadBlock` | kloop/ntfs-3g_ntfsprogs-2017.3.23-fixed/libntfs-3g/compress.c:802-950 | A block that holds a text is read back with the text in front, whether it is a hole, plain or compressed, and no byte outside the buffers is needed |
| `CompressedRead.FlushThenRead` | kloop/ntfs-3g_ntfsprogs-2017.3.23-fixed/libntfs-3g/compress.c:1618-1646 | What is flushed to the last block is read back through the new runlist, and what is in front of it is mapped as before |
| `CompressedWrite.FreeSaved` | kloop/ntfs-3g_ntfsprogs-2017.3.23-fixed/libntfs-3g/compress.c:1618-1637 | Freeing behind a number of written bytes turns exactly the rest of the block into a hole, and the block counts as compressed |
| `HoleSplit.SplitKeeps` | kloop/ntfs-3g_ntfsprogs-2017.3.23-fixed/libntfs-3g/attrib.c:1484-1600 | Replacing a hole by holes of the same total length changes the mapping of no vcn |
| `HoleSplit.SplitCompressedHole` | kloop/ntfs-3g_ntfsprogs-2017.3.23-fixed/libntfs-3g/attrib.c:1453-1600 | Every vcn keeps its mapping, the returned position is the hole part of the block to be written, and with aligned holes, which stay aligned, the result is the number of clusters in front of the hole in that block, all of them allocated, or the whole block; the branch marked impossible is never taken. The count of unused slots is right if and only if the new run is not the last one of the list |
| `HoleSplit.AllocatedInFront` | kloop/ntfs-3g_ntfsprogs-2017.3.23-fixed/libntfs-3g/attrib.c:1463-1484 | With aligned holes every vcn in front of a hole in the block where the hole begins is mapped to a cluster |
| `GatherRead.FindVcn` | kloop/ntfs-3g_ntfsprogs-2017.3.23-fixed/libntfs-3g/attrib.c:875-931 | The run that maps the vcn; an error if and only if the vcn is negative or behind the list |
| `GatherRead.RunByte` | kloop/ntfs-3g_ntfsprogs-2017.3.23-fixed/libntfs-3g/attrib.c:1093-1124 | A byte at an offset of a run is the byte that the bytewise specification gives for its position |
| `GatherRead.Gather` | kloop/ntfs-3g_ntfsprogs-2017.3.23-fixed/libntfs-3g/attrib.c:1054-1143 | Whatever the device does, the bytes counted by the result are right and none is written behind those asked for; a device that reads fully yields all of them |
| `GatherRead.Pread` | kloop/ntfs-3g_ntfsprogs-2017.3.23-fixed/libntfs-3g/attrib.c:936-1144 | Result and buffer against the bytewise specification: zero in holes and beyond the initialized size, else the byte of the device; exactly min(count, data size - pos) bytes when the device reads fully, never more, and the rest of the buffer is as before |
| `Collation.CompareByParts` | kloop/ntfs-3g_ntfsprogs-2017.3.23-fixed/libntfs-3g/attrib.c:2851-2875 | memcmp over the common length and then the lengths is lexicographic order |
| `Collation.CompareChained` | kloop/ntfs-3g_ntfsprogs-2017.3.23-fixed/libntfs-3g/attrib.c:2851-2875 | The order of values is transitive, and equal only for equal values |
| `Collation.CollateSigns` | kloop/ntfs-3g_ntfsprogs-2017.3.23-fixed/libntfs-3g/unistr.c:140-245 | The order of names is total: antisymmetric, and equal only for equal names |
| `Collation.FullCollate` | kloop/ntfs-3g_ntfsprogs-2017.3.23-fixed/libntfs-3g/unistr.c:165-245 | The comparison in one pass orders by upper case first and then by the characters, or by upper case only when case is to be ignored |
| `MftRecord.InsertSorted` | kloop/ntfs-3g_ntfsprogs-2017.3.23-fixed/libntfs-3g/attrib.c:2761-2881 | With nothing smaller behind it, a new attribute keeps the record sorted if and only if nothing in front is larger |
| `MftRecord.StopKeepsOrder` | kloop/ntfs-3g_ntfsprogs-2017.3.23-fixed/libntfs-3g/attrib.c:2761-2881 | Where a search by name fails in a sorted record, an attribute of that type, name and value keeps the record sorted |
| `MftRecord.NamelessKeepsOrder` | kloop/ntfs-3g_ntfsprogs-2017.3.23-fixed/libntfs-3g/attrib.c:2761-2881 | Where a search without a name fails, an unnamed attribute keeps the record sorted if and only if no value was looked for or no named attribute of the type has only smaller values up to and including its own |
| `MftRecord.FindsWhatIsThere` | kloop/ntfs-3g_ntfsprogs-2017.3.23-fixed/libntfs-3g/attrib.c:2761-2881 | A search by name in a sorted record succeeds if and only if some attribute matches, and finds the first |
| `RecordEdit.NamelessBreaksOrder` | kloop/ntfs-3g_ntfsprogs-2017.3.23-fixed/libntfs-3g/attrib.c:2819-2875 | An unnamed attribute with value 9 looked for without a name goes behind a named one with value 5, out of order |
| `AttributeRecords.Examine` | kloop/ntfs-3g_ntfsprogs-2017.3.23-fixed/libntfs-3g/attrib.c:2813-2875 | Name and value decide between found, stop and go on exactly as the order of names and values says |
| `AttributeRecords.Find` | kloop/ntfs-3g_ntfsprogs-2017.3.23-fixed/libntfs-3g/attrib.c:2761-2881 | Walking the bytes ends at the first attribute that is found or stopped at in the list of attributes, and is never outside the record |
| `AttributeRecords.GapMoved` | kloop/ntfs-3g_ntfsprogs-2017.3.23-fixed/libntfs-3g/attrib.c:3766-3769 | Moving the end of the record changes the gap in front of an attribute from one size to another and keeps all attributes |
| `AttributeRecords.PutAttribute` | kloop/ntfs-3g_ntfsprogs-2017.3.23-fixed/libntfs-3g/attrib.c:3849-3872 | The bytes written read back as the type, name, value, flags and instance asked for, in the aligned size, and nothing outside changes |
| `RecordEdit.Record.MakeRoom` | kloop/ntfs-3g_ntfsprogs-2017.3.23-fixed/libntfs-3g/attrib.c:3733-3771 | Opens a gap of the size, up to a multiple of 8, keeping all attributes, or refuses exactly when the record has no room and changes nothing |
| `RecordEdit.Record.AddResident` | kloop/ntfs-3g_ntfsprogs-2017.3.23-fixed/libntfs-3g/attrib.c:3790-3902 | The exact error in each case with the part in use unchanged; else one attribute more, all others as they were, the size in use grown by its size, and sorted where the search was by name; when the attribute list refuses, the part in use is restored byte for byte |
| `RecordEdit.AddedIsFound` | kloop/ntfs-3g_ntfsprogs-2017.3.23-fixed/libntfs-3g/attrib.c:3790-3902 | Looking for the attribute again after adding it finds it where it was put, so adding it twice is refused |
| `RecordEdit.Undone` | kloop/ntfs-3g_ntfsprogs-2017.3.23-fixed/libntfs-3g/attrib.c:3879-3887 | Moving up, writing in the gap and moving down again restores every byte in use |
| `RecordEdit.Record.Resize` | kloop/ntfs-3g_ntfsprogs-2017.3.23-fixed/libntfs-3g/attrib.c:4499-4547 | The two refusals happen exactly when specified and change nothing; else the attribute keeps its bytes up to the new size but for its length, size 0 takes it out, and all other attributes are kept |
| `LockList.Node.LocksConflict` | kloop/ntfs-3g_ntfsprogs-2017.3.23-fixed/libfuse-lite/fuse.c:2456-2467 | The first record in conflict with the lock, or null if and only if there is none |
| `LockList.Node.LocksInsert` | kloop/ntfs-3g_ntfsprogs-2017.3.23-fixed/libfuse-lite/fuse.c:2482-2553 | On the linked list: afterwards exactly the offsets from start to end of the owner have the new type, the records of all others are the same, and the list is again sorted, disjoint and maximally merged for each owner; the spare record is used at most once |
| `LockSpec.Split` | kloop/ntfs-3g_ntfsprogs-2017.3.23-fixed/libfuse-lite/fuse.c:2531-2535 | Splitting a record in which the lock falls keeps the meaning that the insertion loop preserves |
| `LockSpec.Finish` | kloop/ntfs-3g_ntfsprogs-2017.3.23-fixed/libfuse-lite/fuse.c:2544-2552 | Inserting the widened lock at the place where the loop ends yields the updated map and the canonical list |
| `LockSpec.CanonicalUnique` | kloop/ntfs-3g_ntfsprogs-2017.3.23-fixed/libfuse-lite/fuse.c:2482-2553 | Two canonical lists with the same map for an owner have the same ranges for this owner |
| `LockSpec.StepExclusive` | kloop/ntfs-3g_ntfsprogs-2017.3.23-fixed/libfuse-lite/fuse.c:2456-2553 | Setting a lock that conflicts with nothing keeps writers exclusive, although what is inserted may be wider |
| `LockSpec.RunExclusive` | kloop/ntfs-3g_ntfsprogs-2017.3.23-fixed/libfuse-lite/fuse.c:2456-2553 | Over any series of such settings from the empty list, every list is canonical and free of overlaps of two owners with a write lock |
| `NodeTree.KeptForAReason` | kloop/ntfs-3g_ntfsprogs-2017.3.23-fixed/libfuse-lite/fuse.c:357-373 | Every node that remains is looked up or has a named child |
| `NodeTree.UnnamedKeeps` | kloop/ntfs-3g_ntfsprogs-2017.3.23-fixed/libfuse-lite/fuse.c:319-339 | Taking a name away changes no other node but for a reference on the parent, which goes only when nothing needs it |
| `NodeTree.ForgetTree` | kloop/ntfs-3g_ntfsprogs-2017.3.23-fixed/libfuse-lite/fuse.c:564-578 | Forgetting keeps the table correct, and every node it deletes has neither lookups nor children |
| `NodeTree.RenameMeans` | kloop/ntfs-3g_ntfsprogs-2017.3.23-fixed/libfuse-lite/fuse.c:591-625 | Renaming moves one node and takes the name of the one replaced; all other names and all looked-up nodes stay |
| `Ancestry.NamedGrounded` | kloop/ntfs-3g_ntfsprogs-2017.3.23-fixed/libfuse-lite/fuse.c:341-355 | Giving a node a name keeps all ways up to the root finite if and only if the directory is not below the node |
| `Ancestry.RenameGrounded` | kloop/ntfs-3g_ntfsprogs-2017.3.23-fixed/libfuse-lite/fuse.c:591-625 | Renaming keeps them finite if the node is not above the directory, and only then unless the replaced node is above it |
| `Ancestry.AlwaysGrounded` | kloop/ntfs-3g_ntfsprogs-2017.3.23-fixed/libfuse-lite/fuse.c:399-625 | In every state of every series of lookups, creations, forgettings, removals and such renamings the table is correct and every way up ends |
| `NodeTable.Fuse.UnrefNode` | kloop/ntfs-3g_ntfsprogs-2017.3.23-fixed/libfuse-lite/fuse.c:357-373 | A reference less; the last one deletes the node and takes it out of its id chain, without the assertions failing |
| `NodeTable.Fuse.UnhashName` | kloop/ntfs-3g_ntfsprogs-2017.3.23-fixed/libfuse-lite/fuse.c:319-339 | The node loses its name and its directory a reference; both indexes stay exact and the abort for a missing node is not reached |
| `NodeTable.Fuse.HashName` | kloop/ntfs-3g_ntfsprogs-2017.3.23-fixed/libfuse-lite/fuse.c:341-355 | The node gets the name below the directory, which gains a reference, and is in its name chain once |
| `NodeTable.Fuse.TryNext` | kloop/ntfs-3g_ntfsprogs-2017.3.23-fixed/libfuse-lite/fuse.c:375-384 | The next counter value in turn, with a new generation at each wrap, and whether a node has it |
| `NodeTable.Fuse.NextId` | kloop/ntfs-3g_ntfsprogs-2017.3.23-fixed/libfuse-lite/fuse.c:375-384 | Terminates while an id is free, and hands out an unused id other than 0 and the unknown one, later than the one before in the order of generation and id |
| `NodeTable.Fuse.FindNode` | kloop/ntfs-3g_ntfsprogs-2017.3.23-fixed/libfuse-lite/fuse.c:399-427 | Finds the node of the name and counts one lookup more, or creates exactly one node with an unused id; all indexes stay exact, the pairs of generation and id handed out stay strictly increasing, and ways up stay finite |
| `NodeTable.Fuse.ForgetNode` | kloop/ntfs-3g_ntfsprogs-2017.3.23-fixed/libfuse-lite/fuse.c:564-578 | With a count that a looked-up node has, 0 included, the table becomes the specified one; deleted are only nodes with no lookups and no children; the root is left alone, and ways up stay finite |
| `NodeTable.Fuse.RemoveNode` | kloop/ntfs-3g_ntfsprogs-2017.3.23-fixed/libfuse-lite/fuse.c:580-589 | Exactly the node of that name loses it, or nothing changes; ways up stay finite |
| `NodeTable.Fuse.RenameNode` | kloop/ntfs-3g_ntfsprogs-2017.3.23-fixed/libfuse-lite/fuse.c:591-625 | All cases: nothing to rename, a target to be replaced, a target that must be hidden first, no target; the table stays correct, and ways up stay finite when the node is not above the new directory |
| `NodeTable.Fuse.constructor` | kloop/ntfs-3g_ntfsprogs-2017.3.23-fixed/libfuse-lite/fuse.c:3132-3171 | A new table holds the root only and is correct |
| `PathName.NewSize` | kloop/ntfs-3g_ntfsprogs-2017.3.23-fixed/libfuse-lite/fuse.c:439-448 | The doubled size, or the largest, is enough and does not wrap |
| `PathName.Enlarge` | kloop/ntfs-3g_ntfsprogs-2017.3.23-fixed/libfuse-lite/fuse.c:438-458 | The enlarged buffer holds the same path at its end |
| `PathName.AddName` | kloop/ntfs-3g_ntfsprogs-2017.3.23-fixed/libfuse-lite/fuse.c:430-472 | A slash and the name come in front of the path, however the buffer is enlarged |
| `PathName.NoPath` | kloop/ntfs-3g_ntfsprogs-2017.3.23-fixed/libfuse-lite/fuse.c:474-557 | A node has no path if and only if it or a node above it has no name |
| `PathName.GetPathName` | kloop/ntfs-3g_ntfsprogs-2017.3.23-fixed/libfuse-lite/fuse.c:474-557 | In a correct table whose ways up come to an end: the path is the names from the root down, each behind a slash, with the further name at the end; a single slash for the root; none when there is no path |
| `CacheSpec.EnteredFinds` | kloop/ntfs-3g_ntfsprogs-2017.3.23-fixed/libntfs-3g/cache.c:212-326 | After entering, the item is found, and of the others exactly those that were found before, but for the last one of a full cache that a new item displaces |
| `CacheSpec.AlwaysSound` | kloop/ntfs-3g_ntfsprogs-2017.3.23-fixed/libntfs-3g/cache.c:147-445 | After any requests the cache is within its capacity and holds no two equal items |
| `CacheSpec.LargerIsBetter` | kloop/ntfs-3g_ntfsprogs-2017.3.23-fixed/libntfs-3g/cache.c:147-445 | Of two caches that get the same lookups and removals, the larger starts with what the smaller holds, so it hits whenever that does |
| `CacheLists.Conserved` | kloop/ntfs-3g_ntfsprogs-2017.3.23-fixed/libntfs-3g/cache.c:63-372 | Entries in use and free entries, and used and free hash links, each add up to the capacity |
| `LruCache.Cache.InsertHashIndex` | kloop/ntfs-3g_ntfsprogs-2017.3.23-fixed/libntfs-3g/cache.c:63-97 | With a free link and a proper hash the entry gets one link in its chain, and hashing is not dropped |
| `LruCache.Cache.DropHashIndex` | kloop/ntfs-3g_ntfsprogs-2017.3.23-fixed/libntfs-3g/cache.c:103-138 | The link of an entry goes from its chain to the free links; an indexed entry is always there, so hashing is not dropped |
| `LruCache.Cache.FetchCache` | kloop/ntfs-3g_ntfsprogs-2017.3.23-fixed/libntfs-3g/cache.c:147-203 | Finds the first item that compares equal, by hash chain or list, and moves exactly this one to the front; counts hits and reads |
| `LruCache.Cache.EnterCache` | kloop/ntfs-3g_ntfsprogs-2017.3.23-fixed/libntfs-3g/cache.c:212-326 | The cache becomes the specified sequence, the entry returned holds the item, the free function is told of the item that had to go, and hashing is never dropped |
| `LruCache.Cache.InvalidateCache` | kloop/ntfs-3g_ntfsprogs-2017.3.23-fixed/libntfs-3g/cache.c:374-424 | Removes exactly the items selected, in order and by either way of searching, and counts them |
| `LruCache.Cache.RemoveCache` | kloop/ntfs-3g_ntfsprogs-2017.3.23-fixed/libntfs-3g/cache.c:432-445 | Removes exactly one entry |
| `LruCache.Cache.constructor` | kloop/ntfs-3g_ntfsprogs-2017.3.23-fixed/libntfs-3g/cache.c:472-548 | A new cache is empty, with all entries and links free |
| `RequestRing.DeleteReq` | kloop/ntfs-3g_ntfsprogs-2017.3.23-fixed/libfuse-lite/fuse_lowlevel.c:130-136 | The ring without the node |
| `RequestRing.AddReq` | kloop/ntfs-3g_ntfsprogs-2017.3.23-fixed/libfuse-lite/fuse_lowlevel.c:138-145 | The ring with the node in front of another |
| `RequestRing.NewReq` | kloop/ntfs-3g_ntfsprogs-2017.3.23-fixed/libfuse-lite/fuse_lowlevel.c:1301-1333 | A new request is a ring of its own, or at the end of the list |
| `InterruptInvariant.StepKeepsInv` | kloop/ntfs-3g_ntfsprogs-2017.3.23-fixed/libfuse-lite/fuse_lowlevel.c:124-169 | Every step of every thread, one lock operation to the next, keeps the invariant of locks, counters, owners and lists |
| `InterruptRuns.InvAlways` | kloop/ntfs-3g_ntfsprogs-2017.3.23-fixed/libfuse-lite/fuse_lowlevel.c:956-1028 | The invariant holds in every state of every run under any interleaving |
| `InterruptRuns.CounterExact` | kloop/ntfs-3g_ntfsprogs-2017.3.23-fixed/libfuse-lite/fuse_lowlevel.c:153-169 | The counter of a live request is one until it is freed, plus one for each thread interrupting it |
| `InterruptRuns.LiveIffKnown` | kloop/ntfs-3g_ntfsprogs-2017.3.23-fixed/libfuse-lite/fuse_lowlevel.c:147-169 | A request is alive if and only if a thread or a list still refers to it: no use after free and no leak |
| `InterruptRuns.DeadForever` | kloop/ntfs-3g_ntfsprogs-2017.3.23-fixed/libfuse-lite/fuse_lowlevel.c:147-169 | A destroyed request is never changed again, so it is destroyed once |
| `InterruptRuns.OnlyLocksBlock` | kloop/ntfs-3g_ntfsprogs-2017.3.23-fixed/libfuse-lite/fuse_lowlevel.c:956-1028 | Threads refer only to requests that exist, and can go on unless a lock is taken |
| `InterruptRuns.NoDeadlock` | kloop/ntfs-3g_ntfsprogs-2017.3.23-fixed/libfuse-lite/fuse_lowlevel.c:956-1028 | While a thread waits, one that holds a lock can go on |
| `InterruptRuns.CallbackIsSet` | kloop/ntfs-3g_ntfsprogs-2017.3.23-fixed/libfuse-lite/fuse_lowlevel.c:965-972 | While a callback runs, its request is alive and this callback is the one set |
| `InterruptRuns.ClearedStaysClear` | kloop/ntfs-3g_ntfsprogs-2017.3.23-fixed/libfuse-lite/fuse_lowlevel.c:1212-1221 | From the time the callback is cleared until one is set again, none runs for the request |
| `InterruptRuns.InterruptedIsTold` | kloop/ntfs-3g_ntfsprogs-2017.3.23-fixed/libfuse-lite/fuse_lowlevel.c:1212-1221 | An interrupted request whose lock is free has had the callback called that is set, even when it was set after the interrupt |
| `InterruptRuns.DeliveredIsSeen` | kloop/ntfs-3g_ntfsprogs-2017.3.23-fixed/libfuse-lite/fuse_lowlevel.c:956-988 | When an INTERRUPT is given up as delivered its target is marked and has been told |
| `InterruptRuns.KeptInterrupts` | kloop/ntfs-3g_ntfsprogs-2017.3.23-fixed/libfuse-lite/fuse_lowlevel.c:990-1028 | Kept interrupts have distinct targets, none of which is listed |
| `InterruptRuns.OneWay` | kloop/ntfs-3g_ntfsprogs-2017.3.23-fixed/libfuse-lite/fuse_lowlevel.c:956-1028 | An INTERRUPT is delivered, dropped as duplicate, matched late or bounced, at most one of these |
| `Bitmap.SetBitsInRun` | kloop/ntfs-3g_ntfsprogs-2017.3.23-fixed/libntfs-3g/bitmap.c:115-255 | For any start and count inside the bitmap, 0 included, exactly the bits of the run get the value, whatever the alignment and number of 8 KiB windows; negative arguments are refused without change; neither branch for a bug is reached |
| `Bitmap.BitsSetMeans` | kloop/ntfs-3g_ntfsprogs-2017.3.23-fixed/libntfs-3g/bitmap.c:115-255 | The bytewise statement is the one over bit numbers, in both directions |
| `Bitmap.BitSet` | kloop/ntfs-3g_ntfsprogs-2017.3.23-fixed/libntfs-3g/bitmap.c:56-64 | Exactly one bit is set or cleared, and an improper value changes nothing |
| `Bitmap.BitGetIs` | kloop/ntfs-3g_ntfsprogs-2017.3.23-fixed/libntfs-3g/bitmap.c:74-79 | The shifted bit is 1 if and only if the bit is set |
| `FreeBits.BitCountIs` | kloop/ntfs-3g_ntfsprogs-2017.3.23-fixed/libntfs-3g/attrib.c:6857-6873 | The counting macro gives the number of set bits, for every byte |
| `FreeBits.CountChunk` | kloop/ntfs-3g_ntfsprogs-2017.3.23-fixed/libntfs-3g/attrib.c:6896-6907 | Words backwards and then the bytes behind them add up all clear bits of a chunk, each once |
| `FreeBits.GetFreeBits` | kloop/ntfs-3g_ntfsprogs-2017.3.23-fixed/libntfs-3g/attrib.c:6875-6915 | The number of clear bits of the attribute, over chunks of any remainder; -1 for an empty one |
| `FreeBits.SetLowersFree` | kloop/ntfs-3g_ntfsprogs-2017.3.23-fixed/libntfs-3g/bitmap.c:115-255 | Setting clear bits lowers the number of free bits by exactly their number; clearing set bits raises it |
| `MultiSector.PreWriteFixup` | kloop/ntfs-3g_ntfsprogs-2017.3.23-fixed/libntfs-3g/mst.c:169-219 | Protects the record or refuses without change, exactly by the checks of the code, and touches nothing else |
| `MultiSector.PostWriteFixup` | kloop/ntfs-3g_ntfsprogs-2017.3.23-fixed/libntfs-3g/mst.c:230-256 | Restores the record |
| `MultiSector.PostReadFixup` | kloop/ntfs-3g_ntfsprogs-2017.3.23-fixed/libntfs-3g/mst.c:65-137 | Restores a record whose sectors all end with the number, marks any other as bad, and refuses an invalid one |
| `MultiSector.RoundTrip` | kloop/ntfs-3g_ntfsprogs-2017.3.23-fixed/libntfs-3g/mst.c:169-256 | Protecting and restoring gives back the record with the next number and its last words in the array |
| `MultiSector.AllButTheNumber` | kloop/ntfs-3g_ntfsprogs-2017.3.23-fixed/libntfs-3g/mst.c:169-256 | All but the number is as before if and only if the array already held the last words of the sectors |
| `MultiSector.StaleArray` | kloop/ntfs-3g_ntfsprogs-2017.3.23-fixed/libntfs-3g/mst.c:169-219 | A record with a stale array gets a word of it replaced |
| `MultiSector.TornDetected` | kloop/ntfs-3g_ntfsprogs-2017.3.23-fixed/libntfs-3g/mst.c:65-137 | A mixture of sectors of a record and its next version, some but not all of them, is always noticed |
| `MultiSector.MstPwrite` | kloop/ntfs-3g_ntfsprogs-2017.3.23-fixed/libntfs-3g/attrib.c:2646-2689 | The device is given each record protected; up to the first record that is refused all are restored in the buffer, and the rest is untouched |
| `ImplicitSids.FindImplicit` | kloop/ntfs-3g_ntfsprogs-2017.3.23-fixed/libntfs-3g/acls.c:355-402 | Finding the carry by trying yields the id in closed form, or 0 when the SID is not of the pattern |
| `ImplicitSids.IdOfSid` | kloop/ntfs-3g_ntfsprogs-2017.3.23-fixed/libntfs-3g/acls.c:355-447 | The SID of an id leads back to it, except for user ids whose low 30 bits are zero, which become 0 |
| `ImplicitSids.SidsDiffer` | kloop/ntfs-3g_ntfsprogs-2017.3.23-fixed/libntfs-3g/acls.c:409-491 | No two ids have the same SID, and no user has the SID of a group |
| `ImplicitSids.SidOfId` | kloop/ntfs-3g_ntfsprogs-2017.3.23-fixed/libntfs-3g/acls.c:355-402 | The id of a SID leads back to the SID if and only if its last authority is less than 2^31 above the pattern |
| `ImplicitSids.FindSid` | kloop/ntfs-3g_ntfsprogs-2017.3.23-fixed/libntfs-3g/acls.c:409-491 | The SID of the first explicit or implicit entry that applies |
| `ImplicitSids.FindId` | kloop/ntfs-3g_ntfsprogs-2017.3.23-fixed/libntfs-3g/acls.c:497-536 | The id of the first entry that applies |
| `ImplicitSids.BackToId` | kloop/ntfs-3g_ntfsprogs-2017.3.23-fixed/libntfs-3g/acls.c:409-536 | Id to SID and back is the identity if and only if no other entry claims the SID and the id is not such a user id |

## Left out

General:

- Boot scripts, GRUB and shell material, mounting, options, signals, sessions, channels, and the `fuse_fs_*` and `do_*`
  forwarding functions: one-branch plumbing.
- Failing allocations, including the way `ntfs_enter_cache` makes do without memory (cache.c:306-315).
- Logging and the values of errno, where they are not the result.
- Corrupt metadata, other than malformed compressed streams.
- `ntfs_compress_overwr_free`, `borrow_from_hole`, `ntfs_attr_fill_hole`, truncation, expansion, mapping pairs and the
  merging of runlists: they depend on the cluster allocator and on other MFT records.
- Building and interpreting access control lists, resuming `ntfs_readdir`, `fstrim`, raw encrypted attributes.

Assumptions and weaker contracts:

- CompSet: the device takes the whole block or refuses it; a short write is a refusal.
- Decompress: the byte behind either buffer has to exist when it is touched.
- CompressFree: the branch for overwriting is left out, and so is growing the runlist array, whose empty slot is
  required.
- FlushBlock: only for the last block of the runlist, with the clusters of the runs on the device and none used twice.
- IsCbCompressed: the runlist is fully mapped, as it is for FindVcn, Gather, Pread and ReadBlock.
- ReadBlock: the whole block is asked for, and every read of the device succeeds in full.
- SplitCompressedHole: only for holes at least as long as a compression block, which its caller checks
  (attrib.c:2073-2090); `ntfs_rl_extend` and the 32-bit width of differences of vcns are left out, the two empty slots
  are required.
- Pread: compressed, encrypted and resident attributes, and runs not yet mapped, are left out.
- AddResident: sizes up to 2^31 - 1, so that the 32-bit sums do not wrap; the known sizes of the inode, and its dirty
  mark, are left out. The header fields of the record are variables beside its bytes.
- Find: only records that are not corrupt; the value is compared in resident attributes only, as its documentation
  demands; names are compared in the case-sensitive order only.
- PutAttribute: the header is written in one copy, and the order of the writes is not modelled.
- LocksInsert: the two spare records are allocated and freed by the garbage collector; that none is needed when
  everything is unlocked is proved inside.
- FindNode: the generation is unbounded, names are strings without a terminator, and that the directory exists is
  required: the code aborts otherwise.
- RenameNode: the directory it renames into has been looked up and is not the node itself; hiding open nodes is one
  parameter, open counts and cached attributes are left out.
- GetPathName: lengths are below 2^32.
- ForgetNode: not for a node that has no lookups, whose reference would be dropped twice.
- FetchCache: the payloads are one abstract value, the comparison an equivalence, and the hash does not tell equal items
  apart.
- EnterCache: variable-size payloads are part of the abstract value.
- StepKeepsInv: destroying a mutex, sending the reply, and the data argument of callbacks are left out; request numbers
  are not assumed to be distinct; steps are between lock operations.
- NoDeadlock: says nothing about fairness.
- SetBitsInRun: every read and write of the bitmap's attribute succeeds in full.
- PreWriteFixup: the update sequence array is required to be behind the 8 bytes of the header that are rewritten.
- MstPwrite: the number of bytes that the device accepts is a parameter.
- FindSid: the administrator's SID, returned for id 0, is a constant; the mapping lists are sequences.
