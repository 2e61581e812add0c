# Verified models of the xpwn core

The repository unpacks, patches and repacks firmware images. The models here cover the parts of it where one slip
corrupts data silently:

- **LZSS** (`ipsw-patch/lzss.c`): a dictionary coder whose encoder keeps a ring buffer of 4096 bytes and 256 binary
  search trees, stored in three arrays of links that are edited in place while the window slides.
- **HFS+ files** (`hfs/rawfile.c`): the allocator, which searches the volume's bitmap from a rotating start, and files
  that are lists of extents and have to look like flat byte arrays.
- **HFS+ B-trees** (`hfs/btree.c`): a B+-tree over fixed-size nodes with splits, growing height, sibling links, a node
  map, and deletion that drops empty nodes without ever merging; and below it the nodes as pages of bytes, with records
  of any length and a table of their offsets.
- **The HFS+ catalog** (`hfs/catalog.c`): files and folders are made, moved and removed by editing records, threads and
  counts one by one.
- **Compressed HFS+ files** (`hfs/hfscompress.c`): read through a cache of one chunk, written in memory, stored again
  when they are closed.
- **Disk images** (`dmg/io.c`, `dmg/dmgfile.c`): sectors stored as a table of runs, taken out again, and read through a
  cache of one run.
- **Property lists** (`ipsw-patch/plist.c`): a printer, and a parser that finds closing tags by counting.
- **Digests, names and letters**: SHA-1 over chunks (`dmg/checksum.c`), the comparison of names
  (`hfs/fastunicodecompare.c`), base-64 in lines (`common/base64.c`).

Objects whose fields the C code updates are classes (`Encoder.EncodeState`, `HfsVolume.Volume`, `HfsRawFile.RawFile`,
`HfsBTree.BTree`, `HfsPage.Page`, `HfsCatalog.Catalog`, `HfsCompressed.CompressedFile`, `DmgFile.Dmg`,
`Sha1Stream.Sha1`, `Base64Text.Writer`), with the loops, branches and field updates of the source; each method is
proved against functions on values, and lemmas about those functions carry the meaning.

How the proofs are laid out:

| module | content |
|---|---|
| `Wrappers`, `Collections`, `Bits`, `BlockBitmap` | values that may be missing, sequences and maps; shifts, masks and single bits of bytes |
| `LzssBase`, `SearchTree`, `Window` | strings of the ring; binary search trees as values and as arrays of links; which window positions are registered |
| `Encoder`, `Compressor`, `Decompressor` | the encoder's state, the compressor and the decompressor |
| `LzssFormat`, `LzssText`, `LzssRoundTrip` | tokens and their bytes; when a token is right and best; the round trip |
| `Adler32` | the checksum of LZSS files |
| `Extents`, `ExtentRecords`, `BlockChoice`, `HfsVolume`, `HfsRawFile`, `HfsFileRuns` | extents as flat arrays; their records on disk; which free blocks are taken; bitmap and image; the files; runs of writes |
| `BTreeRecords`, `BTreeLevels`, `BTreeSteps` | records in key order; levels of nodes; what a step does to a level |
| `BTreeAdding`, `BTreeSplitting`, `BTreeRemoving`, `BTreeSearching`, `HfsBTree` | what an operation does to all levels, and which nodes it splits; the tree |
| `SlottedPage`, `PageSteps`, `HfsPage` | a page's bytes as records; what single writes do to them; the page |
| `CatalogRecords`, `CatalogPaths`, `HfsCatalog`, `CatalogExamples` | records, threads and counts; ways to the root; the catalog's operations; three moves |
| `Codecs`, `Numbers`, `CompressedBlocks`, `HfsCompressed` | the compression library; words as bytes; the resource fork; the file |
| `DmgRuns`, `DmgPlan`, `DmgLayout`, `DmgInput`, `DmgIo`, `DmgFile` | tables of runs; the steps of putting in, as a function of the input; which sectors and bytes a run stands for; looking for data between zeros; putting in and taking out; the cached reader |
| `PlistTags`, `PlistValues`, `PlistConverse`, `Plist` | tags and how they nest; values as text and back; why nothing else comes back; printer and parser |
| `Sha1Block`, `Sha1Stream`, `UnicodeCompare`, `Base64`, `Base64Text` | the digest of a block and of a stream; the order of names; letters; lines of letters and back |

A B-tree is described by its levels: the list of nodes of each height. Each level is doubly linked in order, its
records joined into one list ascend, and the records of an upper level are exactly the index of the level below: each
node under its first key. That is what `traverseNode`, `linearCheck` and `mapNodes` check (hfs/btree.c:267-604).

Things in which the code does not do what one would expect, each proved with its exact condition:

- The comment on `insert_node` (ipsw-patch/lzss.c:147-148) says that of two equal strings the older node is dropped
  because it will be deleted sooner. For the blanks before the text the order of registration is the reverse: the
  *oldest* of several strings of F blanks stays, and when it goes, the younger ones are not found any more although
  they still are in the window. With m the number of blanks the text begins with, the match for position R is the
  longest of the whole window if and only if not: 0 < m < F, START - F < R + F - N <= START - F + m, F blanks begin at
  R, and none begin at a position of the text before (`LzssText.FoundIsLongest`; `LzssText.Missed`). Then it is short
  by one byte. `LzssText.BlanksAreMissed` is such a text; `LzssText.LongestThroughout` says it of whole outputs. What
  is decoded is right in any case.
- `writeExtents` files overflow records under the volume block of their first extent, `readExtents` and
  `removeExtents` look them up under the file block (hfs/rawfile.c:326, 387, 399, 444). What was written can be read
  back if and only if the two agree (`ExtentRecords.WrittenIsReadable`); with at most eight extents there is nothing
  to agree on.
- `removeRecord` does not notice that it has run past the last record of a *leaf*: it falls out of its loop and takes
  the data of that record for the number of a child (hfs/btree.c:1410-1459). So the removal of a key that is not in
  the tree and belongs behind the last record of a leaf goes astray (`HfsBTree.BTree.RemoveFromBTree`,
  `BTreeRemoving.StrayForever`); a search made before tells whether it will (`BTreeRemoving.SearchForesees`).
- `insertBLKX`, when it is to skip zeros (`addComment`), reads on from a chunk of 512 sectors that is all zero until
  it finds one that is not. If it does not skip, because it has passed at most 100000 zero sectors, it stores the
  chunk it has read *last* at the place of the zero chunk (dmg/io.c:110-150, 195-239). So the image holds what was put
  in if and only if the zeros from the first such chunk on are more than 100000 sectors or go to the end of the input
  (`DmgIo.InsertBLKX`; `DmgInput.ZeroChunkLost` is an input for which it does not).
- The same loop doubles its table of runs once per round, but a round that skips may write two runs (dmg/io.c:90-93,
  152-188). The table is left if and only if some skip of more than sixteen sectors, not a multiple of sixteen, comes
  when the number of runs is one less than a power of two (`DmgPlan.StaysInRoom`; `DmgPlan.ManyZerosOverflow`).
- Chunks of fewer than fifteen sectors are never stored as they are, since the test subtracts fifteen from an unsigned
  number (dmg/io.c:218), and the cached reader's buffer for compressed bytes is as large as the run
  (dmg/dmgfile.c:23-46). The bytes fit if and only if every such chunk is not made larger by compressing
  (`DmgIo.InsertBLKX`, `DmgFile.InsertThenRead`; `DmgPlan.OneSectorGrows`).
- Closing a compressed file copies small contents into the buffer of its attribute, which for a file that had one is
  as long as the old attribute (hfs/hfscompress.c:144-148, hfs/xattr.c:239-244). It is left if and only if the
  attribute was there and its data are shorter than the compressed contents (`HfsCompressed.CompressedFile.Close`;
  `HfsCompressed.AddedByteOverruns`).
- `move` within one folder loads the folder's record twice and writes both copies back, so one of the two changes of
  the count of children is lost (hfs/catalog.c:780-783); a folder can be moved into itself; and `move`, `newFile` and
  `newFolder` do not notice that a name is in use, so a thread comes to lead to another file's record.
  `HfsCatalog.Catalog.Move`, `NewFile` and `NewFolder` say that the catalog stays consistent if and only if none of
  that is the case. The count of *subfolders*, which `newFolder` and `removeFile` keep, is right after a move if and
  only if a file was moved. And nothing keeps a folder from being moved to somewhere below itself, which cuts it off
  from the root (`CatalogPaths.MovedReachable`). `CatalogExamples` shows three such moves.
- `SHA1Update` compares the lower word of its count with the number of bits of the chunk, which is wider (on a machine
  of 64 bits), so a chunk of 2^29 bytes or more always seems to overflow it (dmg/checksum.c:270). The count is right
  if and only if the chunk is shorter or the word does overflow (`Sha1Stream.Sha1.Update`).
- The parser of property lists counts brackets, and the texts inside an element are scanned once for each element
  around them. A property list comes back if and only if each key and string leaves the depth as it was at every depth
  at which it is scanned, and no dictionary inside it is empty (`PlistConverse.ComesBack`, `Plist.PrintAndParse`). A
  text that comes out even by itself need not do so inside a dictionary (`PlistTags.EvenOnceOnly`); an empty
  dictionary inside another one is read as a pointer that was never set (`PlistConverse.EmptyDictIsLost`).
- `convertBase64` does not look whether its buffer is full after the tabs at the beginning (common/base64.c:140-147).
  It is left if and only if there are bytes to encode and the number of tabs is 100 times a power of two
  (`Base64Text.ConvertBase64`).

## Model

| member | source | states |
|---|---|---|
| SearchTree.InsertKeepsOrder | ipsw-patch/lzss.c:151-199 | inserting a string into a tree keeps it in lexicographic order without duplicates; the nodes are the old ones and the new one, except that a node with an equal string is replaced by it |
| SearchTree.BestIsLongest | ipsw-patch/lzss.c:179-187 | the longest match noted on the way down from the root is as long as the common prefix with any string of the whole tree, and is reached by one of them |
| SearchTree.JoinKeepsOrder | ipsw-patch/lzss.c:208-231 | what takes the place of a deleted node (a child, or the greatest node of the left subtree) is an ordered tree of exactly the other nodes |
| SearchTree.SwapNode | ipsw-patch/lzss.c:189-198 | the link assignments that let a new node take over from an equal one turn the arrays into a representation of the tree with that node exchanged, and leave all other trees alone |
| SearchTree.HangLeaf | ipsw-patch/lzss.c:166-175 | hanging the new node at the empty place found represents the insertion, and leaves all other trees alone |
| SearchTree.DetachNode | ipsw-patch/lzss.c:226-231 | redirecting the link above the deleted node represents the tree with that node's subtree replaced, and leaves all other trees alone |
| SearchTree.RaiseMax | ipsw-patch/lzss.c:213-219 | unlinking the greatest node of the left subtree represents that subtree without it |
| SearchTree.LiveIffParent | ipsw-patch/lzss.c:126-127 | a position is in a tree if and only if its parent link is in use |
| Encoder.EncodeState.constructor | ipsw-patch/lzss.c:238-247 | a new state is that of init_state |
| Encoder.EncodeState.InitState | ipsw-patch/lzss.c:129-141 | the initial arrays represent 256 empty trees over a ring of blanks |
| Encoder.EncodeState.InsertNode | ipsw-patch/lzss.c:151-199 | the arrays go on representing ordered, disjoint trees; the tree of the first byte becomes its insertion, match_position and match_length the best match in it |
| Encoder.EncodeState.DeleteNode | ipsw-patch/lzss.c:202-232 | the arrays go on representing ordered, disjoint trees; the position is in none of them, all others are where they were |
| Encoder.EncodeState.Register | ipsw-patch/lzss.c:325-326 | after the next position has been registered, just the strings of the window that are not shadowed by an older blank string are found, and the match is the longest with any of them |
| Encoder.EncodeState.ReadByte | ipsw-patch/lzss.c:310-319 | the oldest string is dropped before its byte is overwritten, in the ring and in the mirror, and the window moves on by one |
| Encoder.EncodeState.Expire | ipsw-patch/lzss.c:328-333 | past the end of the text the oldest string is dropped without reading |
| Encoder.EncodeState.Load | ipsw-patch/lzss.c:261-263 | the ring holds the first bytes of the text behind the blanks |
| Encoder.EncodeState.RegisterBlanks | ipsw-patch/lzss.c:273-274 | the strings that begin with blanks are registered |
| Window.DropRegistered | ipsw-patch/lzss.c:310 | dropping the oldest position loses no other string of the window |
| Window.StoreRegistered | ipsw-patch/lzss.c:312-319 | the overwritten byte and its mirror belong to no registered string |
| Window.AddRegistered | ipsw-patch/lzss.c:326 | after an insertion the new position is found, and all that were found before |
| Window.AddPrimed | ipsw-patch/lzss.c:273-274 | registering the blanks from right to left leaves exactly the strings that have no equal further left |
| Window.PrimedRegistered | ipsw-patch/lzss.c:273-274 | of the strings that begin with blanks just those of F blanks are equal, so only they are shadowed by the one furthest left |
| Window.BestIsLongestLive | ipsw-patch/lzss.c:176-188 | the tree of the first byte is enough: no string in any of the 256 trees has a longer common prefix |
| Window.LongestIsFound | ipsw-patch/lzss.c:143-150 | the match is the longest over exactly the window positions that are not shadowed, and is one of them |
| LzssText.FoundMakesToken | ipsw-patch/lzss.c:282-295 | the reported match, cut to the text that is left, gives a token that encodes the next bytes, and that is the longest of the whole window unless the position is a missed one, where it is F - 1 bytes |
| LzssText.FoundIsLongest | ipsw-patch/lzss.c:143-199 | the reported match is the longest of the whole window if and only if the position is not a missed one, which the text and the position alone decide |
| LzssText.MissedIsLonger | ipsw-patch/lzss.c:143-150 | at a missed position the window does offer F bytes |
| LzssText.LongestThroughout | ipsw-patch/lzss.c:275-338 | all tokens of an output are the longest the window offers if and only if none begins at a missed position |
| LzssText.BlanksAreMissed | ipsw-patch/lzss.c:268-274 | a text of one blank, 4060 letters and 18 blanks, whose last 18 bytes are in the window and are missed |
| LzssText.RunIsText | ipsw-patch/lzss.c:77-118 | tokens that are right for the text, copies that overlap themselves included, decode to the text whatever the unwritten slots of the ring hold |
| LzssText.EncodedAppend | ipsw-patch/lzss.c:281-338 | a right token added to right tokens gives right tokens up to the place behind it |
| LzssFormat.ParseSerialize | ipsw-patch/lzss.c:77-118 | reading flags and units gives back the tokens that were written in groups of eight |
| LzssFormat.SerializedBound | ipsw-patch/lzssfile.c:62-63 | the output takes at most one byte per byte of text and one per eight tokens |
| Compressor.PutToken | ipsw-patch/lzss.c:283-295 | the group being built holds one token more, and the token is right, and longest for the text unless that is missed |
| Compressor.Flush | ipsw-patch/lzss.c:298-304 | the group is appended to the output if it fits, or the output is full |
| Compressor.Send | ipsw-patch/lzss.c:282-307 | one round of the output loop appends one token to what is encoded so far |
| Compressor.Advance | ipsw-patch/lzss.c:308-337 | the window moves on by the length of the match, reading while there is text and only dropping after that |
| Compressor.Finish | ipsw-patch/lzss.c:340-348 | the last, incomplete group is written |
| Compressor.CompressLzss | ipsw-patch/lzss.c:234-352 | the output is the serialized form of tokens that encode the text, each the longest of the whole window except at missed positions; it fails if and only if the text is empty or that form is longer than the buffer |
| Decompressor.CopyMatch | ipsw-patch/lzss.c:104-113 | a copy, which may overlap itself, repeats what stands that far back in the output |
| Decompressor.DecompressLzss | ipsw-patch/lzss.c:77-118 | the output is what running the parsed tokens appends to the initial ring, for any input; a unit cut off at the end is dropped |
| LzssRoundTrip.DecodeUndoesEncode | ipsw-patch/lzss.c:77-118 | whatever right tokens were chosen for a text and whatever the decoder's ring held, decoding the serialized tokens gives the text |
| LzssRoundTrip.CompressedFits | ipsw-patch/lzssfile.c:62-63 | the compressed form of a text that is not empty fits into the text's length and an eighth, so into twice its length |
| LzssRoundTrip.SaveAndOpen | ipsw-patch/lzssfile.c:62-63 | saving and opening a file gives the same bytes and length, and never fails |
| Adler32.NoOverflow | ipsw-patch/lzss.c:7-8 | with NMAX = 5000 both sums stay below 2^32 between two reductions |
| Adler32.LzAdler32 | ipsw-patch/lzss.c:16-38 | the unrolled loop with deferred reductions, in 32-bit sums, computes the checksum that section 2.2 of RFC 1950 defines |
| BlockBitmap.SetBit | hfs/rawfile.c:20 | or-ing the shifted bit sets that bit of the byte and no other |
| BlockBitmap.ClearBit | hfs/rawfile.c:22 | masking with the complement clears that bit and no other |
| HfsVolume.CountUpdate | hfs/rawfile.c:93-94 | marking a block changes the number of free blocks by one, unless it was marked before |
| HfsVolume.Volume.IsBlockUsed | hfs/rawfile.c:7-13 | tells the block's bit of the bitmap |
| HfsVolume.Volume.SetBlockUsed | hfs/rawfile.c:15-27 | changes the block's bit of the bitmap and no other |
| Extents.ReadPart | hfs/rawfile.c:200-209 | bytes of one extent, read where they lie on the volume, are the bytes of the flat array at the extent's offset |
| Extents.WritePart | hfs/rawfile.c:258-267 | bytes written inside one extent are written to the flat array at the extent's offset, and no block outside the list changes |
| HfsRawFile.BlocksForIsLeast | hfs/rawfile.c:44 | the number of blocks computed is the least that holds the size |
| HfsRawFile.TakenFile | hfs/rawfile.c:72-103 | a file to which free blocks are added owns old and new blocks, all different, and its contents grow by zeros |
| HfsRawFile.FreedFile | hfs/rawfile.c:129-146 | a file that gave blocks back still owns the others |
| HfsRawFile.RawFile.Grow | hfs/rawfile.c:50-103 | the rotating search ends, and takes as many free blocks as wanted, zeroed and marked: each is the one behind the file if that is free, and otherwise the first free one from where the search is; a new extent begins only where the next block is not the one behind; the search goes on behind the last block that was searched for |
| BlockChoice.SearchOn | hfs/rawfile.c:72-84 | a block that is not free is passed by: no free block lies between the start of the search and the next place, around the end of the volume |
| BlockChoice.SearchEnds | hfs/rawfile.c:85-102 | the free block the search has come to is the one to be taken, behind the file or first from the start of the search |
| BlockChoice.OneExtentPerBreak | hfs/rawfile.c:72-102 | the list gets one extent for each time the file does not go on behind its last block, and one for the first block of a file that had none |
| BlockChoice.InOnePiece | hfs/rawfile.c:69-102 | a file behind which there are enough free blocks takes just these, has no more extents than before, and leaves the search where it is |
| HfsRawFile.RawFile.Shrink | hfs/rawfile.c:107-146 | the block list is cut to the wanted length, by leaving out extents at the end and shortening the last one; the other blocks are marked free, and all others are left alone |
| HfsRawFile.RawFile.Allocate | hfs/rawfile.c:29-161 | succeeds if and only if there are enough free blocks and changes nothing otherwise; file and free blocks together stay the same in number; the block list keeps the common prefix, and grows by just the blocks and extents that the search demands; the contents are cut, or grow by zeros |
| ExtentRecords.WrittenIsReadable | hfs/rawfile.c:353-404 | what writeExtents leaves can be read back if and only if each overflow record's first extent lies at the same block of volume and file |
| ExtentRecords.FewExtentsMatch | hfs/rawfile.c:366-372 | which is so for up to eight extents |
| ExtentRecords.NineExtentsDiffer | hfs/rawfile.c:387-399 | a list of nine scattered extents for which the keys do not agree |
| HfsRawFile.RawFile.ReadExtents | hfs/rawfile.c:406-477 | rebuilds the list that the records describe |
| HfsRawFile.RawFile.RemoveExtents | hfs/rawfile.c:292-351 | removes all overflow records of the file and no others |
| HfsRawFile.RawFile.WriteExtents | hfs/rawfile.c:353-404 | files the list, eight descriptors to a record, the unused ones blank or left from the record before; the records of other files are left alone |
| HfsRawFile.RawFile.Seek | hfs/rawfile.c:174-189 | finds the extent in which a byte lies and its place there, or that the file ends before it |
| HfsRawFile.RawFile.Read | hfs/rawfile.c:163-216 | succeeds if and only if the file has extents that reach that far, and then reads the bytes of the flat array |
| HfsRawFile.RawFile.MakeRoom | hfs/rawfile.c:233-235 | gives the file the blocks of its new size when it is too short, and touches no block of any other file; only then do its overflow records matter |
| HfsRawFile.RawFile.WriteBlocks | hfs/rawfile.c:237-269 | overwrites the flat array at the location, and nothing outside the file |
| HfsRawFile.RawFile.Write | hfs/rawfile.c:218-272 | succeeds if and only if the file is long enough or blocks suffice and changes nothing otherwise; the flat array is resized with zeros, then overwritten; blocks in use by others stay in use, and stay as they are; a write inside the file needs no overflow records |
| HfsFileRuns.WriteIsPlain | hfs/rawfile.c:218-272 | a write to the blocks is a write to the plain array of the logical size if and only if no old bytes come to light between the end of the file and the place of the write |
| HfsFileRuns.WriteBeside | hfs/rawfile.c:218-272 | a write to one file leaves contents and records of another as they are |
| HfsFileRuns.RunWrites | hfs/rawfile.c:218-272 | a run of writes goes on until a write that must grow the file meets overflow records that cannot be read, or a full volume; the file is the plain array after the same writes, another file of the volume is as before, and file and free blocks together are the same in number |
| HfsFileRuns.RunThenRead | hfs/rawfile.c:163-216 | reading after a run of writes gives the bytes of the plain array |
| BTreeRecords.TableAdded | hfs/btree.c:1043-1121 | adding a record to an ordered list is adding it to the map, where a key that is there stays as it is |
| BTreeRecords.TableWithout | hfs/btree.c:1413-1444 | taking a key out of an ordered list is taking it out of the map |
| BTreeLevels.IndexSorted | hfs/btree.c:377-527 | the index of a level in order is in order |
| BTreeLevels.IndexKeyIsKey | hfs/btree.c:1151-1163 | a key of an index node is the key of some leaf record, so to find it there is to find it |
| BTreeLevels.FirstKey | hfs/btree.c:1192-1199 | the first key is the same at all levels |
| BTreeLevels.PlaceInLevel | hfs/btree.c:1151-1173 | the place of a key in the node to which it is routed is its place in the whole level |
| BTreeLevels.RouteChild | hfs/btree.c:1192-1229 | under the last index key that is not greater lies the child to which the key belongs |
| BTreeSteps.SplitLevel | hfs/btree.c:916-996 | splitting a node leaves the records of the level as they are, keeps it doubly linked in order, and adds the new node's first key to its index |
| BTreeSteps.GrowLow | hfs/btree.c:1175-1186 | a full node split in two, of which the lower half takes the record, has grown by that record |
| BTreeSteps.GrowHigh | hfs/btree.c:1175-1186 | a full node split in two, of which the new one takes the record, has grown by that record |
| BTreeSteps.DropLevel | hfs/btree.c:847-914 | dropping a node takes its records from the level and its entry from the index, and keeps the level doubly linked in order |
| BTreeSteps.Rejoin | hfs/btree.c:1231-1255 | a level that has become the index of the one below makes both, and all below, a tree again |
| BTreeAdding.FirstKeyLowered | hfs/btree.c:1192-1227 | a key smaller than all others is made the first key of every index node on its way, and the level above stays what the level below will need |
| BTreeAdding.EntryFits | hfs/btree.c:1231-1241 | the entry of a new child belongs right behind that of the child that was split |
| BTreeAdding.EntryAdded | hfs/btree.c:1231-1255 | with that entry the level is the index of the one below again |
| BTreeAdding.NewRoot | hfs/btree.c:1259-1320 | a root over two nodes makes them one tree |
| BTreeSplitting.RoutedOnce | hfs/btree.c:1147-1172 | a key has one way through a level |
| BTreeSplitting.SplitLeaf | hfs/btree.c:1174-1191 | a leaf is split exactly if it has no room for the record |
| BTreeSplitting.SplitNext | hfs/btree.c:1227-1255 | an index node is split exactly if its child was, and it has no room for the new entry |
| BTreeSearching.FoundInLeaf | hfs/btree.c:195-247 | in the leaf to which the key is routed, the record that is found is the right one of the whole tree |
| BTreeSearching.ResultInTable | hfs/btree.c:177-265 | what the result says about the map: exact if and only if the key is there, and with its data; none if and only if all keys are greater |
| BTreeRemoving.EntryDropped | hfs/btree.c:1466-1474 | when a child is gone its entry is taken out, and the node with it when it was the last |
| BTreeRemoving.EntryRenewed | hfs/btree.c:1476-1500 | when a child has lost its first key its entry gets the new one, and so on up |
| BTreeRemoving.EntryKept | hfs/btree.c:1446-1464 | a child whose entry has another key than the one removed is neither gone nor has it another first key |
| BTreeRemoving.PastEndInLeaf | hfs/btree.c:1410-1459 | the loop over a leaf's records ends without finding or passing the key if and only if the key is not in the tree and belongs behind the last record of a leaf |
| BTreeRemoving.SearchForesees | hfs/btree.c:1374-1459 | a removal goes astray if and only if a search finds no such key and ends behind the last record of a leaf |
| BTreeRemoving.StrayForever | hfs/btree.c:1446-1459 | an example: the removal of an absent key that comes back to the same leaf again and again |
| HfsBTree.NoLeaksInsert | hfs/btree.c:676-722 | taking a node that goes into a level leaves no node marked used outside the levels |
| HfsBTree.NoLeaksRemove | hfs/btree.c:847-914 | nor does giving one back |
| HfsBTree.BTree.FullAtCap | hfs/btree.c:142-163 | the free-space test finds a node full exactly when it holds as many records of the fixed size as fit |
| HfsBTree.BTree.CapFits | hfs/btree.c:142-163 | the number of records that the tree allows in a node is the largest for which descriptor, records (two bytes, the key, and the data or four bytes) and offsets fit into the node |
| HfsBTree.BTree.RecordsFit | hfs/btree.c:142-163 | the records of every node of a tree fit into it |
| HfsBTree.BTree.SpaceOnPage | hfs/btree.c:142-163 | a record as bytes has the size the tree reckons with; a page of such records has the free space the tree reckons with, and room for another record exactly if one more fits |
| HfsBTree.BTree.FindFree | hfs/btree.c:676-722 | takes a free node, marks it and nothing else, and keeps the free-node counter right |
| HfsBTree.BTree.Scan | hfs/btree.c:1151-1173 | goes to the first record that is not smaller than the key |
| HfsBTree.BTree.DoAddRecord | hfs/btree.c:1043-1121 | adds the record to the node at its place, or nothing if the key is there, and counts leaf records |
| HfsBTree.BTree.SplitNode | hfs/btree.c:916-996 | moves the upper half of the records to a new node linked in behind the old one |
| HfsBTree.BTree.RemoveNode | hfs/btree.c:847-914 | unlinks the node from both neighbours and from the header, and gives it back to the map |
| HfsBTree.BTree.AddHere | hfs/btree.c:1174-1191 | adds a record to a node where there is room, or splits it and adds to the half where it belongs: the level gains just that record; a new node is taken exactly if the old one is full; both halves hold just their records |
| HfsBTree.BTree.AddRecord | hfs/btree.c:1123-1257 | adds a record under a node: the leaves gain it unless the key is there, all levels below stay a tree, and a new node has its place behind the old one; just the full nodes on the way of the key are split, from the leaf up to the first that has room |
| HfsBTree.BTree.IncreaseHeight | hfs/btree.c:1259-1320 | puts a new root over the old one and its new neighbour; the leaves stay as they are |
| HfsBTree.BTree.AddToBTree | hfs/btree.c:1322-1372 | the tree stays in order in all respects and its map is the old one plus the key, unchanged if it was there; it takes one node for each full node on the way of the key up to the first that has room, and gets a level more exactly if all are full |
| HfsBTree.BTree.SearchNode | hfs/btree.c:177-261 | finds the record of the key or the last one before it, and the place of the key in a leaf; panics if and only if all keys are greater |
| HfsBTree.BTree.Search | hfs/btree.c:263-265 | is exact if and only if the map has the key, and then gives its data |
| HfsBTree.BTree.DeleteHere | hfs/btree.c:1418-1443 | takes a record out of a node, and the node out of the tree with its last record |
| HfsBTree.BTree.TendEntry | hfs/btree.c:1466-1505 | after a removal the child's entry is dropped, renewed or left, and all levels are a tree again |
| HfsBTree.BTree.RemoveRecord | hfs/btree.c:1374-1540 | removes a key under a node, which is gone or has another first key only if that was its first key; goes astray exactly as said above |
| HfsBTree.BTree.RemoveFromBTree | hfs/btree.c:1542-1556 | unless it goes astray, the tree stays in order in all respects and its map is the old one without the key; the root is 0 if and only if no record is left, and otherwise root and height are what they were |
| HfsBTree.BTree.Run | hfs/btree.c:1322-1372 | after any run of additions and removals the tree is in order and its map is what the same operations make of a map |
| SlottedPage.SplicedRecords | hfs/btree.c:998-1041 | when bytes and offsets of a page have changed as at a splice, the page decodes to the old records with that part replaced, its offsets ascend from 14, and the free space starts behind the last record |
| PageSteps.MovedByWrites | hfs/btree.c:998-1041 | moving the records and then the changed part of the offset table, by one slot or none, moves the records from one on and leaves those before |
| PageSteps.InsertBefore | hfs/btree.c:1084-1096 | the writes for a record in front of others amount to a splice that inserts it |
| PageSteps.InsertLast | hfs/btree.c:1097-1108 | so do those for a record behind all others |
| PageSteps.RemoveBefore | hfs/btree.c:1418-1426 | moving the records behind one over it, and counting one less, amounts to taking it out |
| PageSteps.ReplaceSteps | hfs/btree.c:1207-1222 | moving the records behind one by the difference of the keys' lengths, and writing the key, amounts to replacing it |
| PageSteps.UpperHalf | hfs/btree.c:938-982 | a page that takes over the bytes and the offsets of the upper records decodes to them |
| PageSteps.LowerHalf | hfs/btree.c:978-985 | a page that only counts fewer records decodes to the first of them |
| HfsPage.InsertKeepsOrder | hfs/btree.c:1062-1082 | in front of the first record whose key is not smaller a new key keeps the records in order, for any comparison that is an order |
| HfsPage.FixedSizeSpace | hfs/btree.c:142-163 | with records of one size, offsets and free space are those the tree reckons with |
| HfsPage.Page.GetRecordOffset | hfs/btree.c:125-140 | reads the offset from the table at the end of the page |
| HfsPage.Page.GetFreeSpace | hfs/btree.c:142-163 | is the space between the last record and the table |
| HfsPage.Page.MoveRecordsDown | hfs/btree.c:998-1041 | moves records and offsets, in either direction, and nothing else |
| HfsPage.Page.Scan | hfs/btree.c:1062-1082 | finds the first record whose key is not smaller, and whether it is the key |
| HfsPage.Page.DoAddRecord | hfs/btree.c:1043-1121 | the page decodes to its records with the new one at its sorted place, or not a byte changes if the key is there |
| HfsPage.Page.DeleteRecord | hfs/btree.c:1418-1426 | the page decodes to its records without that one |
| HfsPage.Page.ReplaceKey | hfs/btree.c:1201-1227 | the page decodes to its records with another key, of any length, in that one |
| HfsPage.Page.SplitTo | hfs/btree.c:916-996 | the old page decodes to the lower half of the records, the new one to the upper half |
| CatalogRecords.PutInCounts | hfs/catalog.c:990-998 | a new entry and one more in its folder's record keep every folder's count equal to the number of its children |
| CatalogRecords.TakenOutCounts | hfs/catalog.c:819-869 | so do an entry taken out and one less |
| CatalogRecords.MovedCounts | hfs/catalog.c:727-783 | after an entry went from one folder to another all counts of children are right, those of subfolders if and only if it is a file |
| CatalogRecords.MovedLinked | hfs/catalog.c:727-777 | records and threads still lead to each other |
| CatalogRecords.IdIsUnique | hfs/catalog.c:312-344 | no two entries have the same id |
| CatalogPaths.MovedReachable | hfs/catalog.c:727-783 | after a move everything can be reached from the root if and only if the new folder does not lie below what was moved |
| CatalogPaths.PutInReachable | hfs/catalog.c:990-998 | a new entry can be reached, and all others as before |
| CatalogPaths.TakenOutReachable | hfs/catalog.c:819-869 | no way from the root leads over a file or an empty folder that is taken out |
| HfsCatalog.NewOverOld | hfs/catalog.c:1086-1093 | under a name that is in use the new thread leads to another record |
| HfsCatalog.MoveWithin | hfs/catalog.c:780-783 | a move within one folder breaks the folder's count, or a thread |
| HfsCatalog.MoveOver | hfs/catalog.c:762-777 | a move onto a name in use breaks the thread of what was moved |
| HfsCatalog.MovedRecords | hfs/catalog.c:721-783 | after any move the thread leads to the new key, the new folder counts one more than before, the old one one less if it is another, and all other records are what they were |
| HfsCatalog.MovedNames | hfs/catalog.c:721-783 | what lies where after any move, whether or not the key was in use |
| CatalogExamples.WithinOneFolder | hfs/catalog.c:780-783 | a file moved within its folder, which then counts one too many |
| CatalogExamples.OntoNameInUse | hfs/catalog.c:762-777 | a file moved onto the name of a folder |
| CatalogExamples.FolderMoved | hfs/catalog.c:779-783 | a folder moved into another: the catalog stays consistent, the counts of folders do not stay right |
| HfsCatalog.Catalog.GetRecordByCNID | hfs/catalog.c:312-344 | finds a record through its thread |
| HfsCatalog.Catalog.UpdateCatalog | hfs/catalog.c:620-667 | replaces a folder's record where its thread leads |
| HfsCatalog.Catalog.NewFile | hfs/catalog.c:1008-1101 | makes a file under the next id if the folder exists; the catalog stays consistent if and only if the name was free; if it was not, what lies there stays, and only thread and counts are new |
| HfsCatalog.Catalog.NewFolder | hfs/catalog.c:914-1006 | makes a folder under the next id if the folder exists; the catalog stays consistent if and only if the name was free; if it was not, what lies there stays, and only thread and counts are new |
| HfsCatalog.Catalog.RemoveFile | hfs/catalog.c:794-881 | removes a file, or a folder if and only if nothing lies in it, and keeps the catalog consistent and everything else within reach |
| HfsCatalog.Catalog.Move | hfs/catalog.c:669-792 | moves an entry, within its folder too: it lies under the new key, or under none if that is in use, and all others lie where they were; the catalog stays consistent if and only if it goes to another folder, which is not the one moved, under a free name; and everything can still be reached from the root if and only if that folder does not lie below what is moved |
| HfsCatalog.Catalog.Run | hfs/catalog.c:669-1101 | after any run of operations with existing folders and free names, and moves between different folders, the catalog is consistent and names what the same operations make of a map of names |
| HfsCatalog.Catalog.RunOne | hfs/catalog.c:669-1101 | an operation is carried out if and only if it is admissible; everything stays within reach of the root unless a folder goes below itself, and then it does not |
| CompressedBlocks.ChunkBounds | hfs/hfscompress.c:120-137 | the chunks of 64 KiB follow each other and end with the file |
| CompressedBlocks.TableRead | hfs/hfscompress.c:270-287 | reading the table of blocks gives back offsets and sizes as they were written |
| Numbers.ByteOrders | hfs/hfscompress.c:12-27 | numbers of the fork have their high byte first or last |
| CompressedBlocks.LayOne | hfs/hfscompress.c:133-164 | a compressed chunk written behind the others can be read back, and so can all before it |
| CompressedBlocks.LayKept | hfs/hfscompress.c:168-199 | writing in front of the blocks, or behind them, leaves all of them readable |
| CompressedBlocks.ForkComplete | hfs/hfscompress.c:168-199 | header, table and end marker, written around the blocks, complete a fork that holds the contents, and are byte for byte what they should be |
| HfsCompressed.BlockOf | hfs/hfscompress.c:60-76 | the block number computed from a location is that of the chunk in which it lies |
| HfsCompressed.CompressedFile.CacheChunk | hfs/hfscompress.c:59-76 | fetches the chunk in which a location lies into the cache |
| HfsCompressed.CompressedFile.CompressedRead | hfs/hfscompress.c:39-80 | ends, and reads the bytes of the plain array, whatever was cached |
| HfsCompressed.CompressedFile.CompressedWrite | hfs/hfscompress.c:82-107 | caches all of the file, and is a write to the plain array |
| HfsCompressed.CompressedFile.StoreChunks | hfs/hfscompress.c:120-164 | stores the chunks inline if and only if there is one and it is small, and behind each other in the fork otherwise; the attribute's buffer is left if and only if the attribute was there and is shorter |
| HfsCompressed.CompressedFile.Close | hfs/hfscompress.c:109-217 | unless the attribute's buffer is left, which is exactly when the attribute was there and is shorter than the compressed contents that are to go in, what is on the volume afterwards is the contents, in the attribute or in a whole fork; if nothing was written, nothing is stored |
| HfsCompressed.CompressedFile.Open | hfs/hfscompress.c:219-291 | opens what is on the volume with just these contents |
| HfsCompressed.RunSteps | hfs/hfscompress.c:39-107 | any reads and writes, in any order, give what they give on a plain array |
| HfsCompressed.Reopened | hfs/hfscompress.c:39-291 | a file opened, read and written, closed and opened again is the plain array after the same writes, whatever is then read or written, if and only if closing does not leave the attribute's buffer |
| HfsCompressed.AddedByteOverruns | hfs/hfscompress.c:144-148 | a file of one byte in its attribute, which grows by one |
| HfsCompressed.ForkToInlineOverruns | hfs/hfscompress.c:144-148 | a file in the fork leaves the buffer of its attribute whenever it has become small enough to go in |
| DmgRuns.ZeroRunIs | dmg/io.c:123-137 | a stretch of zero sectors that ends at the input's end or at a sector that is not zero is all the zeros there |
| DmgRuns.FirstZeroChunk | dmg/io.c:105-150 | whether the zeros lie right is decided at the first chunk that is zero |
| DmgPlan.LastPlace | dmg/io.c:90-93 | there is room for just one more run exactly when their number is one less than a power of two |
| DmgPlan.PlainStays | dmg/io.c:88-240 | without skipping zeros the table is never left |
| DmgPlan.PlainShrinks | dmg/io.c:88-240 | without skipping zeros every small chunk shrinks if and only if the last one does, when it has fewer than fifteen sectors |
| DmgPlan.ManyZerosOverflow | dmg/io.c:152-188 | an input of 100001 zero sectors in front of data, for which the table is left |
| DmgPlan.OneSectorGrows | dmg/io.c:195-239 | one sector that compressing makes larger, which does not fit into its own size |
| DmgLayout.PlainCuts | dmg/io.c:95-150 | without skipping, the runs are chunks of 512 sectors from the first sector on, of which only the last may have fewer |
| DmgLayout.CutCount | dmg/io.c:152-240 | there are just as many runs as the plan counts |
| DmgInput.ZeroWords | dmg/io.c:123-132 | counts the zero words in front of the first that is not zero |
| DmgInput.ZeroSectors | dmg/io.c:134-135 | that count tells how many whole sectors of the chunk are zero |
| DmgInput.FindData | dmg/io.c:105-150 | the sectors to skip are exactly the zero sectors from the current one on; the chunk read last is the current one, or one behind zeros only |
| DmgInput.ProgressSkip | dmg/io.c:152-193 | skipping keeps what was right, and does not mend what was wrong |
| DmgInput.ProgressData | dmg/io.c:195-239 | so does storing a chunk, and it goes wrong just when the chunk is not the current one and is not zero |
| DmgInput.ZeroChunkLost | dmg/io.c:110-239 | an input of two chunks, the first zero and the second not, whose first chunk is lost |
| DmgIo.IgnoreRuns | dmg/io.c:152-188 | one or two runs without data stand for the skipped sectors; the second is written behind the end of the table exactly if there was room for one only |
| DmgIo.DataRun | dmg/io.c:195-239 | a run gives back its chunk; it is stored compressed if and only if it has fewer than fifteen sectors or the whole sectors of its compressed form are fifteen fewer; just these bytes are appended |
| DmgIo.SavesEnough | dmg/io.c:218-236 | the unsigned test finds just the chunks of at least fifteen sectors whose compressed form does not take fifteen whole sectors less; a chunk of that size is stored compressed only if that makes it smaller |
| DmgIo.InsertBLKX | dmg/io.c:22-275 | the table of runs is left if and only if the plan overflows it; if not, there is one run for each chunk of the plan and one or two for each stretch of skipped sectors, in its order, between the comments; each holds its chunk compressed or as it is, just as that pays, their bytes lie one behind the other, and nothing else is written; what they hold is the input if and only if zeros are not to be skipped or lie right; and each fits into its own size if and only if every small chunk shrinks |
| DmgIo.CopyPages | dmg/io.c:347-363 | copying page by page is one write |
| DmgIo.ExtractRun | dmg/io.c:300-376 | a run that gives a part of an image, and fits into the buffer when it is compressed, appends that part to the output; a run without data, or of another kind, appends zeros; it fails exactly if bytes are missing or do not fit into the buffer |
| DmgIo.ExtractBLKX | dmg/io.c:279-381 | takes out the whole image of which the runs are a table |
| DmgIo.InsertThenExtract | dmg/io.c:22-381 | what was put in is taken out again if and only if the table is not left, and zeros were not to be skipped or lay right |
| DmgFile.RunOf | dmg/dmgfile.c:81-90 | every sector of a table lies in one of its runs |
| DmgFile.PartsDescribe | dmg/dmgfile.c:74-91 | tables of the parts of an image, whose runs each fit into their own size, describe all of it |
| DmgFile.Dmg.CacheRun | dmg/dmgfile.c:13-72 | the cache holds the run's part of the image, whose compressed bytes fit into the buffer they are read into |
| DmgFile.Dmg.CacheOffset | dmg/dmgfile.c:74-91 | the cache holds a run in which the location lies, if it lies in the image |
| DmgFile.Dmg.CachedPart | dmg/dmgfile.c:115 | the copied part is the right one although the offset is cut to 32 bits, since a run that is longer is zero |
| DmgFile.Dmg.Read | dmg/dmgfile.c:93-125 | ends, and reads the bytes of the image behind the partition's offset, whatever run was cached |
| DmgFile.Dmg.constructor | dmg/dmgfile.c:191-192 | opening fetches the first run |
| DmgFile.ReadAll | dmg/dmgfile.c:93-125 | any reads, one after the other, give the bytes of the image |
| DmgFile.InsertThenRead | dmg/dmgfile.c:13-125 | sectors put into an image are read through the cache just as they are taken out if and only if the table is not left and every small chunk shrinks |
| PlistTags.ScanOver | ipsw-patch/plist.c:35-54 | over a text whose tags come out even, the search for the closing tag goes on at the depth it had |
| PlistTags.ElementNet | ipsw-patch/plist.c:35-54 | an element around such a text comes out even itself, at any depth |
| PlistTags.ElementIsNext | ipsw-patch/plist.c:6-63 | an element, whatever follows it, is read as name and text if and only if the text comes out even behind its opening tag |
| PlistTags.EmptyElementIsNext | ipsw-patch/plist.c:26-33 | an empty element is read as such |
| PlistTags.TextIsEven | ipsw-patch/plist.c:35-60 | whatever is read as the text of a tag comes out even |
| PlistTags.ElementCut | ipsw-patch/plist.c:6-63 | an element in a text that has been cut off is read with the text up to where the scan stops, or not at all |
| PlistTags.EvenOnceOnly | ipsw-patch/plist.c:35-54 | a string that comes out even by itself, but not inside a dictionary |
| PlistValues.IntRead | ipsw-patch/plist.c:279 | printing a number and scanning it gives the number |
| PlistValues.NumberInText | ipsw-patch/plist.c:279 | blanks, a sign and digits, with anything behind them, are read as that number, if it is one of 32 bits |
| PlistValues.NoNumberInText | ipsw-patch/plist.c:279 | without a digit no number is read |
| PlistValues.CoreNet | ipsw-patch/plist.c:307-465 | the printed form of a printable value, nested to any depth, comes out even wherever it is scanned |
| PlistValues.ValueRead | ipsw-patch/plist.c:229-305 | the printed form of a value is read as that value |
| PlistValues.EntriesRead | ipsw-patch/plist.c:229-305 | printed entries are read as these entries, in their order |
| PlistValues.ValuesRead | ipsw-patch/plist.c:124-181 | printed values of an array are read as these values |
| PlistValues.RootRoundTrip | ipsw-patch/plist.c:467-507 | a printable property list is read as the dictionary it was, with the lines in front skipped |
| PlistValues.FirstDict | ipsw-patch/plist.c:471 | the root is looked for at the first place where its tag is |
| PlistValues.FirstLine | ipsw-patch/plist.c:489 | the first line in front of the root, letter by letter |
| PlistValues.SecondLine | ipsw-patch/plist.c:489 | the second line |
| PlistValues.ThirdLine | ipsw-patch/plist.c:489-501 | the third line, and the one behind the root |
| PlistConverse.ParsedEntriesAreSound | ipsw-patch/plist.c:229-305 | whatever is parsed has even texts, integers of 32 bits, and no empty dictionaries inside |
| PlistConverse.EntriesWhole | ipsw-patch/plist.c:229-305 | entries that are parsed as they were printed have been read each with just its own text, even from a text that was cut off |
| PlistConverse.ComesBack | ipsw-patch/plist.c:467-507 | any property list comes back if and only if it is printable |
| PlistConverse.EmptyDictIsLost | ipsw-patch/plist.c:229-305 | an entry whose value is an empty dictionary is not read back |
| Plist.GetNextTag | ipsw-patch/plist.c:6-63 | the pointers end at the tag that the reference reading finds |
| Plist.FindClose | ipsw-patch/plist.c:35-54 | the loop with its depth counter stops where the reference scan does |
| Plist.GetXmlFromDictionary | ipsw-patch/plist.c:384-465 | prints a dictionary, and all in it, at its depth |
| Plist.GetXmlFromArrayValue | ipsw-patch/plist.c:307-382 | prints an array, and all in it, at its depth |
| Plist.GetXmlFromRoot | ipsw-patch/plist.c:483-507 | prints the header, the dictionary and the end |
| Plist.CreateDictionary | ipsw-patch/plist.c:229-305 | the loop over key and value tags reads the entries |
| Plist.CreateArray | ipsw-patch/plist.c:124-181 | the loop over value tags reads the values |
| Plist.CreateRoot | ipsw-patch/plist.c:467-481 | finds the dictionary and reads it |
| Plist.PrintAndParse | ipsw-patch/plist.c:467-507 | a property list that fits the buffers comes back from printing and parsing if and only if it is printable: its keys and strings come out even at each depth at which they are scanned, its integers are of 32 bits, and no dictionary inside it is empty |
| Plist.BracketsAreLost | ipsw-patch/plist.c:35-54 | a bracket in a string is not read back |
| Sha1Stream.CountStep | dmg/checksum.c:269-271 | the upper word of the count of bits is right if and only if the chunk is below 2^29 bytes or the lower word overflows |
| Sha1Stream.LongChunkCountsTwice | dmg/checksum.c:269-271 | a first chunk of 2^29 bytes, for which the upper word is two instead of one |
| Sha1Block.NextWord | dmg/checksum.c:180-183 | sixteen words that are overwritten in turn, and swapped when they are first read, give the eighty words of the schedule |
| Sha1Block.SwappedIsBig | dmg/checksum.c:180-181 | the two masks turn a word that was read with its low byte first into one with its high byte first |
| Sha1Block.Mix | dmg/checksum.c:185-190 | each of the five macros is a round of section 7 of FIPS PUB 180-1, with the roles of the variables moved on by one |
| Sha1Block.Transform | dmg/checksum.c:193-248 | the eighty unrolled macros and the additions are the step from block to block of FIPS PUB 180-1 |
| Sha1Block.BytesAreWords | dmg/checksum.c:300-303 | the bytes of the digest are the words of the state, the high byte of each first |
| Sha1Block.DigitsUpAndDown | dmg/checksum.c:252-261 | the initial words are the sixteen digits up and down again |
| Sha1Stream.FoldMore | dmg/checksum.c:272-281 | bytes behind a message do not change the state after its blocks |
| Sha1Stream.Sha1.Absorb | dmg/checksum.c:272-281 | the state is that after all whole blocks of the message, and the rest is in the buffer |
| Sha1Stream.Sha1.Update | dmg/checksum.c:265-282 | state, buffer and place are those of the message and the chunk together, however long the chunk; the count is right exactly as said above |
| Sha1Stream.Sha1.PadZeros | dmg/checksum.c:296-298 | byte after byte, zeros up to eight bytes short of a block |
| Sha1Stream.Sha1.Final | dmg/checksum.c:286-304 | the digest is that of the message with a one bit, zeros and the count; if the count is right, it is that of section 7 of FIPS PUB 180-1 |
| Sha1Stream.Hash | dmg/checksum.c:252-304 | however a message is cut into chunks below 2^29 bytes, its digest is the one of FIPS PUB 180-1 |
| UnicodeCompare.NextChar | hfs/fastunicodecompare.c:391-396 | skips ignored characters and folds the next that counts |
| UnicodeCompare.FoldedIsFolding | hfs/fastunicodecompare.c:391-396 | looking a character up in a table of a folding is folding it |
| UnicodeCompare.FastUnicodeCompare | hfs/fastunicodecompare.c:379-418 | is the order of words on the folded names without ignored characters and with colons as slashes, for any folding table |
| UnicodeCompare.TotalPreorder | hfs/fastunicodecompare.c:379-418 | the comparison is a total preorder, whose equal names are those that mean the same |
| UnicodeCompare.SameFolding | hfs/fastunicodecompare.c:391-402 | exchanging a character for one with the same folding makes no difference |
| Base64.BytesBack | common/base64.c:63-65 | the decoder's shifts and masks undo the encoder's, for all three bytes |
| Base64.LettersInOrder | common/base64.c:127 | the letters are those of table 1 of RFC 4648, in its order |
| Base64Text.Writer.CheckLineEnd | common/base64.c:112-124 | a full line, and no other, is followed by a line end and the tabs of the next one, and the count begins anew |
| Base64Text.LaidInLines | common/base64.c:112-124 | a line holds width + 1 characters, and is followed by a line end, the tabs, and the other lines |
| Base64Text.LaidIsSignificant | common/base64.c:112-124 | without line ends and tabs, characters in lines are what they were |
| Base64Text.ConvertBase64 | common/base64.c:126-183 | the text is the tabs, the encoding of section 4 of RFC 4648 in lines, where no line end follows an equals sign at the end, a line end, and the zero character; so without layout it is the encoding, for any width; the buffer is left if and only if there are bytes and the tabs are 100 times a power of two |
| Base64Text.NextLetter | common/base64.c:27-72 | each letter brings the group on by one value, and the fourth completes three bytes |
| Base64Text.GroupMore | common/base64.c:59-72 | the fourth value completes three bytes, and the next group starts from zeros |
| Base64Text.DecodeBase64 | common/base64.c:8-97 | any text gives the bytes of its whole groups of four letters, and, if it has equals signs, those of the last group without as many as there are signs; text that encodes data, with any characters between that are no letters, is read as these data |
| Base64Text.RoundTrip | common/base64.c:8-183 | any bytes come back, whatever the width of the lines and the number of tabs, if and only if the buffer is not left |
| Base64Text.HundredTabs | common/base64.c:140-147 | a hundred tabs fill the buffer, fewer never do |

## Left out

- Compressor.CompressLzss: the source buffer is a value; allocation failures and signed overflow of lengths are not modelled.
- Decompressor.DecompressLzss: requires an output buffer that is large enough, since the code does not check it.
- The file header of LZSS files, and reading and writing it.
- HfsRawFile.RawFile.Allocate: requires that the volume's last block (that of the alternate volume header) is marked used; the source relies on it when it tries the block behind the last extent. Saving the volume header and the catalog record is not part of this model.
- HfsRawFile.RawFile.Write: requires a write that ends behind byte 0, and, if the file must grow, overflow records that can be read, since the source ends the program when it cannot read them; the source follows a null pointer when an empty file is written at 0 with no bytes. Running out of blocks, which ends the program, is the result false.
- HfsRawFile.RawFile.ReadExtents: requires records that describe a list of non-empty extents; the panics on inconsistent records are not modelled.
- The bitmap, the node map, the overflow tree and the volume header are fields beside the image, not blocks in it; block numbers and sizes are unbounded integers.
- HfsBTree.BTree.AddToBTree: requires one free node per level and one for a new root; growing the tree's file and map nodes behind the header node are not modelled.
- HfsBTree.BTree.RemoveFromBTree: requires a tree with a root, as the source does. Going astray is the end of the model: what the source does then depends on the data it takes for a node number.
- Keys that change their length inside an index node, and the second attempt they may need: keys have one size, and are numbers in the order of the comparison function. The data of a record is one number.
- Freeing memory, failing reads and writes of nodes, and the printing checkers themselves.
- HfsPage.Page.DoAddRecord: requires room for the record, as the callers check before. The links and the header record of a page's descriptor, and the calls that repeat an operation when a longer key does not fit, are not modelled.
- HfsCatalog.Catalog.Move: a folder is not moved into itself under an empty name. Operations name keys and folder ids; looking up paths and links, dates and permissions, and giving back a removed file's blocks and attributes are not part of this model. The catalog's tree is a map, as the B-tree's theorems allow.
- HfsCompressed.CompressedFile.Close: requires that a file that was written to is not empty (the source writes to a fork that was never opened when it is empty) and that the fork's numbers fit into 32 bits. The fork is a plain array, as the theorems on files allow; the volume is not full.
- HfsCompressed.CompressedFile.Open: requires that the volume holds a file as Close leaves it, or none; what the source does with damaged forks is not modelled.
- HfsCompressed.CompressedFile.CompressedWrite: requires a place in the file or right behind it; the source leaves a gap unset.
- The sizes of the on-disk structures of includes/hfs/hfsplus.h, which is not part of this model, are constants.
- DmgIo.InsertBLKX: checksums and the header of the table are not modelled, nor are reads and writes that fail. The compression library is a function whose output fits the buffer, with an inverse.
- DmgIo.ExtractBLKX: the output is extended at its end; streaming the library's output through a buffer is one write.
- DmgFile.Dmg.Read: requires that the place lies in the image, since the source goes on for ever or reads what is not cached when it does not, and tables whose runs fit into their own size.
- Plist.PrintAndParse: requires lines that fit the printer's buffers of 4096 and 100 characters. Data values, which the source reads as strings, are not modelled; linked lists of values are sequences.
- Sha1Stream.Sha1.Final: wiping the context is not modelled. The other checksums of the file are left out as easy.
- UnicodeCompare.FastUnicodeCompare: the folding table is a parameter, of the two-level form that the source reads.
- Base64Text.DecodeBase64: lengths are integers: more equals signs than bytes, for which the source's unsigned length wraps around, give a length below zero. The values of a group that were never set are values of letters.
- USB, DFU and device code, command lines, PNG and tar files, and the programs that put these parts together.
