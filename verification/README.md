# EROFS compressed files, from both sides

A Dafny model of the parts of the EROFS reader and writer that have to agree with each
other byte for byte, and proofs that they do. `dafny verify dfyconfig.toml` checks it.

The writer cuts a file into logical clusters (lclusters), collates them greedily into
physical clusters (pclusters), and leaves one index entry per lcluster in one of two
formats. The reader opens that index, walks it from a byte offset to an extent, and fills
the caller's buffer extent by extent through an LRU cache. Around that core stand the image
builder, directories, chunked files, extended attributes, the LZ4 prefix decoder and the
symlink resolver.

## What is proved

* **A built image reads back** (`BuildImages.BuildImage`). One method plans every node, decides
  on inlining, lays out the inodes, encodes the directories, assigns the blocks, encodes the
  trailers and emits the image. Any range of any flat, inline, chunked or compressed file and of
  any link then comes back byte for byte, and every directory lists its children and resolves
  each to its inode. Of a compressed file more is asked: `WriteThenRead.SideConditions`, which
  the writer does not check, and `WriteThenRead.LawfulCodec`. `BuildImages.UsualFileIsSound` and
  `WriteThenRead.LawfulCodecsExist` show that both can be had.
* **The side conditions are exact.** An index reads back if and only if it starts where the
  reader looks, or its packs survive (`TrailerReadBack.TrailerReadsBackIff`); given that, the
  file reads back if and only if no compressed pcluster decodes to more than 12 MiB and each has
  its frame in the first of its blocks (`WriteThenRead.WrittenReadsBackIff`). With
  `target_pcluster_blocks` of 2 and more that is no LZ4 pcluster with blocks of its own.
  * The legacy index: the body must end on 8 bytes (`LegacyIndex.LegacyReadsBackIffAligned`).
  * The compact index, for every lcluster size, distance and number of blocks the planner can
    emit (`CompactLimits.CompactReadsBackIff`): distances fit their field and none with bit 11
    set has an entry behind it in its pack; where a slot is one bit too narrow for offset and
    type, as for 8 KiB lclusters in the 2B packs the writer always asks for, whole packs hold no
    NONHEAD; where it is narrower still they hold only uncompressed lclusters; and with several
    blocks to a pcluster no pack has a second head (`PlanIndex.SeveralBlocksSurviveIff`).
* **The bounded forward scan** (`ExtentMap.BoundedScanIsEnough`) reports the true end if and only
  if the next head is in reach. Compressed and interlaced extents that long are refused. Fills
  of any size are what they would be without the bound if and only if no plain head that is not
  interlaced has its next one out of reach (`ScanReach.BoundedFillsAgreeIff`); those a read asks
  for, if and only if each such next head starts a block and no tail is inlined
  (`ScanReach.BoundedReadsAgreeIff`). The extents of a well-formed index partition the file if
  and only if no head at all is out of reach (`ExtentMap.ExtentsPartition`);
  `ExtentMap.FarIndex` is a well-formed index where one is.
* **Cached equals uncached**, over all runs, if and only if a key names one result
  (`PclusterCache.CachedEqualsUncachedIff`), which over all codecs and devices is a condition on
  the index: cached extents with one key have one codec, block count and prefix flag
  (`CacheKeys.CachedReadsAgreeIff`). Indexes whose heads start inside their lclusters meet it;
  for one that does not, two reads are shown of which the second differs (`CacheKeys.ClashingRun`).
* **The read path as it runs.** `Filesystems.Filesystem` writes into buffers in place and goes
  through the cache. On any index it ends, stays inside its part of the buffer and keeps every
  cached value as long as its key says; on inodes whose cache keys name one recipe each, the
  exact condition above, it gives exactly the uncached result, whatever was read before.
* **The read path is one content sequence.** Reads are slices of it (`FileContent.ReadsAreSlices`,
  `FileContent.AdjacentReads`), and it is what the layout says: flat, inline, chunked with
  holes, compressed, with or without a fragment in the packed inode.
* **Nothing overlaps** in a built image, and every region still holds what was written.
* Inline attributes read back if and only if none of them looks like padding
  (`Xattrs.XattrsReadBackIff`).

Rust's errors are one failure value. Device reads are all or nothing. Bytes are numbers
below 256; shifts and masks are defined by halving (`Bits`), which keeps the bit-packing
proofs inductive. A file's blocks may lie on extra devices; compressed data is on the
primary device, as in the code.

## Where code and documentation disagree

The model follows the code. The comment on `encode_zmap_header` (`src/mkfs.rs:1043-1051`)
swaps the codec byte and the cluster-bits byte; the code writes the codec first. The comment
on `lookup` (`src/fs.rs:532-534`) speaks of a hash order; entries are in byte order. The
comments on the cache (`src/fs.rs:153-158`) name a key of two parts; it has four.

## Model

| member | source | states |
|---|---|---|
| CompactPack.PackWriteEntry | src/mkfs.rs:1189-1200 | ORing an entry into a bitstream in place changes exactly the stream's number by that entry at its bit position, and no byte outside |
| CompactPack.DecodeOfPacked | src/zmap.rs:1127-1150 | entries of 14 or 16 bits packed side by side, across byte boundaries, are each cut back out exactly |
| CompactPack.CompactCountSimple | src/zmap.rs:1503-1533 | the backward walk that jumps by distances computes the recursive count, errors included |
| CompactPack.CountSimpleCountsHeads | src/zmap.rs:1503-1533 | that count is 1 plus the HEAD and PLAIN entries before the position, also in packs that open inside a pcluster |
| CompactPack.CompactCountBigPcluster | src/zmap.rs:1544-1590 | the linear walk returns the sum of the block counts recorded before the position |
| CompactPack.Delta0IsDistance | src/zmap.rs:1603-1630 | a NONHEAD's distance is the writer's, also for the last entry of a pack, which derives it from its neighbour |
| CompactIndex.GeometriesAgree | src/mkfs.rs:1147-1172 | writer and reader cut the index into the same regions of the same total length |
| CompactIndex.RegionsAligned | src/zmap.rs:516-527 | the first region holds whole packs whenever more follows, and 2B packs start on 32-byte boundaries |
| CompactIndex.LocationsInjective | src/zmap.rs:1077-1122 | no two lclusters share a pack slot, and packs never overlap |
| CompactIndex.LocationInside | src/zmap.rs:1077-1122 | every pack lies inside the index array |
| CompactIndex.LocationsCover | src/zmap.rs:808-836 | every byte of the index array belongs to the pack of some lcluster |
| CompactIndex.FindBase | src/mkfs.rs:1265-1288 | the base of a pack is one before the address of its first HEAD or PLAIN entry, or 0 |
| CompactIndex.WriteEntries | src/mkfs.rs:1256-1288 | a zeroed bitstream ends up holding all entries of the pack and nothing else changes |
| CompactIndex.EmitPack | src/mkfs.rs:1256-1288 | one pack: bitstream, then base address, in place |
| CompactIndex.EmitRegion | src/mkfs.rs:1290-1315 | a region is its packs in order, and leaves the rest of the buffer zero |
| CompactIndex.EncodeCompactIndex | src/mkfs.rs:1249-1320 | the emitted bytes are the three regions in order |
| CompactRoundTrip.PackReadsBack | src/zmap.rs:1168-1230 | any entry of an emitted pack reads back: type, offset, absolute address or distance |
| CompactRoundTrip.BigPackReadsBack | src/zmap.rs:1155-1230 | in a pack of big pclusters that lie one behind the other, base plus block count is each head's own block address; markers and distances read back too |
| CompactRoundTrip.IndexLength | src/mkfs.rs:1115-1130 | the emitted index is as long as the geometry says |
| CompactRoundTrip.ReadIsFromPack | src/zmap.rs:1155-1230 | reading any lcluster is reading one emitted pack at its slot, wherever the index lies on the device |
| CompactRoundTrip.CompactIndexReadsBack | src/mkfs.rs:1249-1320 | compact index round trip, for every well-formed entry list whose fields fit |
| CompactLimits.PackMisreads | src/zmap.rs:1603-1630 | behind a distance with bit 11 set the next entry of the pack is misread or refused |
| CompactLimits.LargeDistanceMisreads | src/mkfs.rs:1447-1460 | a distance wider than its field is misread wherever it stands, also where it is derived |
| CompactLimits.SpillMisreads | src/mkfs.rs:1189-1200 | a type that leaves its slot falls into the offset of the head behind it |
| CompactLimits.LastMisreads | src/mkfs.rs:1189-1200 | out of the last slot of a whole pack it is cut off, and another type is read |
| CompactLimits.TwoLclustersMisread | src/mkfs.rs:2697-2718 | 8 KiB lclusters in a 2B pack: a head with one more lcluster reads back as type 3 |
| CompactLimits.PackReadsBackIff | src/zmap.rs:564-572 | a pack reads back, entry by entry, exactly when its slots survive and its addresses count up from its base |
| CompactLimits.SeveralBlocksCountUpIff | src/mkfs.rs:1265-1288 | with several blocks to a pcluster the addresses of a pack count up exactly when it has no second head |
| CompactLimits.WidePackSurvives | src/zmap.rs:564-572 | the slots of a whole pack that are one bit too narrow survive without NONHEADs; two or more, only if all is uncompressed |
| CompactLimits.CompactReadsBackIff | src/mkfs.rs:1249-1320 | the whole index reads back exactly when each pack survives, whatever lcluster size, distances and addresses the planner emits |
| LegacyIndex.LegacyIndexReadsBack | src/zmap.rs:1039-1072 | legacy index round trip, entry by entry |
| LegacyIndex.ShiftedFirstEntry | src/mkfs.rs:2669-2692 | four bytes late, the halves of the first address are taken for its type and its offset |
| LegacyIndex.LegacyReadsBackIffAligned | src/zmap.rs:702-711 | a legacy index of any length reads back exactly when the body ends on an 8-byte boundary |
| ZMapReader.CompactClusterofsInside | src/zmap.rs:564-572 | with lclusters of 4 KiB or more no compact entry can start outside its lcluster |
| ExtentMap.WalkBack | src/zmap.rs:1322-1367 | the loop back to the head, through NONHEADs and over spilled-into heads |
| ExtentMap.WalkForward | src/zmap.rs:1378-1427 | the bounded loop forward to the next head, remembering the first block count |
| ExtentMap.ExtentFrom | src/zmap.rs:1369-1466 | everything about the extent of the head just found |
| ExtentMap.PclusterExtent | src/zmap.rs:1299-1466 | the whole resolution, for every device and every offset |
| ExtentMap.WalkFindsOwner | src/zmap.rs:1322-1367 | on a well-formed index the walk ends at the last head that starts at or before the offset |
| ExtentMap.BoundedScanIsEnough | src/zmap.rs:1378-1427 | on any bounded, readable index the scan reports the true end exactly when the next head is in reach; otherwise both extents are longer than a pcluster may be |
| ExtentMap.ExtentContains | src/zmap.rs:1299-1466 | every byte of the file has an extent that strictly contains it |
| ExtentMap.ExtentsPartition | src/zmap.rs:1299-1466 | on a well-formed index the extents partition the file exactly when every head's next one is in reach |
| ExtentMap.FarHeadIsMissed | src/zmap.rs:1378-1427 | a well-formed index with a head out of reach: its bytes lie in two extents |
| ScanReach.LongExtentIsRefused | src/fs.rs:219-229 | no byte of an over-long compressed or interlaced extent is ever read |
| ScanReach.BoundedFillsAgreeIff | src/zmap.rs:1378-1427 | on a device that holds those pclusters, fills of any size are what they would be without the bound exactly when no plain, not interlaced head has its next one out of reach |
| ScanReach.BoundedReadsAgreeIff | src/fs.rs:872-913 | on a well-formed index, fills that stay in a block, as all do that a read asks for, agree exactly when each such next head starts a block and no tail is inlined |
| ScanReach.FarHeadReadsWrong | src/fs.rs:1160-1166 | 3073 lclusters on, a block comes from the wrong pcluster, and a read from inside it from the right one |
| ScanReach.FarIndexIsOnDisk | src/zmap.rs:1039-1072 | 24600 bytes of legacy index are enough for it |
| FragmentWalk.WorkOutFragmentRange | src/zmap.rs:914-1024 | the second index walker, as the loop it is |
| FragmentWalk.WalkersAgree | src/zmap.rs:960-1010 | both walkers end at the same head, well-formed index or not, if heads start inside their lclusters |
| FragmentWalk.FragmentIsLastExtent | src/zmap.rs:914-1024 | the fragment is exactly what the owner of the last byte covers, sentinel entries included |
| Planner.PlanCompressedPclusters | src/mkfs.rs:1369-1524 | every plan it returns is well formed, and it refuses only for the listed reasons |
| Planner.Collate | src/mkfs.rs:1402-1524 | the greedy loop keeps a well-formed plan at every step |
| Planner.StartFresh | src/mkfs.rs:1465-1508 | a fresh pcluster is HEAD1 if it shrinks and fits, else PLAIN and closed at once |
| Planner.Finalize | src/mkfs.rs:1539-1552 | closing the open pcluster keeps the plan well formed, and it could not have been longer |
| Planner.SourcesAreTheFile | src/mkfs.rs:1402-1524 | the pclusters' sources concatenate to the file |
| Planner.PlanIsUnique | src/mkfs.rs:1402-1524 | a file has at most one plan: greedy choices leave no freedom |
| Trailer.EncodeZmapTrailer | src/mkfs.rs:2616-2773 | the appends build exactly header, padding, index and inlined bytes |
| Trailer.PlannedSizeIsEmitted | src/mkfs.rs:2045-2132 | the size planned before the inode has an address is the emitted length, so the emission check never fires |
| Trailer.PlanTail | src/mkfs.rs:2084-2130 | when the last pcluster is inlined, and what that leaves of the plan |
| Trailer.AssignBlocks | src/mkfs.rs:525-547 | pcluster addresses are prefix sums of block counts, or the count overflows |
| Trailer.AddressesAreConsecutive | src/mkfs.rs:532-545 | pclusters get addresses one behind the other, also when the last gives up its blocks |
| TrailerReadBack.HeaderOpens | src/zmap.rs:657-763 | the emitted header opens to the map the writer had in mind, with the same geometry |
| TrailerReadBack.MapFacts | src/zmap.rs:808-861 | the opened map has the index's length, and finds the inlined bytes right behind it |
| TrailerReadBack.EntriesReadBack | src/zmap.rs:1029-1072 | either index that survives reads back entry by entry |
| TrailerReadBack.TrailerReadsBackIff | src/zmap.rs:657-763 | opened as the reader opens it, a trailer's index reads back exactly when it survives |
| PlanIndex.PlanIndexIsWellFormed | src/mkfs.rs:1402-1524 | the index a plan leaves is well formed: entry 0 a head, every distance exact |
| PlanIndex.HeadExtent | src/zmap.rs:1369-1466 | each head's extent is its pcluster's, with the address it was assigned |
| PlanIndex.PlanEntriesWellFormed | src/mkfs.rs:2717-2731 | planned entries meet what the compact round trip asks, however long the pclusters: addresses count the heads before them |
| PlanIndex.UsualPlanSurvives | src/mkfs.rs:2697-2731 | with 4 KiB lclusters and one-block pclusters of at most 2048 of them the index survives |
| PlanIndex.SeveralBlocksSurviveIff | src/mkfs.rs:532-545 | with several blocks to a pcluster a compact index survives exactly when its slots do and no pack has a second head |
| WriteThenRead.PaddedDecodes | src/mkfs.rs:1561-1590 | a frame in its padding decodes to its source, at either end of the block |
| WriteThenRead.PclusterHolds | src/fs.rs:1046-1270 | the reader finds each pcluster's source, in its block or behind the index, compressed or plain |
| WriteThenRead.WrittenReadsBack | src/fs.rs:711-751 | any range of the written file reads back, both formats, inlined tail or not, whatever the number of blocks to a pcluster |
| WriteThenRead.WrittenReadsBackIff | src/fs.rs:219-229 | given its index, the file reads back exactly when no compressed pcluster decodes to more than a pcluster may and each has its frame in the first of its blocks |
| WriteThenRead.SecondBlockIsLost | src/mkfs.rs:1561-1590 | a frame that does not lie in the first block, at either end of its blocks, is not decoded to its source |
| WriteThenRead.LawfulCodecsExist | src/decompress.rs:250-298 | the laws asked of a codec can be met, for every algorithm and padding, by one that compresses something |
| BuildThenRead.BlocksWereWritten | src/mkfs.rs:853-868 | emitted pcluster blocks lie at the addresses their entries carry |
| BuildThenRead.BuiltReadsBack | src/mkfs.rs:525-868 | a file whose slot and blocks an image holds reads back, whoever put them there |
| BuildNodes.PlanNode | src/mkfs.rs:1947-2150 | a planned node: the size of its trailers, and for a compressed file its plan and the inlining decision |
| BuildNodes.EncodeFile | src/mkfs.rs:764-809 | inode, xattrs and map trailer of a compressed file fill the slot planned for them exactly |
| BuildNodes.EncodePlain | src/mkfs.rs:764-793 | so do inode, xattrs and inline tail or chunk map of any other node |
| BuildNodes.EncodeData | src/mkfs.rs:2492-2549 | the data of a node; a directory's blocks list the NIDs of its children's slots |
| NodeReads.TotalChunkedSize | src/mkfs.rs:2152-2183 | the size of a chunked file is that of its content, refused exactly when its chunks are badly cut |
| NodeReads.AssignChunks | src/mkfs.rs:506-524 | each chunk's address is behind the blocks of the chunks before it |
| NodeReads.ChunksWereWritten | src/mkfs.rs:843-852 | placed chunks lie where their map says |
| NodeReads.PlacedDirResolves | src/fs.rs:542-572 | a placed directory lists its entries and resolves them, and no other name |
| BuildImages.BuildImage | src/mkfs.rs:434-868 | every file of a built image reads back, every directory resolves its children, and a build is refused only for the listed reasons |
| BuildImages.UsualFileIsSound | src/mkfs.rs:187-217 | nothing more is asked of a file with 4 KiB lclusters and at most 2048 to a pcluster |
| Images.StripUndoesPad | src/decompress.rs:250-298 | stripping leading zeros gives the frame back when it does not start with one |
| FileContent.AdjacentReads | src/fs.rs:711-751 | two neighbouring reads succeed exactly when their union does, with the same bytes |
| FileContent.ReadsAreSlices | src/fs.rs:711-751 | any read inside one that succeeds gives its slice |
| FileContent.FlatFileContent | src/fs.rs:810-825 | a flat file is its blocks in a row, the tail behind the inode last |
| FileContent.ChunkedFileContent | src/fs.rs:826-843 | a chunked file is its chunks in order, a missing one as zeros |
| CompressedContent.WellFormedIsPartitioned | src/zmap.rs:1299-1466 | without a fragment a well-formed index partitions the whole file exactly when no head is out of reach |
| CompressedContent.FragmentIsPartitioned | src/zmap.rs:914-1024 | with a fragment it partitions what is in front of it, under the same condition |
| CompressedContent.InterlacedIsRotation | src/fs.rs:214-216 | an interlaced extent read in full is its stored bytes rotated, none lost |
| CompressedContent.FillLoopCovers | src/fs.rs:872-913 | the fill loop delivers exactly the extents and fragment bytes of its range |
| CompressedContent.CompressedFileContent | src/fs.rs:711-913 | a compressed file is its extents in order and then its fragment; block boundaries leave no trace |
| CompressedContent.FragmentFileContent | src/fs.rs:993-1022 | a file with a fragment is its own extents followed by that range of the packed inode |
| CompressedContent.FileReadsAs | src/fs.rs:711-913 | if every extent holds its part of a sequence, every read is a slice of that sequence |
| CompressedContent.FileReadsAsIff | src/fs.rs:711-913 | a file reads as a sequence exactly when every extent holds its part of it |
| ChunkFile.EncodeChunkmap | src/mkfs.rs:2779-2806 | the map is one entry per chunk, in either entry size |
| ChunkFile.ChunkAddressReadsBack | src/chunked.rs:120-151 | each chunk's address reads back and names the primary device |
| ChunkFile.ChunkedFileReadsBack | src/mkfs.rs:506-524 | a written chunked file reads back, with zeros for its holes |
| PclusterCache.TrimKeepsNewest | src/fs.rs:84-109 | eviction never reaches a newest entry that fits on its own |
| PclusterCache.TrimFits | src/fs.rs:102-108 | eviction keeps the longest run of recent entries that fits the byte limit |
| PclusterCache.Cache.constructor | src/fs.rs:73-82 | an empty cache that accounts for itself |
| PclusterCache.Cache.Lookup | src/fs.rs:1277-1289 | a hit becomes most recent, and hits and misses count only when caching is on |
| PclusterCache.Cache.Insert | src/fs.rs:84-109 | bytes stay the sum of the retained lengths within both limits, and the new value is most recent |
| PclusterCache.SecondIsServedFirst | src/fs.rs:1180-1210 | a second request under a used key is served the first one's bytes |
| PclusterCache.CachedEqualsUncachedIff | src/fs.rs:1180-1296 | over all runs cached equals uncached exactly when a key names one result |
| CacheKeys.StartDeterminesExtent | src/zmap.rs:1369-1466 | in a bounded index the first byte of an extent names its head and so all of it |
| CacheKeys.RecipeDecides | src/fs.rs:1180-1270 | key, codec, block count and prefix flag determine the decoded bytes |
| CacheKeys.CachedReadsAgreeIff | src/fs.rs:1180-1296 | over all runs, codecs and devices cached reads equal uncached ones exactly when cached extents of one key have one recipe |
| CacheKeys.BoundedKeysAgree | src/fs.rs:1180-1200 | they do when no head starts outside its lcluster |
| CacheKeys.UnboundedKeysClash | src/fs.rs:1180-1200 | two heads of different codecs that share a key, each reached by an offset |
| CacheKeys.ClashIsOnDisk | src/zmap.rs:1039-1072 | forty bytes of legacy index are enough for them |
| CacheKeys.ClashingRun | src/fs.rs:1180-1296 | and a device and codec where the second of two reads gets what it would not without the cache |
| Filesystems.KeysAreFaithful | src/fs.rs:1180-1200 | among clean inodes, whose cached extents of one key have one recipe, the key determines the decoded bytes |
| Filesystems.BoundedIsClean | src/fs.rs:1180-1200 | inodes whose heads start inside their lclusters are clean |
| Filesystems.ServeKeepsTruth | src/fs.rs:1277-1296 | reads of any inode leave every cached value as long as its key says, and true for clean inodes |
| Filesystems.CopyRotated | src/fs.rs:1106-1115 | the byte loop over an interlaced extent |
| Filesystems.Filesystem.constructor | src/fs.rs:300-335 | a filesystem with an empty cache |
| Filesystems.Filesystem.DecodedExtent | src/fs.rs:1196-1270 | cache or codec, the result has the extent's length, and on clean inodes is the codec's; the cache changes as one request makes it |
| Filesystems.Filesystem.CopyPlain | src/fs.rs:1053-1166 | uncompressed extents, inlined or not, interlaced or not, land in the buffer in place and nowhere else |
| Filesystems.Filesystem.FillFromExtentInto | src/fs.rs:1024-1270 | on any index nothing outside the room is written; on clean inodes it is exactly the uncached bytes |
| Filesystems.Filesystem.FillFromOnePcluster | src/fs.rs:977-1270 | the same with the redirect to the packed inode, whatever the cache holds |
| Filesystems.Filesystem.ReadCompressedBlock | src/fs.rs:872-913 | the fill loop ends and counts the whole block on every index, and on clean inodes fills it as without a cache |
| Filesystems.Filesystem.ReadDataBlockInto | src/fs.rs:789-862 | one block of any layout |
| Filesystems.Filesystem.ReadBlocksInto | src/fs.rs:722-750 | the block loop of a file read |
| Filesystems.Filesystem.ReadFileInto | src/fs.rs:711-751 | a file read ends, inside its range, on any index; on clean inodes with any cache it gives the uncached result |
| Lz4Prefix.CopyMatch | src/decompress.rs:235-243 | block copy and byte loop both give the overlapping-match definition |
| Lz4Prefix.Length | src/decompress.rs:191-203 | a nibble and its extension bytes |
| Lz4Prefix.ReadLiterals | src/decompress.rs:206-219 | a token and its literals, or a refusal |
| Lz4Prefix.ReadMatch | src/decompress.rs:220-234 | the match behind them, or a refusal |
| Lz4Prefix.DecodeSequence | src/decompress.rs:206-246 | one sequence, cut off where the output ends, stays a prefix of what the block yields |
| Lz4Prefix.DecodePrefix | src/decompress.rs:189-247 | it succeeds exactly when the block yields that many bytes, and the output is their prefix |
| Lz4Prefix.WholeBlockIsProduced | src/decompress.rs:165-188 | what a plain decoder makes of a whole block is what the block yields |
| Lz4Prefix.PrefixOfWholeBlock | src/decompress.rs:165-188 | on a valid block the decoder gives exactly the prefixes of the full decode |
| MetaLayout.PlanMetaLayout | src/mkfs.rs:1772-1789 | every inode takes the least admissible place behind its predecessor |
| MetaLayout.SlotsDisjoint | src/mkfs.rs:1714-1732 | slots are ordered and disjoint |
| MetaLayout.NidsNameSlots | src/inode.rs:233-243 | NIDs are distinct and lead back to the address their inode is written to |
| MetaLayout.StaysInBlock | src/mkfs.rs:1756-1762 | an inode with trailers that fits a block never crosses one |
| MetaLayout.LayoutIsUnique | src/mkfs.rs:1772-1789 | the layout is the only first fit |
| ImageBuilder.WriteRegions | src/mkfs.rs:730-868 | writing ordered regions loses none of them and touches nothing else |
| ImageBuilder.PlaceNode | src/mkfs.rs:478-551 | one node's pieces get consecutive blocks |
| ImageBuilder.PlacePass | src/mkfs.rs:461-551 | one pass over the nodes places exactly the nodes it is for |
| ImageBuilder.AssignDataBlocks | src/mkfs.rs:455-561 | directories, then data: every node's pieces are placed, or the image cannot be addressed |
| ImageBuilder.PlaceOrdered | src/mkfs.rs:455-551 | placed pieces are ordered and stay in their blocks |
| ImageBuilder.RegionsAreDisjoint | src/mkfs.rs:434-868 | no two regions of an image overlap and all lie inside it |
| ImageBuilder.EmitImage | src/mkfs.rs:562-868 | every region still holds what was written when the build ends, and the rest is zero |
| Directory.VisitBlock | src/dir.rs:131-183 | the validating walk hands over exactly the listed entries, and fails where listing fails |
| Directory.FindNameEnd | src/dir.rs:145-163 | a name ends at the next one's start, the last one at a NUL or the block's end |
| Directory.EncodeOneDirBlock | src/mkfs.rs:2551-2569 | dirents in front, names behind, in place, exactly when they fit |
| DirectoryRoundTrip.BlockReadsBack | src/dir.rs:89-183 | a written block lists its entries |
| DirectoryRoundTrip.SortIsSorted | src/mkfs.rs:2510-2522 | the sort orders the children byte-wise and loses none |
| DirectoryRoundTrip.FillBlock | src/mkfs.rs:2524-2541 | the inner loop stops at the first entry that does not fit |
| DirectoryRoundTrip.EncodeDirBlocks | src/mkfs.rs:2492-2549 | the blocks are a greedy packing of all entries, refused exactly when an entry fits no block |
| DirectoryRoundTrip.DirectoryReadsBack | src/mkfs.rs:2492-2549 | the blocks list `.`, `..` and all children in byte order, strictly so for distinct names, up to 64 KiB blocks |
| DirectoryRead.ReadDir | src/fs.rs:502-529 | the listing loop |
| DirectoryRead.Lookup | src/fs.rs:542-572 | lookup is the first match of the full listing, and fails wherever listing fails |
| DirectoryRead.WrittenDirectoryResolves | src/fs.rs:542-572 | a written directory resolves each child to its inode and no other name |
| Xattrs.EncodeInlineXattrs | src/mkfs.rs:2191-2222 | the bytes, their length in terms of the recorded count, and exactly when it is refused |
| Xattrs.ParseInlineXattrs | src/xattr.rs:173-233 | the parser's two loops |
| Xattrs.XattrsReadBackIff | src/xattr.rs:97-103 | attributes read back exactly when none has an all-zero header; otherwise those before it do |
| Xattrs.EncodeDictionary | src/mkfs.rs:661-691 | the prefix dictionary's bytes, and exactly when it is refused |
| Xattrs.ReadPrefixDictionary | src/xattr.rs:395-425 | the dictionary loop with its cursor |
| Xattrs.DictionaryReadsBack | src/xattr.rs:395-425 | a dictionary reads back prefix by prefix |
| Resolve.ResolvePath | src/fs.rs:641-703 | the worklist keeps its node equal to the walked path, ends, and returns the plain lookup of that path |
| Resolve.LookupPath | src/fs.rs:590-596 | plain lookup component by component |
| Resolve.SpliceLaw | src/fs.rs:692-697 | splicing a target in front of the worklist is resolving it first |
| Resolve.WorklistIsNested | src/fs.rs:656-703 | the worklist resolves what the nested definition of following links does, with the same budget |
| Resolve.LinkFreeIsLookup | src/fs.rs:636-640 | on a path without links it is plain lookup |
| Resolve.ResultIsLinkFree | src/fs.rs:656-703 | the path walked in the end holds no link |
| Resolve.SelfLinkFails | src/fs.rs:662-666 | a link to itself is refused |

## Left out

- ReadPath.FillPlainInline: an interlaced inline tail whose bytes cannot be vouched for is refused whenever the block is read; the code refuses it only if the caller asked for one of those bytes (`src/fs.rs:1078-1106`).
- Filesystems.Filesystem.CopyPlain: refuses such a tail in the same way.
- BuildImages.BuildImage: the superblock and the inodes with their xattrs come from parameters that keep to the sizes planned for them; the length checks at emission are proved never to fire and left out.
- Filesystems.Filesystem.FillFromOnePcluster: a packed inode that itself carries a fragment is excluded by the ghost `level`; the code would recurse.
- The codecs are a parameter: LZ4, LZMA, DEFLATE and ZSTD decoding and compression are not modelled, except LZ4's prefix decoder.
- Integers do not wrap. The 16-bit and 32-bit fields and limits the format stores are explicit; 64-bit overflow and saturation are not.
- `Inode::read` and inode encoding are parameters, and so are the superblock's 128 bytes; feature bits, codec configuration records, modes, times and POSIX ACLs are not modelled.
- File-type checks (reading a non-directory as one), UTF-8 checks of symlink targets and the metadata cache in front of the device are not modelled; a path's text check is part of `Resolve.Tree.readTarget`.
- Shared attributes, and turning a name index and dictionary into a full attribute name.
- Building the tree (`flatten`), hard limits on names and the order of errors within one call.
- Threads: the cache is used by one reader at a time, as its lock makes it.
- The C interface, command line, fuzzing and tests.
