# Verification model of ferrix-usb

ferrix-usb reads untrusted disk images in user space: it copies a device, parses its partition
tables and file systems, carves free space, inspects archives and documents, strips metadata, keeps a
hash-chained audit log and releases files under safe names. This project models the parts of it that
carry the risk and proves what each promises, for every input, every interleaving and every image.

Conventions shared by all modules:

- A disk or a file is the sequence of its bytes. `seek` followed by `read_exact` is one bounds-checked
  slice (`Bytes.ReadExact`). Where the source uses plain `read`, a function gives for each offset
  whether the read fails and how much it gets at most (`Bytes.Reads`), so results hold for all short
  reads and failures.
- Saturating 64-bit arithmetic is written out (`SatAdd`, `SatSub`, `SatMul`).
- BLAKE3, inflate, UTF-16 and octal decoding, JSON and header recognition are function parameters.
  Nothing is assumed of them, except that the audit lemmas about tampering take an injective hash.
- A loop of the source is a method with a loop, proved equal to a specification function or directly
  to a declarative property. The theorems are about those specifications.

| module | what it covers |
|---|---|
| `Crc`, `Partitions`, `PartitionProofs`, `MbrImage`, `GptImage` | the table checksum, MBR/EBR/GPT parsing, damage detection, and parsing of whole written disks: MBRs with their EBR chains, hybrids, and GPT disks laid out as section 5.3 of the UEFI Specification says but carrying the parser's checksum |
| `FreeSpace`, `GapImage`, `Carving`, `CarveCoverage`, `CarveRanges`, `CarveSafety`, `CarveSectors` | the two gap sweeps, the overlap and bounds checks, the free sectors of written disks, the carver, the ranges it is given, and exactly when it can touch a partition's sectors |
| `ClusterChain`, `FatTable`, `ChainData`, `VolumeImage`, `FatWalk` | cluster chains over FAT12/16/32 and exFAT tables, their data, files on written volumes, and the directory walk |
| `Snapshot`, `SnapshotProofs` | the two-thread copy as a step system, its safety and its liveness |
| `Yara` | printing, parsing and evaluating rule conditions |
| `Metadata`, `JpegImage`, `PdfMetadata`, `PdfNames` | stripping against detecting, written JPEG files, and PDF names after section 7.3.5 of ISO 32000-1 |
| `Archives`, `ArchiveNames`, `ArchiveItems`, `ZipImage`, `TarImage`, `GzipImage` | recursive archive inspection with its shared totals, what its name tests mean, and inspection of written zip, tar, gzip and 7z files |
| `Audit` | the hash chain, concurrent appenders under the lock, tampering |
| `Release` | sanitised names and paths |

Results worth knowing before reading on, each a theorem below:

- The table checksum does not use the reflected CRC-32 polynomial that GPT prescribes: its constant is
  `0xEDBABC40`, not `0xEDB88320`. So a GPT copy signed as prescribed is accepted if and only if both of
  its checksums happen to agree with the parser's (`GptImage.StandardCopyIff`), and of two copies whose
  tables differ in the top bit of their last byte one at least is rejected
  (`GptImage.StandardCopiesRejected`, `Crc.NotTheStandard`).
  The round trips below are about disks that carry the parser's checksum. The strength results hold
  for the constant as written, because its top bit is set.
- Reading a file straight from the offset of its first cluster, as the manifest hash and the release
  copy do, is right for every disk content if and only if the clusters the file touches are
  consecutive (`ChainData.StraightIffConsecutive`).
- On every disk, carving stays off every partition's sectors, whatever the detector and the reads, if and
  only if no partition reaches past a later one after which at least sixteen bytes of the disk are free
  (`CarveSafety.CarvingSafeIff`, in sectors `CarveSectors.SectorsSafeIff`). Disjoint partitions never do; a nested one that starts last does
  (`CarveRanges.NestedPartitionIsCarved`).
- The directory walk expands a shared directory once, at the depth where it meets it first. It finds
  exactly what the recursive walk finds if and only if every directory cluster that the recursive walk
  meets twice is unreadable or empty (`FatWalk.EverythingFoundIff`). No entry is hidden under all its paths
  when chains of different directories are at most sixteen long (`FatWalk.NoEntryHidden`); on some images
  with longer ones a file within sixteen levels is listed under no path at all
  (`FatWalk.SharedDirectoryHidesFile`).
- An archive is reported for its size if and only if some declared size takes the running total over
  the limit (`Archives.SizeFindingIff`). Bytes from gzip payloads are added without a check, so the
  finding and the total disagree exactly when such payloads, with no declared size after them, pass the
  limit (`Archives.LimitMissedIff`, `Archives.PassedUncheckedIff`, `Archives.PassedByGzip`).
- JPEG stripping removes the APP1 segments and, when fewer than four bytes remain before scan data or a
  readable end marker is reached, those bytes too (`Metadata.StripLosesRemainder`). Even an end-of-image
  marker is lost when nothing follows it (`Metadata.EndMarkerLost`).
- The PDF scanner does not count the percent sign as a delimiter, although section 7.2.2 of
  ISO 32000-1 does. For plain patterns it finds exactly the standard's names that no percent sign ends
  (`PdfNames.FoundIffNotEndedByPercent`).
- A released name that has to be cut to 255 bytes stays under the root, but the cut can bring back a
  trailing dot or a reserved name (`Release.CutHarmlessIff`, `Release.CutBringsBackDot`,
  `Release.CutBringsOutReserved`). It panics if and only if the cut falls inside a character or the
  extension alone is longer than 255 bytes (`Release.PanicsIff`), as for every name of 128 two-byte letters
  (`Release.LettersPanic`).
- FAT chains follow the bad-cluster mark as if it were a pointer (`FatTable.BadMarkFollowed`); exFAT
  chains end at it (`FatTable.BadMarkEnds`).
- Rule conditions printed with the fewest parentheses come back with their chains nested to the right,
  which changes no value (`Yara.ParseNestsRight`, `Yara.ParseKeepsMeaning`).
- The free sectors reported for a GPT disk leave out both tables, unless the GPT has no entries: then
  everything but the first sector is reported (`GapImage.GptGaps`).
- An EXIF block is found wherever it stands among the segments, unless an APP1 segment before it holds a
  byte 0xFF, which the byte-wise search can take for a marker (`JpegImage.DetectFileRoundTrip`,
  `JpegImage.ScanMarkHides`).
- Appending to the audit log checks each entry against its own hash but not the links: an intact chain
  stays intact and a broken one stays broken (`Audit.AppendKeepsChain`).

## Model

| member | source | states |
|---|---|---|
| Crc.ComputeCrc32 | src/disk/partition.rs:40-50 | the bit loop computes the register specification `Crc32`, with the constant as written |
| Crc.Crc32Affine | src/disk/partition.rs:40-50 | for inputs of one length the XOR of three checksums is the checksum of the XOR |
| Crc.AbsorbInjective | src/disk/partition.rs:40-50 | with any feedback word whose top bit is set, the same data never merges two different register contents |
| Crc.AbsorbWord | src/disk/partition.rs:40-50 | absorbing bytes one by one is shifting their little-endian word through the register |
| Crc.BurstDetected | src/disk/partition.rs:40-50 | any change confined to four consecutive bytes changes the checksum, whatever surrounds it |
| Crc.StepAgreesIff | src/disk/partition.rs:44-47 | one register step agrees with the one GPT prescribes if and only if the bit shifted out is zero |
| Crc.NotTheStandard | src/disk/partition.rs:40-50 | of any two inputs that differ in the top bit of their last byte, on one at least the checksum is not the one GPT prescribes |
| Crc.CheckValue | src/disk/partition.rs:40-50 | a check value: the checksum of the byte 0x7F |
| Partitions.ParseMbr | src/disk/partition.rs:112-244 | exactly the used primary entries in order, then the logical partitions of each extended container; a read error and a missing signature are told apart |
| Partitions.ReadPrimaryEntries | src/disk/partition.rs:137-167 | the used primary entries with their saturating spans, and whether one is protective |
| Partitions.CollectExtended | src/disk/partition.rs:169-176 | the extended containers among the primaries, in order |
| Partitions.WalkEbrs | src/disk/partition.rs:178-241 | the walk ends on every disk, even a cyclic one, and yields the specified chain and next index |
| Partitions.ParseGptHeaderAndEntries | src/disk/partition.rs:287-467 | validity, partitions and backup address of one GPT copy, rejecting in the source's order: header, header checksum, geometry, entry checksum |
| Partitions.ReadGptEntries | src/disk/partition.rs:397-464 | exactly the entries with a non-zero type, in order, with their slot numbers |
| Partitions.ParseDiskLayout | src/disk/partition.rs:52-110 | the table type, the partitions chosen, and the flags comparing both copies |
| PartitionProofs.EbrWalkSound | src/disk/partition.rs:178-241 | from any start a container adds at most 64 partitions, numbered consecutively, non-empty, each spanning exactly its sector count |
| PartitionProofs.ParsedSpansExact | src/disk/partition.rs:150-166 | every parsed partition that counts sectors spans exactly that many, for every table and disk, the count being cut at 2^64-1 |
| PartitionProofs.EntryDamageDetected | src/disk/partition.rs:388-395 | damage confined to four consecutive bytes of the entry array invalidates that GPT copy |
| PartitionProofs.HeaderDamageDetected | src/disk/partition.rs:306-329 | so does such damage in the header outside its length and checksum fields, whatever the entries then read |
| PartitionProofs.SignedIsIntact | src/disk/partition.rs:302-329 | a header of any size from 92 bytes to the sector, once its checksum is filled in, is intact exactly when it has the signature |
| PartitionProofs.GeometryIff | src/disk/partition.rs:374-395 | behind it a readable entry array with the right checksum is accepted exactly when entries have at least 128 bytes and number at most 1024 |
| MbrImage.RecordRoundTrip | src/disk/partition.rs:197-240 | a written record reads back as its partition and its link, unless that link leaves the container |
| MbrImage.ChainRoundTrip | src/disk/partition.rs:178-241 | from a container that holds a chain of records, in any order on the disk, exactly the partitions of the first 64 come back in chain order, whether the chain ends, loops or leaves the container |
| MbrImage.SlotRoundTrip | src/disk/partition.rs:137-167 | a written primary slot reads back with its number, first sector, count, last sector, type and boot flag |
| MbrImage.MbrRoundTrip | src/disk/partition.rs:112-244 | a written MBR whose containers hold such chains parses to its used slots as written and then the partitions of each chain, numbered on from 5 |
| MbrImage.MbrDiskRoundTrip | src/disk/partition.rs:52-110 | and without a GPT header its disk is of type Mbr with exactly those partitions, or has no table when there are none |
| GptImage.NameRoundTrip | src/disk/partition.rs:444-451 | a zero-padded name field reads back as its code units |
| GptImage.EntryRoundTrip | src/disk/partition.rs:397-463 | an encoded entry is used and parses to the partition it describes |
| GptImage.TableRoundTrip | src/disk/partition.rs:397-464 | the encoded array of up to 128 entries parses to exactly the used ones, in order |
| GptImage.UnusedIff | src/disk/partition.rs:398-405 | a slot is unused exactly when its type is all zeros, whatever else it holds |
| GptImage.HeaderRoundTrip | src/disk/partition.rs:302-372 | a header built with the parser's checksum is accepted and every field the parser uses reads back |
| GptImage.GptRoundTrip | tests/partition_tests.rs:83-145 | every disk large enough, built with both copies and the parser's checksum, parses to type Gpt with exactly the primary's entries, both copies valid, no address mismatch, and a difference flag exactly when the tables describe different partitions |
| GptImage.DamagedPrimaryFallsBack | src/disk/partition.rs:246-285 | when up to four consecutive bytes of the primary entries are damaged the layout is the backup's, and only the primary is reported invalid |
| GptImage.HybridRoundTrip | src/disk/partition.rs:77-96 | with an MBR that holds other partitions too, the disk is of type Hybrid with the GPT's partitions, and those of the MBR and its chains are counted |
| GptImage.StandardCopyIff | src/disk/partition.rs:306-395 | a copy signed with the checksum GPT prescribes is accepted if and only if that checksum and the parser's agree on the header and on the entries |
| GptImage.StandardCopiesRejected | src/disk/partition.rs:388-395 | of two such copies whose tables differ in the top bit of the last name's last character, one at least is rejected, wherever they stand |
| GptImage.GuidTextInjective | src/disk/partition.rs:407-414 | the mixed-endian text form of a GUID loses nothing |
| GptImage.GuidTextLayout | src/disk/partition.rs:407-414 | where each digit of a GUID stands in its text, in lower case, and where the dashes are |
| FreeSpace.SortSorted | src/egress/remnants.rs:32-33 | the stable sort orders partitions by first sector |
| FreeSpace.SortElements | src/egress/remnants.rs:32-33 | and keeps exactly the same partitions |
| FreeSpace.SortStable | src/egress/remnants.rs:32-33 | partitions that start at one sector keep their order |
| FreeSpace.FindUnallocatedGaps | src/egress/remnants.rs:24-68 | the sweep's gaps, for every layout including the empty one |
| FreeSpace.SweepForAnomalies | src/disk/anomalies.rs:181-218 | the second sweep yields the very same list for every non-empty layout |
| FreeSpace.GapsAreComplement | src/egress/remnants.rs:24-68 | for any order, overlap or nesting the gaps are sorted, disjoint and non-adjacent, and a sector of the window is in a gap if and only if no usable partition holds it |
| FreeSpace.SeparatedUnique | src/egress/remnants.rs:24-68 | such a list is determined by the sectors it covers, so the complement is unique |
| FreeSpace.CheckOverlappingPartitions | src/disk/anomalies.rs:21-52 | a finding for each pair that shares a sector, unless one is an extended container that holds the other, and for no other pair; once each, in order |
| FreeSpace.OverlapIff | src/disk/anomalies.rs:30-39 | valid partitions meet the test exactly when they share a sector and neither is an extended container that holds every sector of the other |
| FreeSpace.CheckOutOfBoundsPartitions | src/disk/anomalies.rs:54-75 | a finding for each partition beyond the disk and for no other, once each, in order |
| FreeSpace.InBoundsIff | src/disk/anomalies.rs:56-60 | a partition passes the test exactly when it counts sectors and has some, none of them past the disk |
| FreeSpace.SweepConserves | src/egress/remnants.rs:38-67 | for disjoint partitions inside the window, gap lengths and partition lengths add up to the window |
| FreeSpace.SectorsConserved | src/disk/anomalies.rs:21-75 | the same for every parsed layout that draws neither the overlap nor the bounds finding, has no extended container and stays in its window |
| GapImage.GptGaps | src/egress/remnants.rs:35-45 | on every written GPT disk with an entry no sector of a header, an entry array or an entry is reported as free, with 512-byte sectors every other sector is; without an entry all but the first are |
| GapImage.MbrGaps | src/egress/remnants.rs:24-68 | on every written MBR disk with a partition a sector is reported as free exactly when it is not the first and no partition holds it, primary or logical |
| Carving.CarveFilesFromReader | src/scan/carve.rs:12-112 | the pass over one range: its findings are appended and its files returned, or a read error after what was found before it |
| Carving.CarveSlice | src/scan/carve.rs:46-105 | the pass over one chunk, and where the next read starts |
| Carving.CarveUnallocatedSpace | src/scan/carve.rs:114-138 | the ranges in order under one shared quota, which is never passed, ending at the first read error |
| Carving.CarveRangeSound | src/scan/carve.rs:12-112 | whatever the detector and the reads, files carved from a range were recognised at their first byte, lie inside it, strictly increase and do not overlap |
| Carving.CarveAllSound | src/scan/carve.rs:114-138 | every carved file lies in one of the ranges, which has at least sixteen bytes, and on increasing ranges all files increase without overlap |
| CarveCoverage.ChunkExamined | src/scan/carve.rs:46-105 | within a chunk every sector start up to the next read was shown to the detector in vain or lies in the sectors of a carved file |
| CarveCoverage.EverySectorExamined | src/scan/carve.rs:32-109 | with full reads and quota to spare, so was every sector of the range that a header fits in: none is passed over |
| CarveCoverage.CommonSectors | src/scan/carve.rs:24-32 | sectors of 512, 2048 and 4096 bytes fill the read chunk exactly, as EverySectorExamined asks |
| CarveCoverage.FirstLook | src/scan/carve.rs:33-60 | with full reads the detector first sees the range's first 131072 bytes, as far as range and disk go, and what it recognises there is the first file |
| CarveRanges.UnallocatedRanges | src/scan/mod.rs:281-302 | the range builder's list: before the first, between neighbours, after the last |
| CarveRanges.RangesAvoidIff | src/scan/mod.rs:281-302 | ranges built from valid partitions in any order increase, and those with at least a given length before a given byte miss every partition if and only if no partition reaches past a later one that such a range follows |
| CarveRanges.DisjointNeverOverhangs | src/scan/mod.rs:290-296 | pairwise disjoint partitions never reach past one another |
| CarveRanges.RangesAvoidPartitions | src/scan/mod.rs:281-302 | so for valid, pairwise disjoint partitions in any order the ranges increase and miss every partition |
| CarveRanges.NestedPartitionIsCarved | src/scan/mod.rs:297-302 | the nested layout at which the condition fails, and a range that enters the outer partition |
| CarveSafety.CarveAround | src/scan/mod.rs:264-330 | the whole carving pass over a disk: at most the quota, files in increasing order, and off every partition when no valid partition overhangs a range on the disk |
| CarveSafety.CarvingSafeIff | src/scan/mod.rs:264-330 | for each disk and layout: no carved file touches a partition, with any detector, quota and reads, if and only if no partition reaches past a later one after which at least sixteen bytes of that disk are free |
| CarveSectors.FreeBytesCovered | src/scan/mod.rs:281-302 | every byte of the disk whose sector no valid partition holds is in a range, unless it stands in the first 2048 sectors and before every partition's end; there the ranges hold nothing |
| CarveSectors.RangesAreFreeBytes | src/scan/mod.rs:281-302 | so for disjoint partitions the ranges hold, as far as the disk goes, exactly those bytes |
| CarveSectors.SectorsSafeIff | src/scan/mod.rs:264-330 | for each disk and layout whose offsets do not saturate: no byte of a carved file lies in a sector of a partition, with any detector, quota and reads, if and only if no partition ends after a later one behind which sixteen bytes are free |
| ClusterChain.ReadClusterChain | src/fs/fat.rs:403-427 | the longest duplicate-free walk within the limit, or an error exactly when such a walk runs off the disk |
| ClusterChain.ReadExfatClusterChain | src/fs/exfat.rs:184-221 | the same specification under exFAT's end marks |
| ClusterChain.StuckIsLongest | src/fs/fat.rs:412-424 | every walk within the limit is a prefix of the one returned |
| ClusterChain.LongestUnique | src/fs/fat.rs:412-424 | so the longest walk is unique |
| FatTable.Pack12At | src/fs/fat.rs:379-399 | reading a 12-bit entry sees only what was packed as that entry, whatever its neighbour in the shared byte |
| FatTable.EncodedLink | src/fs/fat.rs:337-401 | on a disk holding a packed FAT12, FAT16 or FAT32 table each lookup gives the packed pointer, classified; FAT32 ignores the top four bits |
| FatTable.EncodedExfatLink | src/fs/exfat.rs:203-216 | the same for an exFAT table |
| FatTable.PackedChain | src/fs/fat.rs:337-427 | for every pointer map, wild pointers and bad-cluster marks included, the only result the reader may return is the longest walk of the map itself, unless that walk leaves the map |
| FatTable.PackedExfatChain | src/fs/exfat.rs:184-221 | and likewise for exFAT |
| FatTable.FatChainStep | src/fs/fat.rs:337-427 | in every chain read from a packed FAT12, FAT16 or FAT32 table, a cluster whose cell is free, reserved or an end mark is the last, and any other is followed by its pointer, unless the chain is full or holds that already |
| FatTable.ExfatChainStep | src/fs/exfat.rs:184-221 | the same for exFAT, whose end marks include the bad-cluster mark |
| FatTable.EndMarkEnds | src/fs/fat.rs:403-427 | a file of one cluster with an end mark is read as that cluster, without an error |
| FatTable.BadMarkFollowed | src/fs/fat.rs:337-427 | so in every FAT chain a cluster marked bad is followed by the cluster of the mark's number, unless the chain is full or holds that already |
| FatTable.BadMarkEnds | src/fs/exfat.rs:213-216 | every exFAT chain ends at a cluster marked bad |
| ChainData.ReadChainData | src/fs/fat.rs:441-471 | the clusters' bytes in chain order, cut at the byte limit, with unreadable clusters handled as the source does |
| ChainData.OffsetLinear | src/fs/fat.rs:429-439 | cluster offsets differ by whole clusters, so neighbours in number are neighbours on disk |
| ChainData.ConsecutiveData | src/fs/fat.rs:441-471 | a consecutive chain read cluster by cluster is one straight read |
| ChainData.HashedBytes | src/manifest/mod.rs:359-378 | however reads fall short, the hasher gets exactly the bytes from the offset on, cut at the end of the disk; an error only for a failing read |
| ChainData.CopiedBytes | src/release/mod.rs:277-289 | the destination gets exactly those bytes, and an error exactly when they are not all there |
| ChainData.StraightIffConsecutive | src/release/mod.rs:267-289 | the straight read equals the chain's bytes on every disk if and only if the clusters the file touches are consecutive |
| VolumeImage.ClusterRead | src/fs/fat.rs:429-439 | on a volume written as boot area, tables and clusters, each cluster's bytes are read from its place, the first being number 2 at the first data sector |
| VolumeImage.ChainRead | src/fs/fat.rs:441-471 | reading a chain gives the bytes of its clusters in order, cut at the limit |
| VolumeImage.FileRoundTrip | src/fs/fat.rs:403-471 | from the written volume to the file: the chain is the map's own walk and the data the contents of its clusters, cut at the size |
| VolumeImage.ExfatChainRoundTrip | src/fs/exfat.rs:184-221 | on a written exFAT volume the chain is the map's own walk too |
| FatWalk.ListRoot | src/fs/mod.rs:418-489 | the root's entries in order, and its subdirectories pushed at depth 1 |
| FatWalk.ListDirectory | src/fs/mod.rs:520-588 | one directory's entries in order, and its subdirectories pushed below depth 16 |
| FatWalk.WalkDirectories | src/fs/mod.rs:418-588 | the walk ends on every image, cyclic ones included, and lists the root and the directories expanded, in the order of the stack |
| FatWalk.WalkOnce | src/fs/mod.rs:490-501 | each directory cluster is expanded at most once, and none marked beforehand |
| FatWalk.WalkSettles | src/fs/mod.rs:495-586 | every directory stacked, dropped, or found above depth 16 in a directory expanded has its cluster expanded, perhaps under another path, or marked |
| FatWalk.WalkReaches | src/fs/mod.rs:495-586 | nothing else is expanded |
| FatWalk.WalkExpandsProper | src/fs/mod.rs:480-588 | and only clusters from 2 on, at depths 1 to 16 |
| FatWalk.FoundAndLost | src/fs/mod.rs:418-588 | what the walk lists and what lies below the directories it drops is, with multiplicities, exactly what the depth-16 recursive walk finds |
| FatWalk.EverythingFoundIff | src/fs/mod.rs:418-588 | the two agree if and only if every directory cluster that the recursive walk meets twice, or meets though marked, is unreadable or empty |
| FatWalk.NothingLostIff | src/fs/mod.rs:499-501 | in terms of the walk: if and only if every directory it drops is unreadable or empty |
| FatWalk.UnsharedFindsAll | src/fs/mod.rs:418-588 | in particular when the recursive walk meets no directory cluster twice |
| FatWalk.NoEntryHidden | src/fs/mod.rs:495-588 | when chains of different directories are at most sixteen long, sharing and loops allowed, and directories marked beforehand hold nothing but what the root holds, every entry at any depth is listed under some path |
| FatWalk.SharedDirectoryHidesFile | src/fs/mod.rs:499-585 | an image whose file A/S/D/file is listed under no path, because S was first met at depth 16 |
| FatWalk.WalkConserves | src/fs/mod.rs:495-586 | from any stack, what is listed and what is dropped adds up to what lay below the stack |
| FatWalk.WalkConservesClusters | src/fs/mod.rs:495-586 | and so do the clusters expanded and those below the directories dropped |
| FatWalk.DirTotal | src/fs/mod.rs:520-588 | listing a directory moves its entries to the findings and its subtrees to the stack, conserving the recursive walk's total |
| SnapshotProofs.StepKeepsBytes | src/disk/snapshot.rs:227-308 | every step of either thread keeps written, held, queued and unread bytes equal to the source, in order |
| SnapshotProofs.StepKeepsIds | src/disk/snapshot.rs:228-308 | and keeps each of the four buffers in exactly one place |
| SnapshotProofs.StepKeepsInv | src/disk/snapshot.rs:227-308 | the whole invariant survives every step of every interleaving |
| SnapshotProofs.CopyIsFaithful | src/disk/snapshot.rs:195-308 | in every run, success means file, hashed input and count are exactly the source, and an error leaves no destination file |
| SnapshotProofs.SendsNeverBlock | src/disk/snapshot.rs:228-286 | neither bounded channel overfills, so no send ever waits |
| SnapshotProofs.NoDeadlock | src/disk/snapshot.rs:227-308 | in every reachable unfinished state some thread can step |
| SnapshotProofs.StepDecreases | src/disk/snapshot.rs:227-308 | every step lowers the work left |
| SnapshotProofs.RunsEnd | src/disk/snapshot.rs:227-308 | so every run over a finite source ends, within 20 steps per byte and 20 more |
| SnapshotProofs.FaultFreeRunsSucceed | src/disk/snapshot.rs:227-308 | a run without faults that cannot go on has copied the whole source |
| Snapshot.HashDeviceOrImage | src/disk/snapshot.rs:367-389 | however reads fall short, the hasher gets exactly the source and the count is its length; an error only for a failing read |
| Yara.FindBinaryOperator | src/scan/yara.rs:344-364 | the first place outside parentheses where the operator stands, ignoring case |
| Yara.ScanThenFind | src/scan/yara.rs:344-364 | text without an operator outside parentheses only shifts where the next one is found |
| Yara.ParseUndoesFullPrint | src/scan/yara.rs:297-342 | parsing the fully parenthesised text of any condition gives back that condition |
| Yara.SplitOr | src/scan/yara.rs:315-319 | splitting a chain at its first `or` regroups all of it to the right |
| Yara.SplitAnd | src/scan/yara.rs:321-325 | and the same for `and` |
| Yara.ParseNestsRight | src/scan/yara.rs:297-342 | parsing the minimally parenthesised text of any condition gives exactly that condition with every chain of one operator nested to the right |
| Yara.ParseUndoesPrintIff | src/scan/yara.rs:297-342 | which is the condition itself if and only if no `or` is the left operand of an `or` and no `and` that of an `and` |
| Yara.ParseKeepsMeaning | src/scan/yara.rs:93-114 | and has the same value as the condition on every match map |
| Yara.ThemMeansAllNames | src/scan/yara.rs:100-103 | `any of them` has the value of the disjunction of references to all strings of the map, `all of them` that of their conjunction, and false on an empty map |
| Yara.ReferenceIff | src/scan/yara.rs:93-99 | a string reference is true exactly when an offset is recorded for it |
| Yara.PaddedParse | src/scan/yara.rs:297-301 | white space around a condition changes nothing |
| Yara.EmptyParse | src/scan/yara.rs:298-301 | a condition of white space alone is always true |
| Yara.KeywordsAnyCase | src/scan/yara.rs:302-313 | keywords are recognised in any letter case |
| Yara.OperatorsAnyCase | src/scan/yara.rs:344-364 | and so are `or` and `and`, behind text that holds none |
| Metadata.CheckJpegExif | src/egress/metadata.rs:26-61 | the detector reports what the recursive reading of the segments reports |
| Metadata.StripJpegExif | src/egress/metadata.rs:146-178 | the stripper keeps what the recursive reading keeps |
| Metadata.StripSilencesFrom | src/egress/metadata.rs:26-61 | after stripping, the detector finds nothing, however segments are truncated, nested or mis-sized |
| Metadata.StripSilences | src/egress/metadata.rs:146-178 | for whole files: EXIF is reported after stripping exactly when the data was not a JPEG and held some |
| Metadata.StripLosesRemainder | src/egress/metadata.rs:154-175 | for all data, what is kept and a remainder of at most three bytes is the data without its APP1 segments: nothing else is lost |
| Metadata.StripKeepsRest | src/egress/metadata.rs:154-175 | without APP1 segments only the remainder is lost |
| Metadata.StripUnchangedIff | src/egress/metadata.rs:154-175 | segments come through unchanged if and only if none is APP1 and nothing is left over before scan data or a readable end marker |
| Metadata.FileUnchangedIff | src/egress/metadata.rs:146-178 | a file comes through unchanged if and only if it is not a JPEG or its segments are whole in that sense |
| Metadata.EndMarkerLost | src/egress/metadata.rs:154-175 | two files that lose their end-of-image marker |
| JpegImage.StripFileRoundTrip | src/egress/metadata.rs:146-178 | stripping a file written segment by segment gives the same file without its APP1 segments |
| JpegImage.DetectFileRoundTrip | src/egress/metadata.rs:26-61 | such a file is reported exactly when one of its segments is an EXIF block, provided other APP1 segments hold no byte 0xFF |
| JpegImage.ScanMarkHides | src/egress/metadata.rs:47-55 | an APP1 segment that does not meet this hides every EXIF block behind it |
| PdfMetadata.FindSubsequence | src/egress/metadata.rs:128-133 | the first occurrence, or none at all |
| PdfMetadata.BlankTag | src/egress/metadata.rs:190-207 | in place: exactly the fields this tag starts in the input are blanked besides those of earlier tags |
| PdfMetadata.StripPdfMetadata | src/egress/metadata.rs:180-210 | exactly the fields that the five tags start in the input are blanked, each to its line end or the next slash; every other byte and the length stay |
| PdfMetadata.CheckPdfMetadata | src/egress/metadata.rs:63-90 | reports exactly the tags that occur |
| PdfMetadata.NoTagLeft | src/egress/metadata.rs:180-210 | no tag is left anywhere: blanking never joins bytes into a new one |
| PdfMetadata.StripIdempotent | src/egress/metadata.rs:180-210 | stripping twice is stripping once, and line breaks stay |
| PdfMetadata.FieldBlanked | src/egress/metadata.rs:180-210 | a tag and its value on one line are blanked up to the line end and nothing else is |
| PdfMetadata.TagNames | src/egress/metadata.rs:180-190 | the five tags, as text |
| PdfNames.NormalizePdfName | src/scan/pdf.rs:185-214 | decodes well-formed escapes and keeps malformed ones |
| PdfNames.RawScan | src/scan/pdf.rs:221-238 | true exactly when the pattern stands somewhere followed by a delimiter or the end |
| PdfNames.TokenScan | src/scan/pdf.rs:240-268 | true exactly when some maximal name token decodes to the pattern |
| PdfNames.MatchesPdfToken | src/scan/pdf.rs:216-269 | for every plain pattern: true if and only if some maximal name token decodes to it; for any other, if and only if one of the two scans accepts |
| PdfNames.RawMatchIsToken | src/scan/pdf.rs:221-238 | the raw scan adds no matches for plain patterns |
| PdfNames.DecodeUndoesSpelling | src/scan/pdf.rs:185-214 | decoding undoes every way of escaping a name |
| PdfNames.SpeltNameFound | src/scan/pdf.rs:216-269 | a name is found wherever it stands and however its bytes are escaped |
| PdfNames.FoundIffNotEndedByPercent | src/scan/pdf.rs:216-269 | for patterns without a percent sign the token scan finds exactly the standard's names that no percent sign ends; for plain patterns the whole scanner finds nothing else |
| PdfNames.PercentHides | src/scan/pdf.rs:247-254 | any plain pattern with a percent sign right behind it is a name by the standard and is missed |
| Archives.SearchEocd | src/scan/archives.rs:4-19 | the last end-of-directory record whose comment fits, within the last 65557 bytes, and none only if there is none |
| Archives.InspectArchiveRecursive | src/scan/archives.rs:52-106 | the depth check and the dispatch on the archive kind, ending for every input and every decompressor |
| Archives.InspectZipEntries | src/scan/archives.rs:108-387 | the central directory read to its end or to the first stop, recursing into nested archives |
| Archives.InspectZipLocalHeaders | src/scan/archives.rs:389-569 | the fallback walk over local headers |
| Archives.InspectTarEntries | src/scan/archives.rs:579-687 | the walk over tar blocks |
| Archives.GzipHeader | src/scan/archives.rs:704-725 | for every way to lay out a gzip header with optional extra field, name, comment and checksum, exactly its length |
| Archives.GzipHeaderRoundTrip | src/scan/archives.rs:704-760 | so whatever fields a header holds, the payload handed to the decompressor is what follows it |
| Archives.InspectGzipPayload | src/scan/archives.rs:693-776 | the payload expanded, counted and inspected one level down |
| Archives.InspectSound | src/scan/archives.rs:52-106 | at every depth, against the archive read to its end: findings are only appended, the total never falls; while declared sizes stay within the limit there is no size finding and the total is exact, otherwise there is one and the total is over; traversal names are reported; depth findings come only from one level too deep |
| Archives.SizeFindingIff | src/scan/archives.rs:354-370 | a size finding is reported if and only if some declared size in the archive takes the total over the limit; without one the total is the exact sum |
| Archives.LimitMissedIff | src/scan/archives.rs:762-776 | finding and total disagree exactly on archives whose declared sizes stay within the limit while the sum passes it |
| Archives.PassedUncheckedIff | src/scan/archives.rs:762-776 | that is, if and only if the total is within the limit at the last declared size and over it at the end |
| Archives.PassedByGzip | src/scan/archives.rs:762-776 | in such an archive a gzip payload that no declared size follows passes the limit |
| Archives.GzipFreeExact | src/scan/archives.rs:52-106 | so an archive in which no gzip payload expands is reported if and only if its total passes the limit |
| Archives.EveryTraversalReported | src/scan/archives.rs:190-206 | every entry with a traversal name, at any depth and in any kind of archive, is reported, unless the limit was passed before it |
| Archives.GzipTotalUnchecked | src/scan/archives.rs:762-776 | with any decompressor, a gzip file whose expanded payload alone passes the limit is not reported for its size |
| Archives.SmallestGzip | src/scan/archives.rs:689-705 | such files exist: a bare header and one byte of payload is taken for gzip and for nothing else |
| ArchiveNames.TraversalIff | src/scan/archives.rs:21-30 | a name is taken for a traversal exactly when one of its segments is `..`, or it is absolute, holds a NUL or starts with a drive letter |
| ArchiveNames.NameKinds | src/scan/archives.rs:818-835 | the suffixes of nested archives, and the parts and suffixes of macros |
| ArchiveNames.EndsWithIff | src/scan/archives.rs:819-831 | a suffix is what stands behind some stem |
| ArchiveNames.ContainsIff | src/scan/archives.rs:206-216 | a part is what stands between some two texts |
| ZipImage.CentralRoundTrip | src/scan/archives.rs:151-340 | a written central-directory record reads back: findings from its own name, attributes and local name, content from its own payload and method, its sizes as written, and the next record right behind it |
| ZipImage.ZipEventsRoundTrip | src/scan/archives.rs:108-387 | a written zip file, entries anywhere, reads as the entries of its directory, nested archives included |
| ZipImage.ZipTotal | src/scan/archives.rs:354-370 | without nested archives it is reported for its size exactly when the uncompressed sizes written add up to more than the limit, and otherwise that sum is the total |
| ZipImage.ZipFindings | src/scan/archives.rs:108-387 | within the limit its findings are exactly those of its entries, in order, expansion ratios included |
| ZipImage.ZipStops | src/scan/archives.rs:354-370 | when the sizes pass the limit at an entry, that entry is still reported and looked into, the size finding follows, and nothing behind it is looked at |
| ZipImage.LocalsRoundTrip | src/scan/archives.rs:389-569 | a file of local headers and payloads in a row, without an end record, reads as those entries |
| ZipImage.LocalsTotal | src/scan/archives.rs:389-569 | with the total and the size finding of ZipTotal |
| ZipImage.LocalsFindings | src/scan/archives.rs:389-569 | and within the limit exactly their findings |
| ZipImage.LocalsStop | src/scan/archives.rs:489-507 | the entry at which the sizes pass the limit is reported but not looked into, and nothing behind it is looked at |
| TarImage.TarRoundTrip | src/scan/archives.rs:592-656 | a written tar header block reads back: name, link target, type flag and size field |
| TarImage.TarFileRoundTrip | src/scan/archives.rs:579-687 | a written tar file reads as its entries, payloads included, and within the limit draws exactly their findings |
| TarImage.TarTotal | src/scan/archives.rs:640-660 | it is reported for its size exactly when the payloads add up to more than the limit |
| TarImage.TarStops | src/scan/archives.rs:642-660 | and likewise the walk over a tar file stops at the entry that passes the limit |
| GzipImage.GzipFileRoundTrip | src/scan/archives.rs:693-776 | a written gzip file is reported for its ratio by the size in its last four bytes, and what it unpacks to is counted and inspected one level down |
| GzipImage.SevenZipFindings | src/scan/archives.rs:778-816 | a 7z file is reported when shorter than 32 bytes, and otherwise when its major version is above 1 |
| Audit.VerifyAuditChain | src/audit/mod.rs:150-194 | true if and only if every line parses and entries are numbered, linked and match their hashes; an error if and only if a line that does not parse follows an intact chain |
| Audit.AppendAuditEntry | src/audit/mod.rs:67-147 | succeeds if and only if the log parses and each entry matches its own hash; then adds exactly the next entry, and otherwise changes nothing |
| Audit.AppendKeepsChain | src/audit/mod.rs:96-120 | the log after an append is intact if and only if it was before |
| Audit.StepKeepsInv | src/audit/mod.rs:67-147 | each step of each appender, with errors anywhere, keeps the chain intact and the lock exclusive |
| Audit.EveryRunVerifies | src/audit/mod.rs:67-147 | every interleaving of any number of appenders from an empty log keeps it verifiable |
| Audit.UnlockedAppendsBreak | src/audit/mod.rs:67-95 | a run of two appenders under a lock that excludes nobody, ending in a log that no longer verifies |
| Audit.LastHashDeterminesLog | src/audit/mod.rs:163-193 | with an injective hash, intact logs with the same last entry hash hold the same entries |
| Audit.TamperingRejected | src/audit/mod.rs:163-193 | changing, inserting or removing entries while keeping the last hash is rejected |
| Release.SanitizedIsHarmless | src/release/mod.rs:69-121 | a sanitised name, cut or not, has at most 255 bytes, holds no separator, control or bidi character, is not `.` or `..` and has no leading dash; uncut it has no trailing dot or space and no reserved stem either |
| Release.FixedPoints | src/release/mod.rs:69-121 | the names left alone are exactly the harmless ones of at most 255 bytes; sanitising again changes nothing, unless the name was cut and the cut is not harmless |
| Release.ReservedIff | src/release/mod.rs:39-67 | a name is taken for reserved exactly when its text before the first dot spells a device name, in any letter case |
| Release.Utf8Lengths | src/release/mod.rs:104 | names are measured in UTF-8: where the length of a character changes |
| Release.CutHarmlessIff | src/release/mod.rs:104-114 | a cut name is harmless if and only if, with an extension kept, the front is no reserved name and, with none, the cut does not end on a dot or space |
| Release.CutBringsBackDot | src/release/mod.rs:110 | names whose cut ends on a dot again |
| Release.CutBringsOutReserved | src/release/mod.rs:107-109 | names whose cut brings out a reserved device name |
| Release.ShortNeverCut | src/release/mod.rs:104-114 | a name of at most 249 bytes is never cut |
| Release.PanicsIff | src/release/mod.rs:104-114 | sanitising panics if and only if the name is cut and its extension is longer than 255 bytes or no whole number of characters makes up the rest |
| Release.LettersPanic | src/release/mod.rs:104-111 | every name of 128 or more harmless two-byte letters panics |
| Release.LongExtensionPanics | src/release/mod.rs:107-109 | so does every harmless name whose last dot stands early with more than 254 bytes behind it |
| Release.ReasonIffRenamed | src/release/mod.rs:69-121 | a reason is given exactly for names that did change |
| Release.SanitizeRelativePath | src/release/mod.rs:123-160 | the components of the path or its refusal, and exactly the renames made on the way |
| Release.LeadingSeparators | src/release/mod.rs:127-128 | leading separators make no difference to the components |
| Release.PathPanicsIff | src/release/mod.rs:123-160 | a path panics if and only if some segment panics before any that trims to `..` |
| Release.NothingRenamedSilently | src/release/mod.rs:143-150 | the components are the path's own segments if and only if no rename was recorded |
| Release.ReleasedPathStaysUnderRoot | src/release/mod.rs:204-215 | every path that is neither refused nor panics has only contained components, and joined to any root it resolves to a place strictly under it; when no segment is cut all components are harmless |
| Release.TraversalNeverReleased | src/release/mod.rs:136-140 | a path with a segment that trims to `..` is never released, whatever comes before or after: it is refused, unless an earlier segment panics |

## Left out

- JpegImage.DetectFileRoundTrip: asks that APP1 segments other than EXIF blocks hold no byte 0xFF behind their first, because the search through them is byte by byte and can leap over segments; that it fails without is JpegImage.ScanMarkHides.
- Command line, terminal interface, reports, progress events, devices, mounts, sandboxing, TPM and the malware-scanner socket: input, output and system plumbing.
- BLAKE3, Ed25519, JSON, UTF-8 and UTF-16 decoding, inflate and octal parsing are library code and stay parameters.
- Seek errors are reads out of range, and an empty read succeeds anywhere; partition and carving offsets are taken below 2^63 where the source's signed file offsets need it.
- Allocation limits: an entry array of up to 1024 entries of any 32-bit size is read without regard to memory.
- Snapshot steps before the partial-file guard exists, a panic of the reader thread, permissions and ownership of the file, and a removal of the partial file that itself fails.
- The size of the scanned device is the length of its contents.
- The detector of carved headers and its size estimates are an arbitrary function; the hash of carved bytes is not computed.
- The fallback for disks without a partition table, which carves the whole disk unless a file system is recognised.
- Boot-sector parsing and the decoding of directory entries for FAT and exFAT; a directory is an arbitrary function from its first cluster to its entries. Cancellation is not modelled, and neither is the exFAT listing, which covers only the root.
- Rule files, string patterns and their search in the YARA scanner; condition text is ASCII, so byte and character positions agree.
- Document formats other than JPEG and PDF, the PDF findings built on name matching, and decoded PDF streams.
- The text of findings and the escaping of media paths in archives; paths are lists of names and findings carry only what the properties need.
- Partial writes of a log line, timestamps, and an entry index past 64 bits in the audit log.
- File creation, permissions and symbolic-link checks during release. A cut of a name that would panic ends the path.
- Carving.CarveFilesFromReader: two reads at one offset within one range behave alike, which never matters because offsets only grow; each range has its own reads.
- Shannon entropy, wipe patterns, remnant signatures and the sampling of gaps: thresholds over floating point and case lists.
- MBR and GPT agreement and hidden partition types, policy files, finding suppressions, manifest signatures and nonces: no property that spans several steps.
