# FatFs, TFTP receiver and IceNet rings: a Dafny model

This project models the hard core of a FreeRTOS system image and proves what its layers promise each other.

**The FAT engine** (FatFs R0.13c, built with 512-byte sectors, without long names, exFAT, locks or a shared
sector buffer) is modelled layer by layer, in the imperative form of the original:

- `DiskIo` is the RAM disk, a byte array. `Volume` is the mounted volume: the one-sector write-back window, the packed
  FAT12/16/32 entries behind it, and the cluster allocator. Two ghost fields give its meaning: `store`, the logical
  disk (the medium overlaid with the dirty window, the second FAT always mirroring the first), and `fat`, the table
  of entry values. `Geometry` holds the array laws of packed entries, `Chains` the theory of disjoint acyclic chains.
  `Bits` reads numbers and images as bits, and `FatBits` the FAT as a row of bits, in which entry c of width w begins
  at bit w * c, for all three types.
- `FileView`, `DataArea`, `File` and `FileRuns` are open files. The ghost field `content` is the file as a byte array;
  the invariant ties it to the chain, the sectors and the dirty sector buffer. `FileRuns.Execute` is the refinement
  theorem over whole runs; conservation of clusters (`Chains.Conservation`) fixes how far a file can grow.
- `DirTable`, `Directory` and `DirRuns` are directories. `Meaning` reads a table as a map from 11-byte names to
  entries; `DirRuns.Execute` is the refinement theorem over whole runs, and `DirRuns.RunIsDetermined` reduces a run to a
  reference on tables.
- `Mount`, `Mkfs`, `Lifecycle` and `Sync` are the geometry arithmetic of mounting and formatting, their agreement, the
  bytes of the records on the medium, and FSINFO. From mount on, a FAT32 volume that uses FSINFO either has its hints in
  that sector or has fsi_flag set; this is part of `Volume.Fatfs.Valid`. `Durable` is f_sync, and the theorem that what a run leaves in a file survives a new mount.
- `TwoFiles` has two files open at once, with the window, the FAT and the free clusters between them.
- `Session` puts the layers together: format, mount, create a file, run any operations on it, f_sync, mount, look the
  name up, read (`Session.FormatWriteRead`).
- `LinkMap`, `Glob` and `Names` are the fast-seek table, the wildcard matcher and the 8.3 names. The first two are
  switched off in this build but complete in the source.

**The TFTP receiver** (`Tftp`, `TftpRuns`) is a class with the client's window fields and a ghost log of the accepted
blocks, the stores and the acknowledgements sent, each with the event that caused it; a run is any sequence of packets
and timeouts. `Turn` and `Play` are the reference for one event and for a run; `EventLaw` says for every kind of event
what it does to the log and the window, without that reference. It follows section 2 of RFC 1350, RFC 2347
and section 4 of RFC 7440.

**The IceNet rings** (`IceNet`) are two rings of 64 slots and a device that completes requests in order.

Files and directories remember in a ghost field `exact` whether the volume's free count was exact or unknown when they
were opened. If it was, "no room" in the contracts means that no entry of the FAT is free.

Long invariants are sealed: a predicate of the form "for all k, Open(k) implies P" shows its body P only to proofs that
mention `Open(0)`. It means the same as P.

## Where the code does less than one might expect

- Mount accepts boot records whose sector sums wrap around 32 bits; the layout is sound exactly when the sum of the
  system areas does not wrap (`Mount.AcceptedIsSound`, `Mount.WrapIsAccepted`).
- `f_getfree` on FAT16 and FAT32 counts the two reserved entries if they are zero (`Volume.Fatfs.GetFree`,
  `Volume.ReservedZeros`, `Sync.BlankFat16`).
- A `f_getfree` that meets a bad link on FAT12 reports an internal error but still records the clusters counted so far as
  the free count (`Volume.Fatfs.GetFree`).
- `sync_fs` writes the FSINFO record to the sector behind the boot record even when only one sector is reserved and
  that sector is the start of the FAT (`Sync.SyncFs`, `Sync.OneReservedSector`).
- Creating a link map fails with an internal error exactly when the chain ends at the last cluster of the volume with
  the end mark `n_fatent`; the end marks this program writes are larger (`LinkMap.CreateLinkMap`,
  `LinkMap.MisleadingMark`, `LinkMap.OwnMarksAreClear`).
- A segment that is a single dot is accepted by create_name, is stored as eleven spaces and prints as the empty name; no
  other accepted segment prints as the empty name (`Names.DotAccepted`, `Names.SingleDot`).
- f_truncate at the end of a sector can leave the sector buffer with a sector that the file has given up and that another
  file can take; until the buffer moves on it may then differ from the medium. with two files open, the idle
  one stays consistent if and only if the operation has not taken the sector of its buffer, which it cannot while the buffer
  is empty or stands for a sector of its own (`TwoFiles.Operate`).
- The TFTP finish test can fire before the short block is counted; the reported size includes it exactly if it is the
  block acknowledged last (`Tftp.Client.ReportedSize`, `TftpRuns.EarlyFinish`).
- A TFTP window of which every block has been received completes, once a short block is remembered, only if that block is
  the last to arrive; otherwise the next timeout acknowledges all blocks and the transfer fails at the retry limit
  (`TftpRuns.CompletesWhen`, `TftpRuns.NeverCompletes`).
- A TFTP window that starts at block 0 counts every acknowledgement as progress: its received blocks are forgotten if
  there is a gap at its start, and the retry limit does not apply (`Tftp.Client.Ack`, `TftpRuns.EndlessRetries`). If
  the block before it was short, each such acknowledgement even moves the buffer position back.

## Model

| member | source | states |
|---|---|---|
| `DiskIo.DiskRead` | FatFs/source/diskio_ram.c:55-78 | the buffer receives exactly the bytes of the requested sectors; every other byte of the buffer is unchanged |
| `DiskIo.DiskWrite` | FatFs/source/diskio_ram.c:93-118 | exactly the requested sectors of the medium are replaced; every other byte of the medium is unchanged |
| `Geometry.TrimFacts` | FatFs/source/ff.c:40-42 | cluster numbers fit an entry; the end mark is past every possible cluster number and is not the disk-error code |
| `Mount.EntriesFit` | FatFs/source/ff.c:3390-3403 | in a FAT that passes find_volume's size check all bytes of every entry, the second byte of the last FAT12 entry included, lie inside the FAT |
| `Geometry.DecodeEncode` | FatFs/source/ff.c:1237-1271 | what put_fat stores for an entry, get_fat reads back cut to the entry width, whatever bytes were there before |
| `Geometry.PutThenGet` | FatFs/source/ff.c:1226-1271 | on a whole disk image, reading an entry after writing it gives the value cut to the entry width |
| `Geometry.PutKeepsOthers` | FatFs/source/ff.c:1239-1251 | every other entry is unchanged, in particular the FAT12 neighbour that shares a byte, also across a sector boundary |
| `Geometry.PutKeepsUpperBits` | FatFs/source/ff.c:1260-1271 | the top four bits of a FAT32 entry survive a write |
| `Geometry.EndMarkReadsAsEnd` | FatFs/source/ff.c:1434-1438 | the end mark reads back as at least n_fatent and never as the error code, for all three types |
| `Geometry.TableAfterPut` | FatFs/source/ff.c:1226-1271 | put_fat is an update of one element of the table of entry values and touches nothing outside the FATs |
| `Bits.LoadsLittle` | FatFs/source/ff.c:580-598 | ld_word and ld_dword are the two and the four bytes from their place on, the least significant first |
| `Bits.DwordBytesBits` | FatFs/source/ff.c:624-630 | st_dword stores bit 8 k + j of the number as bit j of byte k |
| `FatBits.TableIsBits` | FatFs/source/ff.c:1166-1187 | a table is the one the image holds if and only if bit j of its element c is bit w * c + j of the first FAT, for w = 12, 16 and 32 alike, and no element has a bit beyond its 12, 16 or 28 |
| `FatBits.PutEntryBits` | FatFs/source/ff.c:1239-1271 | put_fat makes the bits of the entry those of the value, and every other bit of the first FAT stays, the neighbour in a shared byte and the upper four bits of FAT32 included |
| `Volume.Fatfs.constructor` | FatFs/source/ff.c:3390-3425 | the object mounted on a disk whose FAT copies agree is consistent and its logical disk is the medium |
| `Volume.Fatfs.SyncWindow` | FatFs/source/ff.c:1042-1061 | flushing leaves the logical disk (medium overlaid with the dirty window, second FAT mirroring the first) unchanged and the window clean |
| `Volume.Fatfs.MoveWindow` | FatFs/source/ff.c:1064-1085 | moving leaves the logical disk unchanged; afterwards the window holds the logical sector |
| `Volume.Fatfs.CleanMedium` | FatFs/source/ff.c:1042-1061 | with a clean window the medium is the logical disk and the second FAT on it equals the first |
| `Volume.Fatfs.GetFat` | FatFs/source/ff.c:1149-1207 | for clusters 2 to n_fatent - 1 returns the table's entry, bit j of which is bit w * c + j of the first FAT, and 1 otherwise, through the window, without changing the logical disk |
| `Volume.Fatfs.PutFat12` | FatFs/source/ff.c:1239-1251 | the two byte writes, with the window possibly evicted between them, put the twelve bits of the value at bit 12 c of the FAT and keep every other bit |
| `Volume.Fatfs.PutFat32` | FatFs/source/ff.c:1260-1271 | the read-modify-write puts 28 bits of the value at bit 32 c of the FAT and keeps every other bit |
| `Volume.Fatfs.PutFat` | FatFs/source/ff.c:1226-1275 | updates exactly one table element and exactly its bits of the FAT, or reports an internal error for a number that is not a cluster and changes nothing |
| `Chains.ChainIsAcyclic` | FatFs/source/ff.c:1511-1602 | a list of clusters that follows the FAT to an end mark visits no cluster twice |
| `Chains.NewChain` | FatFs/source/ff.c:1587-1591 | taking a free cluster as a chain of its own keeps all chains disjoint, acyclic and complete |
| `Chains.StretchedChain` | FatFs/source/ff.c:1587-1591 | linking a free cluster behind a chain keeps all chains disjoint, acyclic and complete; every other chain stays |
| `Chains.CreatedKeepsChains` | FatFs/source/ff.c:1511-1602 | every successful create_chain keeps the invariant, appends one previously free cluster to exactly one chain and lowers the free count by one |
| `Chains.UnlinkCounts` | FatFs/source/ff.c:1441-1473 | on any FAT whatever, cyclic or cross-linked, remove_chain only turns entries into zeros and counts each of them once |
| `Chains.UnlinkChain` | FatFs/source/ff.c:1441-1473 | on a chain, remove_chain frees exactly the clusters of the suffix it is given |
| `Chains.RemovedKeepsChains` | FatFs/source/ff.c:1416-1502 | remove_chain keeps the invariant: the requested suffix is free, the kept prefix ends in an end mark, other chains stay, the free count grows by the length of the suffix |
| `Chains.Conservation` | FatFs/source/ff.c:1416-1602 | as long as the other chains stay, the length of one chain and the number of free clusters have a constant sum, whatever the two FATs look like |
| `Volume.Fatfs.RemoveChain` | FatFs/source/ff.c:1416-1502 | the method refines the unlinking function on every FAT contents, terminates because the number of non-zero entries decreases, sets the lowest bit of fsi_flag and no other exactly when the count changed, keeps a count exact or unknown, and reports bad cluster numbers |
| `Volume.RemovedCountExact` | FatFs/source/ff.c:1450-1453 | a free count that is exact before remove_chain is exact after it, although the increment saturates |
| `Volume.CreatedCount` | FatFs/source/ff.c:1587-1597 | taking and linking a free cluster lowers the number of free clusters by exactly one |
| `Chains.NoneFree` | FatFs/source/ff.c:1532 | the number of free clusters is zero exactly if no entry is free |
| `Volume.Fatfs.FindFree` | FatFs/source/ff.c:1573-1586 | the wrap-around search terminates, returns the first free cluster after the start in cyclic order, and reports none only if no entry from 2 on is zero |
| `Volume.Fatfs.CreateChain` | FatFs/source/ff.c:1511-1602 | for every hint and every cluster: follows an existing link, reports errors, or takes one free cluster (the next one if free, else the first after the hint), updates the counters and sets the lowest bit of fsi_flag and no other; a count that is exact or unknown stays so, and under such a count no space is reported only if no entry is free |
| `Volume.Fatfs.ScanEntries` | FatFs/source/ff.c:4687-4706 | the FAT16 and FAT32 scan counts every zero entry of the table, the two reserved ones included |
| `Volume.Fatfs.ScanFat12` | FatFs/source/ff.c:4657-4664 | the FAT12 scan counts exactly the free clusters, or reports the bad link it meets |
| `Volume.Fatfs.GetFree` | FatFs/source/ff.c:4634-4712 | returns a known count unchanged; otherwise the count is exact, on FAT16 and FAT32 if and only if the two reserved entries are not zero, and the lowest bit of fsi_flag is set; then a count that was exact or unknown stays so |
| `Volume.ReservedZeros` | FatFs/source/ff.c:4687-4706 | in a table of n zero entries the scan counts n free clusters while n - 2 are free, for every n |
| `Sync.BlankFat16` | FatFs/source/ff.c:4687-4706 | a FAT16 drive of 5000 clusters whose boot record find_volume accepts and whose blank FAT is such a table: 5002 free clusters are counted |
| `Sync.SyncFs` | FatFs/source/ff.c:1095-1122 | afterwards the medium is the logical disk, and a mount of it takes over just the current hints, due or not, unless FSINFO is not used; the FAT is unharmed when the FSINFO sector is a reserved one, and with one reserved sector cluster 2 reads as free |
| `Sync.HintsSurvive` | FatFs/source/ff.c:3405-3425 | the next mount reads back the free count and the hint that were synchronised |
| `Mount.HintsStay` | FatFs/source/ff.c:3405-3425 | if the FSINFO sector holds the hints or the flag is set, no change behind the reserved area alters that; together with the marks of create_chain, remove_chain and f_getfree it holds from mount on |
| `Mount.InfoTaken` | FatFs/source/ff.c:3405-3425 | the hints are the double words at offsets 488 and 492 of the sector behind a FAT32 boot record if the word at offset 48 of that record is 1 and the sector carries RRaA, rrAa and 55 AA; otherwise they are unknown, and only without such a word FSINFO stays unused |
| `Sync.OneReservedSector` | FatFs/source/ff.c:3354-3403 | a concrete FAT32 boot record with one reserved sector is accepted, so that the FSINFO sector is the start of the FAT |
| `DataArea.Clst2SectIsFirst` | FatFs/source/ff.c:1132-1140 | clst2sect of cluster c is the start of the cluster's own run of sectors, c - 2 cluster sizes into the data area |
| `DataArea.ClusterInside` | FatFs/source/ff.c:1132-1140 | the sectors of every cluster lie inside the data area |
| `DataArea.ClustersApart` | FatFs/source/ff.c:1132-1140 | different clusters have no sector in common |
| `DataArea.SectorPlace` | FatFs/source/ff.c:3762 | the mask with csize - 1 is the sector's place in its cluster, because csize is a power of two |
| `DataArea.ByteOfChain` | FatFs/source/ff.c:3762-3774 | byte i of what a chain holds is byte i modulo 512 of a sector of the cluster at chain element i / 512 / csize |
| `DataArea.ClusterStart` | FatFs/source/ff.c:4339-4344 | the mask with the negated cluster size is the offset of the cluster that holds the byte |
| `FileView.BufferWrite` | FatFs/source/ff.c:3926-3943 | a partial write into the sector buffer changes exactly the file bytes written, also at the growing edge where the buffer was not read |
| `FileView.DirectWrite` | FatFs/source/ff.c:3898-3919 | a direct multi-sector write changes exactly the file bytes written and refreshes a buffer it overwrote |
| `FileView.DirectRead` | FatFs/source/ff.c:3783-3802 | a direct multi-sector read, patched with a dirty buffer, delivers the file's bytes |
| `FileView.BufferRead` | FatFs/source/ff.c:3816-3823 | bytes copied from the buffered sector are the file's bytes |
| `FileView.FlushKeeps` | FatFs/source/ff.c:3890-3893 | writing a dirty buffer back does not change the file |
| `File.Fil.constructor` | FatFs/source/ff.c:3672-3697 | an opened file satisfies the invariant: its chain belongs to a well-formed FAT and its content is what its sectors hold |
| `File.Fil.FRead` | FatFs/source/ff.c:3737-3827 | returns exactly the bytes at fptr clipped to the size, advances fptr by their number, changes no content |
| `File.Fil.FWrite` | FatFs/source/ff.c:3837-3949 | content becomes the old content with the bytes written at fptr and the file is marked modified; a short count only when no cluster is free and the chain is used up; clusters are added only as far as the last byte written needs; outside the FATs only the file's own sectors change |
| `File.Fil.FLseek` | FatFs/source/ff.c:4329-4403 | reaches the target, which is clipped to the size on a file that is not writable, keeps the content as a prefix, leaves clust at chain element (fptr - 1) divided by the cluster size; inside the chain no FAT entry changes, beyond it no cluster is added that the pointer does not need; on a full disk it stops exactly at the end of the chain; the file is marked modified exactly if it got longer; outside the FATs only its own sectors change |
| `File.Fil.FTruncate` | FatFs/source/ff.c:4723-4763 | content becomes its prefix up to fptr, the chain its prefix of the clusters that needs; the file is marked modified exactly if something was cut, otherwise nothing changes; outside the FATs only the file's own sectors change |
| `FileRuns.Execute` | FatFs/source/ff.c:3737-3949 | every run of reads, writes, seeks and truncations refines a byte array with a position and a modified flag; with an exact free count a write or seek goes exactly as far as the file's own and all free clusters allow, otherwise it may also stop at the end of its last cluster where the count says so; after every operation the FAT is well formed, the chain has grown or shrunk by exactly the clusters needed and a known free count by as many; the system area and all other chains keep their data |
| `FileRuns.RunKeepsLimit` | FatFs/source/ff.c:3837-3949 | along a run the largest size the file can reach never changes: clusters are neither lost nor gained |
| `FileRuns.OthersKeepTheirData` | FatFs/source/ff.c:3837-3949 | an operation on one file leaves every sector of every other chain as it was |
| `TwoFiles.Operate` | FatFs/source/ff.c:3737-4763 | an operation on one of two open files leaves the other one with the same content, position, buffer and chain, consistent on the volume as it has become if and only if the sector of its buffer was not taken, as is certain if the buffer is empty or stands for one of its own sectors; everything else keeps its data |
| `TwoFiles.Interleave` | FatFs/source/ff.c:3737-4763 | every interleaving of operations on two open files: each refines a byte array of its own on the FAT and count they share, up to an operation that cuts a file at the end of a sector |
| `TwoFiles.PairKeepsClusters` | FatFs/source/ff.c:1416-1602 | along such a run the two chains and the free clusters add up to a constant number |
| `Durable.EntryReadBack` | FatFs/source/ff.c:4014-4018 | opening reads back the first cluster and the size f_sync stored, under the same name |
| `Durable.LdClustMeans` | FatFs/source/ff.c:1834-1847 | the first cluster of an entry is the word at offset 26 and, on FAT32, the word at offset 20 as its upper half |
| `Durable.UpdatedMeans` | FatFs/source/ff.c:4013-4018 | of an entry f_sync changes, byte by byte: the archive bit is set, the access date cleared, the time, the first cluster and the size stored; name, other attributes and creation time stay |
| `Durable.CountSurvives` | FatFs/source/ff.c:3405-3425 | the hints f_sync leaves on the medium of a volume with an exact or unknown count describe its free clusters |
| `Durable.FSync` | FatFs/source/ff.c:3958-4028 | a modified file is written back; of its entry exactly the archive bit, access date, time, first cluster and size change, to these values; the medium is the logical disk; apart from the entry, the file's own sectors and the FSINFO sector nothing changes, and a mount takes over the current hints; the file itself is unchanged, on every volume whose FSINFO sector is not in the FAT |
| `Durable.SyncAndReopen` | FatFs/source/ff.c:3214-3425 | after f_sync, find_volume on the medium finds the volume, and opening the file by its entry yields the same bytes, chain and FAT; where FSINFO is used the count and the hint are those before, and a free count that was exact or unknown still is |
| `Durable.MountableKept` | FatFs/source/ff.c:3270-3403 | whether and how a volume is found depends only on its boot record and on what lies outside the volume |
| `Durable.RunAndReopen` | FatFs/source/ff.c:3737-4028 | any run of operations on a file, then f_sync, then a new mount: the file opened by its entry holds exactly the bytes, chain and FAT the run left, and a free count that was exact or unknown still is, whenever the run left the file marked modified, which every write, stretching seek and cutting truncation does |
| `Mount.LayoutRegions` | FatFs/source/ff.c:3354-3403 | when no sum wraps, the reserved, FAT, root and data regions follow each other without overlap inside the volume |
| `Mount.AcceptedIsSound` | FatFs/source/ff.c:3354-3403 | for every accepted boot record: all FAT accesses and all clusters lie in their regions if and only if the sum of the system areas fits 32 bits |
| `Mount.WrapIsAccepted` | FatFs/source/ff.c:3360-3403 | a concrete boot record with wrapping sums that is accepted although its FATs overrun the data area |
| `Mount.AcceptedRoot` | FatFs/source/ff.c:3367-3399 | the static root directory of an accepted FAT12 or FAT16 volume is a whole number of sectors between the FATs and the data area |
| `Mount.LocateVolume` | FatFs/source/ff.c:3270-3286 | finds a volume at sector 0 or in the first of four partitions that holds one, and fails only if there is none; partition i starts at the double word at offset 454 + 16 i of sector 0 if the type byte at 450 + 16 i is not zero |
| `Mount.CheckFsMeans` | FatFs/source/ff.c:3195-3204 | a sector is a FAT boot record if and only if it ends in 55 AA, begins with one of three jump codes and has FAT at offset 54 or FAT32 at offset 82 |
| `Mount.AcceptedMeans` | FatFs/source/ff.c:3354-3403 | a boot record is accepted if and only if its bytes pass the tests, and then cluster size, FATs, root entries, FAT size, number of clusters, type and the starts of FAT, root and data area are those of its bytes; the FAT32 root is the cluster in the double word at offset 44 |
| `Mount.FindVolume` | FatFs/source/ff.c:3214-3403 | the outcome is no file system, or that of the boot record of a located volume, accepted or not and with its layout by the bytes of that record |
| `Mkfs.AutoUnit` | FatFs/source/ff.c:5794-5807 | the cluster size is doubled once for every table boundary the volume reaches; it is a power of two of at most 64 sectors |
| `Mkfs.AutoSettles` | FatFs/source/ff.c:5803-5853 | the first automatic attempt at FAT12 or FAT16 fits, or the doubled cluster size does, or the volume exceeds what FAT16 holds with 64 sectors a cluster |
| `Mkfs.AutoSettles32` | FatFs/source/ff.c:5793-5838 | from 66075 sectors on the automatic attempt at FAT32 or the one with half the cluster size fits, below it does not |
| `Mkfs.AutoChooses` | FatFs/source/ff.c:5803-5853 | the table for FAT12 and FAT16, with all its boundaries: the first automatic attempt or the doubled one is the choice, for every volume size |
| `Mkfs.AutoChooses32` | FatFs/source/ff.c:5793-5838 | the table for FAT32: the first attempt has enough clusters exactly from the boundary on, below it half the size is the choice |
| `Mkfs.FixedTurn` | FatFs/source/ff.c:5819-5858 | with a given cluster size a turn settles, gives up or switches to FAT32 exactly as the fit of the two types demands |
| `Mkfs.PlanVolume` | FatFs/source/ff.c:5789-5859 | the geometry retry loop terminates; a plan it returns has consistent sizes, type limits and the shortest FAT that holds an entry for every cluster the whole volume would have; it succeeds if and only if, for the automatic cluster size, the volume is large enough for FAT32 or small enough for FAT16 where only that is allowed, and, for a given size, the first type fits or FAT32 fits where FAT16 overflows; the automatic type and cluster size are those of a table by volume size; a given size is the one planned, and FAT32 is planned only where it is allowed |
| `Mkfs.BpbReadBack` | FatFs/source/ff.c:5866-5899 | every layout field of the boot record reads back as planned |
| `Mkfs.MountAgrees` | FatFs/source/ff.c:3354-3403 | find_volume accepts the boot record f_mkfs writes and computes the same type, cluster count, FAT base and data base |
| `Mkfs.PlanIsSound` | FatFs/source/ff.c:5789-5865 | the planned layout keeps all FAT accesses and clusters in their regions |
| `Mkfs.FillArea` | FatFs/source/ff.c:5925-5940 | the area loop writes the prepared head and zeros behind it, for every buffer size |
| `Mkfs.FreshTable` | FatFs/source/ff.c:5914-5932 | the written FAT area decodes to the table with two reserved entries and, on FAT32, the root cluster |
| `Mkfs.NewTableWellFormed` | FatFs/source/ff.c:5914-5932 | the new table satisfies the chain invariant and its free count is exact |
| `Mkfs.InfoReadBack` | FatFs/source/ff.c:5904-5911 | the FSINFO record reads back as the recorded free count and hint |
| `Mkfs.BootMeans` | FatFs/source/ff.c:5866-5899 | the boot record byte by byte: jump code, MSDOS5.0, sizes, media byte, track and head numbers, offset of the volume, serial number, FSINFO sector 1, backup sector 6, root cluster 2, label and type name, mark |
| `Mkfs.InfoMeans` | FatFs/source/ff.c:5903-5909 | the FSINFO record byte by byte: RRaA, rrAa, free count, hint, mark, zeros |
| `Mkfs.PartitionMeans` | FatFs/source/ff.c:5965-5981 | the partition table byte by byte: one entry with its start and end in cylinders, heads and sectors, type, first sector and length |
| `Mkfs.FormatCountsFree` | FatFs/source/ff.c:5904-5911 | the recorded FAT32 free count n_clst - 1 is the number of zero entries |
| `Mkfs.MbrLeadsToVolume` | FatFs/source/ff.c:5965-5981 | the partition table points find_volume at the new volume and at nothing else |
| `Mkfs.FormattedIsFound` | FatFs/source/ff.c:3270-3286 | on a formatted drive find_volume can only find the new volume |
| `Mkfs.FormatThenMount` | FatFs/source/ff.c:3354-3425 | a formatted image is accepted with the planned layout, which is sound, and holds a well-formed FAT |
| `Mkfs.FMkfs` | FatFs/source/ff.c:5531-5990 | whenever FR_OK is returned, the drive holds, byte by byte, the boot record, on FAT32 its backup in sector 6 and FSINFO in sectors 1 and 7, the start of the FAT, and the partition table with the type that goes with the volume; the root directory is blank and the volume reachable from sector 0; FR_OK is returned exactly for valid parameters and drives of suitable size, for every drive with at least 128 sectors for the volume when both types are allowed and the cluster size is automatic; a given cluster size is the one made, an automatic one that of the table, and only an allowed type is made |
| `Lifecycle.FormatAndMount` | FatFs/source/ff.c:5531-5990 | formatting and then mounting gives a consistent volume with a well-formed FAT, a blank root directory and an exact or unknown free count, for exactly the drives f_mkfs accepts |
| `Lifecycle.FormatAndOpenRoot` | FatFs/source/ff.c:5934-5940 | the root directory of a freshly formatted and mounted volume is in order, empty and not full, and the volume can be mounted again, for exactly the drives f_mkfs accepts |
| `Session.CreateFile` | FatFs/source/ff.c:3583-3697 | f_open of a new file: refused, without any change, exactly if the name exists or the directory is full; otherwise exactly that name is added, its entry is byte by byte that of a new empty file, f_sync has to record it, and nothing is taken from the volume but the cluster that a directory needs of which every entry was used |
| `Session.CreatedMeans` | FatFs/source/ff.c:3626-3632 | a new entry holds the name, the archive attribute and the creation time, and zeros |
| `Session.WriteAndReadBack` | FatFs/source/ff.c:3547-4028 | in any directory in order: a new file, any run of operations on it that starts on the volume as it was, f_sync, a new mount of the medium, the name looked up by dir_find, the file opened and read to its end; what is read is what the run left; a free count that was exact or unknown still is; the directory on the medium has its other names and entries as before, the new name with the file's first cluster and size; the data of all other chains stays |
| `Session.FormatWriteRead` | FatFs/source/ff.c:3547-5990 | from an unformatted drive: f_mkfs, mount, a new file in the root directory, any run on it that starts with every cluster free but the root's, f_sync, mount of the same drive, read; it succeeds for exactly the drives f_mkfs accepts; what is read is what the run left, the free count is exact or unknown, and the root directory holds exactly that name |
| `DirTable.LookupMeans` | FatFs/source/ff.c:2449-2478 | a lookup succeeds at the first matching entry before the end mark, and fails only if there is none |
| `DirTable.MatchMeans` | FatFs/source/ff.c:2475 | an entry matches if and only if its volume-label bit 0x08 is clear and its first eleven bytes are those of the name |
| `DirTable.LabelUnseen` | FatFs/source/ff.c:2475 | replacing one volume label by another changes no lookup, and no lookup ends at one |
| `DirTable.RegisterMeaning` | FatFs/source/ff.c:2569-2585 | seen as a map from names to entries, registering an absent name adds that name and changes nothing else, and keeps the table in order |
| `DirTable.RemoveMeaning` | FatFs/source/ff.c:2626-2630 | removing a name takes that name out of the map and changes nothing else, and keeps the table in order |
| `DirTable.RenewMeaning` | FatFs/source/ff.c:4011-4020 | changing the entry of a name without changing the name changes what the name stands for and nothing else |
| `DirTable.StretchMeaning` | FatFs/source/ff.c:1757-1769 | a cleared cluster behind the table does not change the map |
| `DirTable.StretchKeeps` | FatFs/source/ff.c:1757-1769 | the zero-tail condition and the uniqueness of names survive stretching |
| `Volume.Fatfs.DirClear` | FatFs/source/ff.c:1644-1673 | the cluster is zero, nothing else on the logical disk changes, and the window stands for its first sector |
| `Directory.TableStretched` | FatFs/source/ff.c:1757-1769 | a new cleared cluster adds unused entries behind the old ones |
| `Directory.TablePatched` | FatFs/source/ff.c:2575-2585 | changing the bytes of one entry changes no other entry of the table |
| `Directory.EntryByte` | FatFs/source/ff.c:1683-1722 | byte b of entry k of a directory is at its place in the static root area, or in the cluster at chain element k / 16 / csize of a chain that begins with the directory's first cluster, on FAT32 with the root's for 0 |
| `Directory.Dir.constructor` | FatFs/source/ff.c:4430-4453 | a directory object for the static root or for a chain of a well-formed FAT satisfies the invariant |
| `Directory.Dir.DirSdi` | FatFs/source/ff.c:1683-1722 | succeeds exactly for aligned offsets of existing entries below MAX_DIR and then points at that entry's offset, cluster and sector |
| `Directory.Dir.DirNext` | FatFs/source/ff.c:1731-1782 | moves to the next entry, reports the end, or stretches a chained table by one cleared cluster, which happens only on a volume with room; denied only if no cluster is free; otherwise the volume is untouched |
| `Directory.StepOrJump` | FatFs/source/ff.c:1683-1782 | of two objects for one table, one steps k times from offset 0 and the other jumps to 32 k: both succeed exactly if there is an entry k, and then stand at it with the same offset, cluster and sector; the volume is untouched |
| `Directory.Dir.DirAlloc` | FatFs/source/ff.c:1792-1823 | finds the first entry whose first byte is E5 or 0, stretching if there is none; denied if and only if no entry begins with one of these bytes and the table is static, at its maximum or without a free cluster |
| `Directory.Dir.DirFind` | FatFs/source/ff.c:2412-2482 | the entry found has the volume-label bit clear and the eleven bytes of the name and is the first such one before a zero byte; FR_NO_FILE means that every entry before the first zero byte is a label or has other bytes; the volume is untouched |
| `Directory.Dir.DirRegister` | FatFs/source/ff.c:2569-2588 | the name goes into the first free entry, or, if all are used, into the first one of a cleared cluster behind the table, which is linked to its chain and taken off a known free count; on a table in order, an absent name is added to the map and nothing else changes; denied, without any change, if and only if the table is full and cannot grow; outside the FATs only the directory's own sectors change |
| `Directory.Dir.DirRemove` | FatFs/source/ff.c:2624-2634 | the entry is marked deleted; on a table in order exactly its name leaves the map; the FAT and everything outside the directory's own sectors stay |
| `DirRuns.Execute` | FatFs/source/ff.c:2412-2635 | every run of lookups, creations and deletions refines a map from names to entries; for every operation of the run: the entry it changes, the table, chain and FAT it leaves, and that a new name is refused exactly when every entry is used and the table is static, at its maximum or no cluster is free |
| `DirRuns.FullIsLongest` | FatFs/source/ff.c:1757-1769 | with an exact free count a table is full if and only if all its entries are used and it has the length that its own and all free clusters allow |
| `DirRuns.RunIsDetermined` | FatFs/source/ff.c:2412-2635 | with an exact free count all tables and reports of a run are those of a reference on tables that knows nothing of the volume but the greatest length, which is fixed before the run |
| `LinkMap.FragmentCount` | FatFs/source/ff.c:4278-4302 | the fragments are maximal: one more than the places where the chain is not contiguous |
| `LinkMap.GetFragment` | FatFs/source/ff.c:4285-4291 | one fragment is followed to its end; it aborts only on an end mark that looks like the next cluster |
| `LinkMap.CreateLinkMap` | FatFs/source/ff.c:4275-4302 | the required size is 2 plus twice the number of fragments; with enough room the table encodes the chain; FR_INT_ERR if and only if the last cluster of the volume ends the chain with the mark n_fatent |
| `LinkMap.MapItems` | FatFs/source/ff.c:4275-4302 | a concrete map: its size, length and top cluster of each fragment in order, and the zero at its end |
| `LinkMap.OwnMarksAreClear` | FatFs/source/ff.c:1587 | chains ended by this program's own end mark never cause that error |
| `LinkMap.MisleadingMark` | FatFs/source/ff.c:4286-4291 | a concrete table whose last cluster ends a chain with such a mark |
| `LinkMap.ClmtClust` | FatFs/source/ff.c:1614-1632 | for every offset the lookup returns the chain's cluster at offset divided by the cluster size, 0 past the end |
| `LinkMap.FollowReaches` | FatFs/source/ff.c:1614-1632 | that cluster is the one reached by following get_fat as many times |
| `Glob.BlockMeans` | FatFs/source/ff.c:2802-2807 | a mixed run of wildcards may be collapsed to its number of question marks and the presence of a star |
| `Glob.TryAt` | FatFs/source/ff.c:2799-2814 | one attempt decides the match at a fixed place; if it used up the name, no shorter rest of the name can match |
| `Glob.PatternMatching` | FatFs/source/ff.c:2782-2819 | returns 1 exactly when the name matches behind the skipped characters, at any place if a star was seen; the recursion terminates |
| `Glob.Matches` | FatFs/source/ff.c:4547-4570 | the matcher as it is called decides the usual case-insensitive meaning of question mark and star |
| `Glob.FoldIsUp` | FatFs/source/ff.c:2751-2773 | the matcher folds every character as create_name does |
| `Glob.CodePage437Works` | FatFs/source/ff.c:270-277 | no character of the configured code page folds to the end of a string |
| `Names.CreateName` | FatFs/source/ff.c:2955-3015 | a segment is accepted exactly if it is an 8.3 name of legal characters; then the 11 bytes are its up-cased, padded parts with the E5 substitution; the next segment starts behind the separators |
| `Names.UpMeans` | FatFs/source/ff.c:2999-3005 | each small letter becomes the capital at its place in the alphabet, an extended character what the table says, and every other character stays |
| `Names.IllegalMeans` | FatFs/source/ff.c:2967-3004 | exactly the listed characters are rejected, and exactly control characters, the space and the two slashes end a segment |
| `Names.GetFileinfo` | FatFs/source/ff.c:2724-2733 | prints the stored bytes without padding, with a dot before a non-empty extension |
| `Names.NameRoundTrip` | FatFs/source/ff.c:2724-2733 | what create_name stores prints back as the up-cased segment without a trailing dot, and its first byte is neither the end mark nor the deletion mark |
| `Names.SameNameIffSameText` | FatFs/source/ff.c:2955-3015 | two accepted segments are stored alike if and only if they print alike |
| `Names.ListedNameIsFound` | FatFs/source/ff.c:2724-3015 | the text printed for a stored name is accepted by create_name and stored as the same eleven bytes, unless the segment was the single dot, for every table under which capitals stay what they are |
| `Names.CodePage437Stable` | FatFs/source/ff.c:270-277 | the table of the configured code page is such a table |
| `Names.SingleDot` | FatFs/source/ff.c:2981-2985 | the single dot is the only accepted segment of which nothing is printed |
| `Names.DotAccepted` | FatFs/source/ff.c:2981-2985 | the single dot is accepted with every up-case table, stored as eleven spaces and printed as nothing |
| `Names.CodePage437Ok` | FatFs/source/ff.c:270-277 | the up-case table of the configured code page yields capital letters and extended characters only |
| `Tftp.ParseNumber` | demo/main_netboot.c:912-936 | an option value is accepted exactly if it is decimal and within the limit, and then it is that number |
| `Tftp.ParseOptions` | demo/main_netboot.c:895-945 | an option acknowledgement is accepted exactly if every option has a value and every value is good, the last option of each name counts, and the sizes are at most 16 and 1024 |
| `Tftp.Client.constructor` | demo/main_netboot.c:722-751 | the initial state satisfies the invariant |
| `Tftp.Client.Ack` | demo/main_netboot.c:672-698 | the window moves over the leading received blocks; with winstart 0 it always takes the progress branch; otherwise the retry limit decides |
| `Tftp.Client.SendAck` | demo/main_netboot.c:672-718 | the acknowledgement names the new position, up to which every block has been stored; winbuf moves by whole blocks unless the last one is the remembered short block |
| `Tftp.Client.OnOack` | demo/main_netboot.c:879-961 | ignored after data; otherwise refused exactly for bad options or at the retry limit, and else the negotiated sizes are set and block 0 is acknowledged, once, or twice for a repeated OACK |
| `Tftp.Client.OnData` | demo/main_netboot.c:962-1062 | a block is stored exactly if it lies in the window in force and is not too long, at its place behind winbuf; then the window, the position, the acknowledgement and the end follow; the last acknowledged block, sent again before any of the window, adds exactly one acknowledgement of the position reached or ends the run at the retry limit; any other block outside the window changes nothing |
| `Tftp.DataObeys` | demo/main_netboot.c:962-1062 | the effect of a DATA packet on log, window and status for every position: which block its number stands for, where it is stored, which block is remembered as the furthest, when the window is complete and what is then acknowledged |
| `Tftp.TimeoutObeys` | demo/main_netboot.c:803-815 | a timeout after the request was answered adds exactly one acknowledgement, over the blocks the window begins with, or ends the run at the retry limit; before that it only repeats the request |
| `Tftp.ErrorTurn` | demo/main_netboot.c:852-875 | an error ends the run, except that a first one repeats the request for blocks of 512 bytes, one at a time |
| `Tftp.OackObeys` | demo/main_netboot.c:879-961 | the acknowledgements and the state an OACK leaves, first or repeated, with good or bad options or after data |
| `Tftp.Client.Complete` | demo/main_netboot.c:1028-1062 | exactly a complete window is acknowledged, as a whole, and a remembered short block then ends the transfer |
| `Tftp.Client.ReportedSize` | demo/main_netboot.c:1037-1041 | the reported size is the acknowledged blocks times the block size, with the short block counted exactly if it is the one acknowledged last |
| `Tftp.StoresApart` | demo/main_netboot.c:1014-1015 | blocks stored while winbuf counts whole blocks go to places that do not overlap |
| `Tftp.FullWindow` | demo/main_netboot.c:1029-1034 | the mask comparison recognises a complete window, which is then acknowledged as a whole |
| `Tftp.Receive` | demo/main_netboot.c:720-1069 | over every sequence of packets and timeouts, across 16-bit wrap: every event has the effect the laws give it, and the state after it is that of the reference; every stored block came with the event recorded for it and lies within the window in force, block b at b - 1 block sizes as long as winbuf is the block size times the acknowledged blocks, which it is until a short block is counted; each acknowledgement covers only blocks stored before it was sent, and positions never go back; the reported size is the acknowledged blocks unless a short block was counted earlier |
| `Tftp.LastBlockAnswered` | demo/main_netboot.c:991-1000 | in any run, the last acknowledged block sent again before any block of the window is answered with exactly one acknowledgement of the position reached, or the run ends at the retry limit |
| `Tftp.OthersIgnored` | demo/main_netboot.c:1001-1003 | in any run, any other block outside the window changes nothing |
| `Tftp.ReplayIsPlay` | demo/main_netboot.c:720-1069 | the states of a run are those of the reference for the events so far |
| `TftpRuns.CompletesWhen` | demo/main_netboot.c:1014-1034 | a window whose first n blocks are all there completes if and only if n is its size, or, once a short block is remembered, if and only if the block that came last is the n-th |
| `TftpRuns.NeverCompletes` | demo/main_netboot.c:1014-1041 | a concrete run that has received all four blocks of its window, does not complete it, acknowledges them at the next timeout and fails at the retry limit |
| `TftpRuns.EarlyFinish` | demo/main_netboot.c:1014-1041 | a concrete run that ends with 1024 bytes although block 3 is missing and the short block 4 is not counted |
| `TftpRuns.EndlessRetries` | demo/main_netboot.c:674-695 | a concrete run to a window that starts at block 0, where a received block is forgotten and any number of timeouts passes without reaching the retry limit |
| `IceNet.SpaceAndCount` | bsp/icenet.h:57-65 | used and free slots always add up to 63 |
| `IceNet.FramesApart` | bsp/icenet.h:49-54 | frame buffers of different slots and of the two rings do not overlap and lie below 4 GiB |
| `IceNet.Ring.Push` | bsp/icenet.c:40-45 | appends the head slot's buffer to the ring's contents |
| `IceNet.Ring.Pop` | bsp/icenet.c:47-53 | removes the oldest buffer of the ring's contents |
| `IceNet.Nic.constructor` | bsp/icenet.c:134-150 | after opening, the device owns exactly the posted slots |
| `IceNet.Nic.AllocRecv` | bsp/icenet.c:55-70 | posts slots until the device or the ring has no room, exactly as many as both have room for, keeping the ownership invariant |
| `IceNet.Nic.OneSlotFree` | bsp/icenet.h:62-65 | the device never owns more than 63 slots of a ring |
| `IceNet.Nic.Recv` | bsp/icenet.c:96-113 | with a completion available it returns the buffer the device filled first |
| `IceNet.Nic.LastFrameIsFree` | bsp/icenet.c:96-113 | the frame returned last is not owned by the device, so it is not posted again before the next receive |
| `IceNet.Nic.FilledInTurn` | bsp/icenet.c:40-70 | the k-th frame the device fills is in the k-th buffer of the ring, going around |
| `IceNet.Nic.CompleteSend` | bsp/icenet.c:84-94 | retires exactly the completed transmissions |
| `IceNet.Nic.GetTxBuffer` | bsp/icenet.c:72-81 | an offered transmit buffer is never in flight; the flag tells whether both sides have room |
| `IceNet.Nic.StartXmit` | bsp/icenet.c:115-132 | the offered buffer becomes the youngest in flight |
| `IceNet.Run` | bsp/icenet.c:40-150 | in every run of driver and device the numbers of posted, filled, received and sent frames are those the events add up to; the buffers are filled in turn, the frames received are the first of those filled, in order, and the last one is free |

## Left out

- Disk errors: disk_read and disk_write always succeed, so results other than the ones in the contracts cannot occur; a short or failing transfer is not modelled.
- exFAT, long file names, Unicode, double-byte code pages, relative paths, file locks, re-entrancy, string functions, labels, fdisk, f_expand and f_forward: disabled in this build or easy additions.
- The checks of file and directory objects (validate, the err field and mount identifiers), f_close, the value of time stamps, and attributes other than those f_open and f_sync store.
- The FA_SEEKEND mode of f_open, which positions a file at its end while opening it.
- The path walk of f_open, f_unlink, f_mkdir and f_rename: `DirRuns` composes dir_find with dir_register and dir_remove the way they do, for one directory.
- File.Fil.constructor: takes the file's chain as a ghost argument and demands that it belongs to a well-formed FAT; a FAT that is not well-formed is covered by remove_chain, create_chain and get_fat only.
- Directory.Dir.constructor: the same for directories.
- Durable.FSync: demands that the entry's sector is none of the file's; the place of the entry is a parameter. Where sync_fs writes into the FAT it promises nothing.
- Durable.SyncAndReopen: starts from a file marked as modified, as f_open of a new file, f_write, a stretching f_lseek and a cutting f_truncate leave it; `Durable.RunAndReopen` derives the mark from the run.
- Durable.RunAndReopen: demands that the entry is in the static root directory or in a cluster of another chain, and that no partition listed before the volume's own starts inside the volume, since the file's data could then be taken for its boot record.
- Session.CreateFile: f_open with FA_CREATE_NEW on one directory; overwriting an existing file and the path walk are not modelled.
- TwoFiles.Operate: both files were opened while the free count was equally trusted, and the idle one is not written back by the operation; a third open file, and a directory that changes while files are open, are not modelled.
- Volume.Fatfs.constructor: demands that the two FAT copies agree on the medium; a volume whose copies differ at mount is not modelled. Mounting creates the object instead of refilling it.
- Mount.FindVolume: demands the same as Mount.LocateVolume.
- Mount.LocateVolume: demands that the partition starts of the table lie on the disk, since the RAM disk does not check sector numbers and would read whatever memory follows.
- File.Fil.FLseek: the fast-seek branch is covered by `LinkMap` as a lookup, not as an operation on the open file.
- Mkfs.FMkfs: the erase block size is 1, as the RAM disk reports; trimming and the exFAT branch are not modelled.
- Directory.Dir.DirAlloc: a block of one entry, the only size used without long names.
- Names.CreateName: the up-case table is a parameter that yields capitals and extended characters; `Names.CodePage437Ok` shows that the configured one does.
- Tftp.Receive: equality of the received contents and completeness at the end are not claimed, since the finish test looks at the size of the furthest block and a byte of the destination is overwritten with a terminator for each packet.
- Sockets, addresses, timing, printing, the boot shell, ELF loading and the trampoline of the netboot program.
- IceNet register access, interrupt masks and frame lengths; the caller sends only when a buffer is offered and receives only when a completion is available, as the network interface does.
- The other board drivers and demo tasks: register plumbing and thin wrappers.
