# skyOS: a verified model of its stateful core

skyOS is a small RISC-V kernel. This project models the parts of it whose correctness runs across
many functions, and proves what they promise:

- **the FAT12/16/32 driver** (`kernel/fs`): a one-sector write-back cache; the packed allocation
  table behind it, in every copy; cluster chains; files as byte arrays over chains; directories as
  files of 32-byte slots, with long names;
- **the buddy allocator** (`kernel/mm/buddy.c`, `kernel/include/list.h`, `kernel/mm/pmm.c`);
- **Sv39 page tables, process creation and fork** (`kernel/mm/vms.c`, `kernel/proc`);
- **the counter scheduler** (`kernel/proc/sched.c`);
- **the integer, string and character path of printf** (`kernel/common/printf.c`).

Code that works in place is modelled in place: `SectorCache`, `Volume`, `File`, `Buddy`, `Memory`,
`Kernel`, `Timer` and `Sink` are classes whose methods carry the names, branches and loops of the
source. Each method is proved equal to a function of the old state, and the promises are lemmas about
those functions: over all inputs, all runs, or both.

| files | subject |
|---|---|
| `Arithmetic`, `Options`, `Bytes` | products and quotients; images, sectors, little-endian access |
| `Cache`, `Geometry`, `BootRecord` | sector cache, volume layout, boot record |
| `FatTable`, `FatAccess` | the packed table as an array; the code that reads and writes it |
| `Chains`, `Forest`, `ChainOps` | chains, whole runs of create/grow/remove; the code |
| `Extents`, `Growth`, `Layouts`, `Writing`, `Files` | file contents, cursors, the effect of a write; the code |
| `LongNames`, `ShortNames`, `Slots`, `Filling`, `Listing`, `DirOps`, `Creation` | name encoding and decoding, room in a directory, filling it up, its listing; the code |
| `Lists`, `Blocks`, `Accounting`, `Buddy` | rings, tilings, conservation over runs; the code |
| `PageTables`, `Mapping`, `FreePages`, `Memory` | Sv39 walks, the law of `map`, pages of free blocks; the code |
| `KernelHalf`, `Processes`, `Fork` | shared kernel mappings over runs, private memory, fork |
| `Hardware` | the same tables under the processor's own address translation |
| `Scheduler` | convergence and fairness of the counters |
| `Numbers`, `Printf`, `Texts` | integer fields, the format language, bounded output; what each directive prints |

## Where the code does not do what one would expect

Each of these is kept as the code has it; the lemma named proves exactly when the code does what one
would expect, and the second one, where there is one, gives an input on which it does not.

- `fat_write` finds the end of a cluster with `sector % sectors_per_cluster == 0`. That is right
  exactly when the data area starts on a multiple of the cluster size (`Layouts.WriteTestSound`);
  `fat_read` has the general test. On every other volume a write runs on into the cluster that follows on
  the disk, whoever owns it, and leaves its own cluster early (`Layouts.RunsOn`, `Layouts.OddStart`).
- `fat_write` reaches for the next cluster as soon as a cluster is filled. A search fails exactly when
  fewer clusters are free than `Needed`, which counts that one too. Everything is stored, and read back
  after a seek, exactly when it ends within the clusters of the file and the free ones
  (`Files.WriteSeekRead`); but the cursor stays on the last cluster, so that without a seek the handle is
  good for the next write exactly when enough clusters were free, or the file was empty and none was
  (`Files.File.Write`, `Files.FullVolume`). Otherwise the next write lands on the beginning of the last
  cluster, over what was there, and reports its whole length (`Files.WriteOver`).
- A creation in a chained directory is never refused for want of space: every 32-byte write reports 32
  bytes. All slots in use stay and the new entries are in place exactly when these end within the
  directory's clusters and the free ones; otherwise they overwrite its last cluster from the first slot on
  (`Creation.CreateFile`, `Filling.PutOver`, `Filling.SlotLost`).
- A creation leaves all other names as they were exactly when long entries without a short one before the
  room lend their name to no short entry behind it (`Listing.NamesCreate`, `Listing.OrphanLends`).
- Clearing a new cluster zeroes the shared sector buffer under the tag of the sector written last, in
  the last copy of the table. The next lookup of the cluster just extended is right exactly when there
  is a second copy, or the entry runs over a sector boundary, because the lookup then begins with
  another sector; otherwise it returns 0 (`ChainOps.StaleTag`, and `ChainOps.AfterClear` for every other
  lookup). `ChainOps.ExtendAndLookUp` runs the code on a volume with one copy.
- `fat_lseek` with a `whence` it does not know puts the cursor on the first cluster and leaves the
  position: the handle is still valid exactly for a root directory or a position inside the first
  cluster (`Files.File.LSeek`).
- `_fat_dir_seek_empty` reads past the end of a chained directory exactly when it holds neither an end
  marker nor enough deleted slots in a row (`Slots.ScanEnds`, `Slots.FullDirectory`).
- The name `fat_readdir` shows in place of a missing long one is the 8.3 name exactly when there is no
  extension: otherwise it loses the extension's first character, or the dot (`ShortNames.DotNameRight`).
- The first data sector and the cluster count of a boot record wrap around. The regions follow one
  another exactly when the sectors before the data can be counted on 32 bits, and the clusters end inside
  the volume exactly when the wrapped first data sector is not past its end (`BootRecord.RegionsFit`,
  `BootRecord.RegionsMissed`).
- The fixed root directory's first sector is kept in 16 bits: it is found exactly when the tables end
  below sector 2^16 (`BootRecord.RootFound`, `BootRecord.RootMissed`).
- `kalloc` counts pages on 32 bits: what it returns is large enough exactly for requests below 2^44 bytes
  (`Buddy.Buddy.Kalloc`, `Buddy.Buddy.WideRequest`).
- `kalloc` needs one free block of the order asked for; free pages side by side in smaller blocks do not
  serve (`Memory.Memory.Kalloc`, `FreePages.ScatteredFails`).
- `map` maps a page for every `va + k * PGSIZE` below `va + size`. Every byte of a fresh range reaches
  its place exactly when `va` and `pa` have the same offset in their pages and the range does not spill
  into one page more than it fills (`Memory.MapTranslatesWhen`, `Memory.HalfPages`).
- Physical addresses from 2^52 on lose their high bits in a page table entry (`PageTables.PpnOfPte`).
- A page taken for a table is not cleared: a stale word in it is a translation nobody asked for, exactly
  when it passes the tests of `trans`; in a middle table it leads into whatever table it names
  (`PageTables.StaleTable`).
- `umap` sets the U bit in entries that point to the next table as well as in leaves; sections 4.3.1 and
  4.3.2 of the RISC-V Privileged Architecture (20211203) reserve D, A and U there and make a walk that
  meets one fault. `Hardware` models that walk. It agrees with `trans` exactly where `trans` finds
  nothing, or the address is canonical and neither pointer entry on its path has such a bit
  (`Hardware.Agree`); on pages `map` maps under an unused root entry, exactly when `perm` has none
  (`Hardware.MapSeen`). So a processor that checks the reserved bits faults on everything `umap` ever
  maps (`Hardware.RunUnseen`, `Hardware.OnePageUnseen`).
- `schedule` takes the first task with more ticks than the current one, not, as its comment says, the one
  with the most. It ends with a task that has the most exactly when the first runnable task above the
  current one has the most, or none is above (`Scheduler.TakesGreatest`, `Scheduler.SecondTaken`); once
  all counters are within one of each other it always does (`Scheduler.NearGreatest`).
- The scheduler is fair until all runnable counters reach 0. A counter of 0 wraps in the next tick, and its
  task keeps the processor until it is down to the others: for 2^64 - 1 ticks when all are 0
  (`Scheduler.Starves`). Ticks from supervisor mode can bring one there earlier
  (`Scheduler.SupervisorDrains`).
- Zero padding does not reach beyond 32 characters (`Numbers.FieldWidth`), and `%#x` takes digits back
  when the digits alone fill the width (`Numbers.HashField`).
- `-` sets the precision of a number aside: it has as many digits as the precision says exactly when the
  precision is at most 32 and, with `-`, at most the digits it has anyway (`Texts.PrecisionKept`,
  `Texts.LeftSample`). `%b` prints the low 32 bits; every other bare conversion prints its number in full
  (`Texts.UnsignedReads`, `Texts.SignedReads`).

## Model

| member | source | states |
|---|---|---|
| Bytes.Get16OfSplice | kernel/include/openfat/leaccess.h:31-38 | a 16-bit value stored by `__put_le16` is what `__get_le16` loads |
| Bytes.Get32OfSplice | kernel/include/openfat/leaccess.h:40-48 | the same for 32 bits |
| Bytes.PutLe32 | kernel/include/openfat/leaccess.h:45-48 | the four bytes change, little end first, and nothing else |
| Cache.SectorCache.Flush | kernel/fs/fat_core.h:75-82 | the device becomes what readers saw; the disk as seen does not change |
| Cache.SectorCache.Get | kernel/fs/fat_core.h:84-96 | the buffer holds the sector asked for and the disk as seen does not change, whatever was cached |
| Cache.SectorCache.Put | kernel/fs/fat_core.h:98-106 | the disk is the device overlaid with the buffer at that sector; needs that tag or a clean cache |
| Cache.SectorCache.Patch | kernel/fs/fat_core.h:84-106 | GET, modify, PUT changes exactly the modified bytes of the disk |
| Cache.Serve | kernel/fs/fat_core.h:75-106 | any sequence of fetches, changes and flushes through the one buffer answers, and leaves the disk, as uncached access would; after a flush the device is that disk |
| Cache.PatchedOverlay | kernel/fs/fat_core.h:98-106 | patching the buffer over the device and patching the disk as seen are the same |
| Geometry.CopiesDisjoint | kernel/fs/bpb.h:91-94 | copies of the table do not overlap |
| Geometry.ClustersDisjoint | kernel/fs/fat_core.h:58-61 | sectors of different clusters are different, in the data area |
| BootRecord.RegionsFit | kernel/fs/bpb.h:77-116 | reserved sectors, tables, root directory and data follow one another if and only if the sectors before the data number less than 2^32; the clusters end inside the volume if and only if the 32-bit first data sector is not past its end |
| BootRecord.RegionsMissed | kernel/fs/bpb.h:77-116 | 255 tables of 0x01010101 sectors: the data area is taken to begin at sector 31, and its clusters end inside a volume of 100 sectors |
| BootRecord.VolumeValid | kernel/fs/bpb.h:107-127 | a record that fits its device and whose table holds all clusters gives the geometry the other operations assume, with the type its cluster count says |
| BootRecord.VolInit | kernel/fs/fat_core.c:38-66 | fat_vol_init computes that geometry, the place of the root directory and the first cluster to search from sector 0 and changes no byte of the disk |
| BootRecord.DisketteRead | kernel/fs/bpb.h:77-127 | the record of a 1.44 MB diskette, byte by byte: FAT12, 2847 clusters from sector 33, the root directory at sector 19 |
| BootRecord.LargeRead | kernel/fs/fat_core.c:38-66 | a FAT32 record, byte by byte: its regions, its 130812 clusters and its root directory's first cluster |
| BootRecord.RootFound | kernel/fs/fat_core.c:55-62 | the 16-bit first sector of a fixed root directory is the one behind the tables if and only if that is below 2^16; otherwise it lies before the end of the tables |
| BootRecord.RootMissed | kernel/fs/fat_core.c:55-62 | two tables of 2^15 sectors: the root directory at sector 65537 is looked for at sector 1 |
| BootRecord.RootUsable | kernel/fs/fat_core.c:108-121 | so the root directory handle lies between tables and data if and only if the tables end below sector 2^16 and it has entries |
| FatTable.PickOfStore | kernel/fs/write.c:48-124 | an entry just stored is read back, in all three formats |
| FatTable.EntryBytes | kernel/fs/fat_core.c:68-106 | which bytes of the first copy an entry is: two entries in three bytes, two bytes, or the low 28 bits of four, the low byte first |
| FatTable.NeighbourKept | kernel/fs/write.c:85-124 | storing a 12-bit entry keeps the entry it shares a byte with, both ways round |
| FatTable.Put28Keeps | kernel/fs/write.c:48-67 | a 28-bit store keeps the top nybble |
| FatTable.SetEntrySpec | kernel/fs/write.c:48-124 | storing one entry in one copy changes that entry and no other entry of the copy |
| FatTable.SetCopiesEntry | kernel/fs/write.c:126-143 | after the update of all copies every copy has the new value at that entry and its old value at every other |
| FatTable.SetCopiesSpec | kernel/fs/write.c:126-143 | the table as an array is the old one with one element replaced, and no byte outside the tables changes |
| FatTable.SetCopiesMirrored | kernel/fs/write.c:126-143 | copies that were equal byte for byte stay equal |
| FatTable.MirroredEntry | kernel/fs/write.c:126-143 | in equal copies every copy gives the same value for a cluster after a store |
| FatTable.SameFat | kernel/fs/bpb.h:91-99 | images equal on the table area have the same table |
| FatAccess.GetNextCluster | kernel/fs/fat_core.c:68-106 | through the cache, and over a sector boundary, the lookup returns what the buffer and the disk make of the entry, which is the array's element unless its first sector is falsely tagged; the disk is unchanged |
| FatAccess.LookedRight | kernel/fs/fat_core.c:68-106 | whatever the buffer holds, a lookup whose first sector is not falsely tagged returns the array's element |
| FatAccess.SetNext32 | kernel/fs/write.c:48-67 | one FAT32 entry of one copy is stored |
| FatAccess.SetNext16 | kernel/fs/write.c:69-83 | one FAT16 entry of one copy is stored |
| FatAccess.SetNext12 | kernel/fs/write.c:85-124 | one FAT12 entry of one copy is stored, odd, even or straddling two sectors |
| FatAccess.StraddlingStore | kernel/fs/write.c:94-111 | the two half writes of a straddling entry, one sector after the other, are one store of the entry |
| FatAccess.SetNextCluster | kernel/fs/write.c:126-143 | the table becomes the old array with one element replaced, copies stay mirrored, nothing else changes |
| Chains.ChainAcyclic | kernel/fs/fat_core.h:46-56 | a chain that ends with the end marker visits no cluster twice |
| Chains.NextFreeComplete | kernel/fs/write.c:28-46 | the search returns 0 only if, and from a place inside the table if and only if, no cluster in [2, cluster_count) is free |
| Chains.NextFreeFirst | kernel/fs/write.c:28-46 | the cluster found is the first free one from the start on, or, with none there, the first one from 2 on |
| Chains.UnlinkExact | kernel/fs/write.c:255-263 | for an arbitrary table, with cyclic or merged chains, bad marks or foreign entries, as long as the walk from the start does not leave it: exactly the entries reachable from the start are zeroed and all others keep their values |
| Chains.ReachedIsFreed | kernel/fs/write.c:255-263 | every cluster reached by following links, in any number of steps, is free afterwards |
| Chains.FreedIsReached | kernel/fs/write.c:255-263 | every entry that changed is reached in some number of steps |
| Chains.UnlinkChain | kernel/fs/write.c:255-263 | for a proper chain that is the chain's own clusters |
| Forest.ChainGrown | kernel/fs/write.c:158-161 | ending the new cluster and hanging it behind the last one makes the chain one longer |
| Forest.CreateKeeps | kernel/fs/write.c:199-209 | giving an empty file its first cluster takes one free cluster and adds one chain, or none was free |
| Forest.GrowKeeps | kernel/fs/write.c:145-178 | growth takes a cluster exactly at the last cluster of a file, one that was free, and appends it to that file only |
| Forest.RemoveKeeps | kernel/fs/write.c:255-263 | removal frees exactly one file's clusters |
| Forest.StepKeeps | kernel/fs/write.c:145-178 | every operation keeps the chains acyclic, pairwise disjoint and ended, and touches nothing no file owns |
| Forest.RunKeeps | kernel/fs/write.c:145-178 | so does every run |
| Forest.RemoveUndoesCreate | kernel/fs/write.c:255-263 | removing a new file gives back the table it was created on |
| ChainOps.Volume.FindFreeCluster | kernel/fs/write.c:28-46 | next-fit from the last allocation, wrapping to 2; the disk is unchanged |
| ChainOps.Volume.AllocFirstCluster | kernel/fs/write.c:199-209 | the first cluster of an empty file: one free entry gets the end marker |
| ChainOps.Volume.AllocNextCluster | kernel/fs/write.c:145-178 | returns the next cluster if there is one; otherwise links the first free one, in the table and nowhere else, zeroing exactly that cluster if asked; 0 and no change if none is free |
| ChainOps.StaleTag | kernel/fs/write.c:163-175 | after the zeroing the next lookup of the cluster just extended returns the new link if and only if there is a second copy of the table or the entry runs over a sector boundary; otherwise it returns 0 |
| ChainOps.AfterClear | kernel/fs/write.c:163-175 | which lookups of any cluster go right after the zeroing: those that begin with another sector than the tagged one, or find zeros where zeros are |
| ChainOps.ExtendAndLookUp | kernel/fs/write.c:145-178 | on a FAT16 volume with one copy the code links cluster 3 behind 2 and then looks up 0 instead |
| ChainOps.Volume.ChainUnlink | kernel/fs/write.c:255-263 | terminates on every such table and leaves what UnlinkExact describes; no byte outside the tables changes |
| Extents.ContentPatched | kernel/fs/write.c:218-225 | patching one sector of a chain patches the file's bytes at the matching place |
| Extents.ContentSlice | kernel/fs/fat_core.c:203-207 | bytes of one sector are the file's bytes at the matching place |
| Extents.ChainInjective | kernel/fs/fat_core.h:58-61 | a chain's sectors are pairwise different |
| Extents.BoundaryTest | kernel/fs/fat_core.c:210-211 | fat_read's test holds for a sector of a cluster if and only if it is the last one |
| Growth.GrowStep | kernel/fs/write.c:145-178 | a linked cluster leaves the file's bytes and appends the new cluster's, zeros if cleared |
| Growth.ContentElsewhere | kernel/fs/write.c:194-253 | a file disjoint from the clusters written keeps every byte |
| Layouts.WriteTestSound | kernel/fs/write.c:235-236 | fat_write's test finds exactly the ends of clusters if and only if the data area starts on a multiple of the cluster size |
| Layouts.RunsOn | kernel/fs/write.c:235-236 | on any other volume the test fails at the end of a cluster, where the next sector is the first of the following cluster, and holds inside the cluster |
| Layouts.OddStart | kernel/fs/write.c:235-236 | clusters of two sectors from sector 3 on: the test fails at the end of cluster 2, where cluster 3 begins |
| Layouts.CrossCase | kernel/fs/fat_core.c:208-217 | at a sector-aligned position fat_read's test holds exactly at the end of a cluster, and otherwise the next sector follows in the same cluster |
| Layouts.LaidSize | kernel/fs/fat_core.c:134-165 | no chain is longer than the cluster count, so positions stay below 2^32 |
| Layouts.StaleCursor | kernel/fs/write.c:240 | after an allocation failure the cursor no longer names the position's cluster |
| Layouts.FirstCursor | kernel/fs/fat_core.c:134-148 | the first cluster is the cursor of a position if and only if that lies inside the first cluster, or in the fixed root directory |
| Writing.WrittenPatch | kernel/fs/write.c:217-227 | one more chunk stored under the position extends what has been written, all else kept |
| Writing.WrittenGrow | kernel/fs/write.c:236-243 | hanging a cluster behind the file keeps what has been written |
| Writing.FrameCount | kernel/fs/write.c:194-253 | as many clusters leave the free ones as the file gains |
| Writing.MakeStored | kernel/fs/write.c:194-253 | a write that stops for want of a cluster had fewer free ones than it needs, and one that does not had enough; either way the chain has grown by exactly what was taken |
| Writing.OthersKept | kernel/fs/write.c:194-253 | a file sharing no cluster keeps its links and bytes, and still shares none |
| Writing.ReadBack | kernel/fs/write.c:194-253 | what a write stored is found in the file's contents in place |
| Files.File.LSeek | kernel/fs/fat_core.c:134-165 | wherever the cursor was: SEEK_SET, SEEK_CUR and SEEK_END go to the offset, from the position or from the size, on 32 bits and bounded by a known size, forwards or backwards; the cursor is on its cluster, or on the end marker one past the end; for an invalid whence the position stays and, inside the file, the handle is good if and only if the first cluster holds it |
| Files.File.SectorOffset | kernel/fs/fat_core.c:167-178 | the sector and offset are those of the cursor's byte in the file's sector list, also when the position is whole clusters ahead of it |
| Files.File.Read | kernel/fs/fat_core.c:184-220 | copies exactly the bytes from the position on, as many as asked and left, a known size ending the file early and a sum past 2^32 wrapping; keeps the disk and the cursor |
| Files.File.Write | kernel/fs/write.c:194-253 | the first n bytes are in place from the cursor's byte on, whether the position is there or whole clusters ahead; a search for a cluster fails if and only if fewer are free than needed, and then the file is filled to its end, which has grown by all the free ones; otherwise all is stored and the chain has grown by those needed; the rest of file, disk and table kept; size and entry updated as the file grows; afterwards the position is as far ahead as before, or one cluster further after a failed search; a good handle stays good if and only if enough clusters were free, or the file was empty and none was |
| Files.File.FileSync | kernel/fs/write.c:180-191 | size and first cluster are in the directory entry, on the device |
| Files.EntryReadsBack | kernel/fs/write.c:180-191 | they read back as the size and cluster of the file |
| Files.WriteSeekRead | kernel/fs/write.c:194-253 | writing a buffer at any position of a file, seeking back and reading returns the bytes stored, which are the whole buffer if and only if it ends within the clusters of the file and the free ones |
| Files.WriteOver | kernel/fs/write.c:217-244 | the write after one whose search failed lands on the beginning of the last cluster and reports its whole length |
| Files.SeekAndRead | kernel/fs/fat_core.c:134-220 | fat_lseek and fat_read of bytes a file has return them, wherever the cursor was |
| Files.FullVolume | kernel/fs/write.c:235-243 | a volume without free clusters on which storing to the very end of the file fits, but needs a cluster more |
| Files.WriteKeepsOthers | kernel/fs/write.c:194-253 | every other file keeps its chain and every byte across a write and its entry update; copies stay equal |
| LongNames.ComputeChecksum | kernel/fs/direntry.c:35-43 | the loop computes the rotate-and-add sum of the eleven bytes |
| LongNames.RotateTurns | kernel/fs/direntry.c:39-40 | a step of the sum turns its eight bits by one to the right, the low bit coming back in at the top, and then adds modulo 256 |
| LongNames.TurnsTurn | kernel/fs/direntry.c:39-40 | with nothing added k steps turn the sum by k bits, and eight give it back |
| LongNames.MessageSum | kernel/fs/direntry.c:35-43 | the sum of MESSAG~1TXT is 0x81 |
| LongNames.ReadsMessages | kernel/fs/direntry.c:63-138 | the two entries another driver writes for messages.txt, byte by byte, are read as that name, also behind a deleted entry and a volume label; an entry that begins with 0 ends the directory |
| LongNames.SumKept | kernel/fs/direntry.c:76-112 | a long entry is taken up if and only if it belongs to the ones before and no unit before its first NUL is beyond ASCII |
| LongNames.SumDecides | kernel/fs/direntry.c:113 | a long name is found if and only if its entries carry the sum of the short name |
| LongNames.DecodeGroups | kernel/fs/direntry.c:76-118 | decoding the entries of a name from any group down leaves that part of the name in place |
| LongNames.RoundTrip | kernel/fs/write.c:327-363 | for every ASCII name of 1 to 255 characters, any bytes after its terminator, any old d_name and any later entries, the long entries and the short one decode to exactly that name and short name |
| ShortNames.FillDotName | kernel/fs/direntry.c:115-129 | the loops leave the folded name and its terminator in d_name |
| ShortNames.DotNameRight | kernel/fs/direntry.c:115-129 | the name shown is base, dot and extension if and only if there is no extension; what it is otherwise |
| ShortNames.ReadmeShown | kernel/fs/direntry.c:115-129 | README.TXT is shown as readme.xt |
| Slots.ScannedRoom | kernel/fs/direntry.c:142-163 | a scan that stops has found the first place with room |
| Slots.ScanEnds | kernel/fs/direntry.c:149-158 | the scan reaches the end of the directory if and only if there is neither an end marker nor a run of n deleted slots |
| Slots.FullDirectory | kernel/fs/direntry.c:149-158 | a directory of one cluster of sixteen slots in use: the scan runs past its end |
| Slots.ListedCreate | kernel/fs/write.c:324-361 | entries placed where the scan found room keep every slot in use and add exactly their short entry to the list of short entries, at that place |
| Filling.PutIff | kernel/fs/write.c:327-363 | slots written one by one from slot k on end up side by side, every other slot as before and any new ones end markers, if and only if they end within the directory's clusters and the free ones |
| Filling.PutOver | kernel/fs/write.c:217-244 | slots that do not fit take all clusters there are, and one of those behind the end replaces the first slot of the last cluster |
| Filling.SlotLost | kernel/fs/write.c:327-363 | a full volume, one cluster of sixteen slots with one left, a name of two entries: the second replaces the first file's entry |
| Filling.PutFixedIff | kernel/fs/write.c:211-213 | in the fixed root directory they end up side by side if and only if they end inside it |
| Listing.NamesAlike | kernel/fs/direntry.c:63-138 | what a reader finds does not depend on what d_name held before |
| Listing.NamesDecode | kernel/fs/direntry.c:63-138 | the listing, defined slot by slot, is what calling fat_readdir again and again finds |
| Listing.NamesCreate | kernel/fs/write.c:324-361 | the listing after a creation is the old one with the new name put in at the room found if and only if a long name collected before the room is lent to no short entry behind it; what it is in any case |
| Listing.NamesLent | kernel/fs/direntry.c:76-118 | a reader in the middle of a long name finds the same from here on as one that starts here if and only if that name is lent to no short entry |
| Listing.NothingLent | kernel/fs/direntry.c:76-118 | nothing is lent behind a short entry or at the beginning of a directory |
| Listing.OrphanLends | kernel/fs/write.c:278-283 | a long entry, two deleted slots and its short entry: a name created in between takes the long name from the short entry |
| DirOps.AsciiFromUtf16 | kernel/fs/direntry.c:50-59 | copies units up to a NUL, the end, or one that is not ASCII, and says which |
| DirOps.ReadDir | kernel/fs/direntry.c:63-138 | finds the entry the decoding function finds from the handle's position, with its name in d_name, long or folded from the short one, its short name and attributes, and stops behind it |
| DirOps.EntryAgain | kernel/fs/direntry.c:210-213 | one entry back from behind an entry: the same slot is read again, and the sector and offset noted are those at which it lies on the disk |
| DirOps.SeekEmpty | kernel/fs/direntry.c:142-163 | wherever the cursor was, stops at the first slot from which n slots hold nothing in use, given that nothing in use follows an end marker; no slot changes; defined for every fixed root directory and for every chained one whose end the scan does not reach |
| Creation.WriteSlot | kernel/fs/write.c:343 | one entry: in a chained directory always 32 bytes, one step of the slots as `Filling` has them; in the fixed root as long as a slot is left |
| Creation.WriteSlots | kernel/fs/write.c:327-363 | the slots afterwards are those `Filling` computes from the slots, the place and the free clusters before; refused only at the end of the fixed root directory; no other file and no other table entry changes |
| Creation.CreateFile | kernel/fs/write.c:324-361 | finding room and writing the entries of a new name: every slot in use stays and the short entries are the old ones and the new one if and only if the entries end within the directory and what it can grow to; if not, a chained directory loses the first slot of its last cluster and nothing is reported; the names are the old ones and the new one if and only if no long name is lent |
| Creation.CreateAndRead | kernel/fs/write.c:308-364 | entries written through fat_write on the disk are read back by fat_readdir as what the slots then say, which is the name, short name and attributes if they fit |
| Lists.ListAppend | kernel/include/list.h:25-28 | the ring gets the node at its end, both directions agreeing |
| Lists.ListDel | kernel/include/list.h:30-33 | the ring loses the node, both directions agreeing |
| Lists.ListEmpty | kernel/include/list.h:35-37 | true if and only if the ring has no node |
| Lists.AppendedRing | kernel/include/list.h:18-28 | the four pointer writes of an append make the ring of the longer sequence |
| Lists.DeletedRing | kernel/include/list.h:30-33 | the two pointer writes of a removal make the ring without that node |
| Blocks.InitialValid | kernel/mm/buddy.c:44-63 | the boot state is a tiling with its two blocks listed |
| Blocks.NeighbourIsHead | kernel/mm/buddy.c:202-205 | the page after a block, inside the memory, always starts a block |
| Blocks.HalveValid | kernel/mm/buddy.c:103-147 | halving a free block keeps tiling and lists |
| Blocks.MergeOneValid | kernel/mm/buddy.c:201-220 | merging with the right neighbour keeps tiling and lists |
| Blocks.SplitValid | kernel/mm/buddy.c:103-147 | splitting down hands out a block of the order asked for, at the start of the block split |
| Blocks.AllocateSpec | kernel/mm/buddy.c:154-187 | allocation succeeds if and only if a free block of at least that order exists, and hands out one that was free |
| Blocks.AllocatesFirst | kernel/mm/buddy.c:154-187 | the block is the first one in the list of the least order that has one |
| Blocks.SplitKeepsUsed | kernel/mm/buddy.c:103-147 | blocks in use are not moved or resized |
| Blocks.SplitLists | kernel/mm/buddy.c:103-147 | after a split each order below the one split, down to the one asked for, lists exactly the right half made there, and the list split from lacks its first block |
| Blocks.MergeValid | kernel/mm/buddy.c:189-225 | the merge loop ends with the block free and not mergeable with its right neighbour |
| Blocks.FreeValid | kernel/mm/buddy.c:189-225 | freeing keeps tiling and lists |
| Blocks.FreedLast | kernel/mm/buddy.c:189-225 | a block given back, merged or not, is last in the list of its order |
| Accounting.Conservation | kernel/mm/buddy.c:227-238 | memory counted from the lists and memory in use add up to all the memory |
| Accounting.FreeUndoesSplit | kernel/mm/buddy.c:103-225 | freeing at once what a split produced re-merges every sibling: the result is that of merging the original block |
| Accounting.RunValid | kernel/mm/buddy.c:154-225 | every run keeps the tiling, the lists and the sum |
| Accounting.StepKeepsUsed | kernel/mm/buddy.c:154-225 | a region in use stays, with its size, until it is given back |
| Accounting.RegionsDisjoint | kernel/mm/pmm.c:24-32 | regions share no page and lie inside the memory |
| Buddy.Buddy.constructor | kernel/mm/buddy.c:44-63 | the arrays and rings represent the boot state |
| Buddy.Buddy.SplitFirst | kernel/mm/buddy.c:103-147 | the page array and rings afterwards represent the split |
| Buddy.Buddy.AllocateOrder | kernel/mm/buddy.c:154-187 | the code allocates as the specification does |
| Buddy.Buddy.FreePage | kernel/mm/buddy.c:189-225 | the code, with its loop of merges, frees as the specification does |
| Buddy.Buddy.Statistics | kernel/mm/buddy.c:227-238 | the bytes in the lists; with the bytes in use they are all the memory |
| Buddy.Buddy.Kalloc | kernel/mm/pmm.c:24-32 | a page-aligned region that was free, inside the memory, and at least as large as asked if and only if less than 2^44 bytes were asked; of the least order that holds the request, as the specification allocates it; regions in use untouched; failure only if every free block is too small |
| Buddy.Buddy.WideRequest | kernel/mm/pmm.c:24-32 | a request of 2^44 bytes on fresh memory succeeds with a smaller block |
| Buddy.Size2Order | kernel/mm/buddy.c:76-87 | the least order whose block holds the size below 2^31 bytes, an order no block has from there on while 32 bits count the pages, and the order of the pages left when they do not |
| PageTables.EntryWords | kernel/include/vms.h:21-37 | entries and indices in figures: the pointer to page 2 and the leaf for 0x5000, and the three indices of 0x123456789 |
| PageTables.PpnOfPte | kernel/include/vms.h:28 | an entry names its address's page if and only if the address is below 2^52 |
| PageTables.LeafFields | kernel/mm/vms.c:57-58 | a leaf is valid, readable, writable, executable, user exactly as asked, and names the page |
| PageTables.SamePage | kernel/include/vms.h:32-36 | two addresses have the same three indices if and only if they lie in the same page |
| PageTables.LinkedTree | kernel/mm/vms.c:50-55 | linking a blank table keeps the three-level, unshared tree |
| PageTables.LinkedWalk | kernel/mm/vms.c:50-55 | and changes no translation of any table |
| PageTables.StaleTable | kernel/mm/vms.c:51 | an address nobody mapped, in a table that was not blank, translates as the stale word at its place: if that passes, as an entry in a leaf table and through whatever it names in a middle one |
| PageTables.StoredWalk | kernel/mm/vms.c:56-58 | storing a leaf changes exactly the walks that read it |
| PageTables.Meet | kernel/mm/vms.c:67-94 | walks that meet in a leaf table took the same indices |
| PageTables.SharedTable | kernel/mm/vms.c:67-94 | roots that share a middle table translate through it alike |
| Mapping.MappedStep | kernel/mm/vms.c:39-64 | one more page after k pages is k + 1 pages |
| Mapping.SharingKept | kernel/mm/vms.c:30-65 | mapping changes which roots share a table nowhere |
| Mapping.LinkStep | kernel/mm/vms.c:50-55 | one turn that allocates: path one level longer, all translations as before, the one new entry a pointer with the flags asked for |
| Mapping.StoreStep | kernel/mm/vms.c:56-58 | the last turn: exactly this page, in this table and those that share its middle table, leads to the new entry |
| Memory.Memory.MapPage | kernel/mm/vms.c:40-62 | the level loop maps one page, or finds it mapped if and only if it was, or takes the last free page and needs another; every other translation is kept |
| Memory.Memory.Map | kernel/mm/vms.c:30-65 | page k of the range leads to page k of `pa`, every other address of every table translates as before, the tree keeps its shape; it stops short with a double map if the next page is mapped, and else only with no page left and fewer than two a page at the start |
| Memory.Memory.Trans | kernel/mm/vms.c:67-94 | the loop follows the three levels and stops at the entry, or where it panics |
| Memory.Memory.Kalloc | kernel/mm/pmm.c:24-32 | takes the pages of a free block that holds the size, if and only if there is one: one page, or a number of which half would not do |
| FreePages.AllocatePages | kernel/mm/buddy.c:154-188 | an allocation takes the pages of its block, all of them free, and no other |
| FreePages.ScatteredFails | kernel/mm/buddy.c:154-188 | a memory whose first three pages are free, two in one block and one in another, and nothing else: a request of three pages fails |
| Memory.MappedByte | kernel/mm/vms.c:30-94 | where a byte of the range ends up for any alignment |
| Memory.MapTranslatesWhen | kernel/mm/vms.c:30-94 | all bytes of a fresh range reach their places if and only if the offsets agree and no page beyond the counted ones is touched |
| Memory.HalfPages | kernel/mm/vms.c:30-65 | a page mapped from the middle of a page to the beginning of another, or to the middle of another, is not reached at its place |
| KernelHalf.KernelAddress | kernel/proc/sched.c:25-36 | a kernel address translates in every process as in the kernel's table |
| KernelHalf.CopyKeepsHalf | kernel/proc/sched.c:25-36 | a new process table translates as the kernel's; the others as before |
| KernelHalf.MapKeepsHalf | kernel/proc/sched.c:258-261 | a mapping at user pages is invisible to the kernel and every other process |
| KernelHalf.RunKeeps | kernel/proc/sched.c:25-36 | over every run of creations and umaps the kernel's translations never change, all processes have them, and a process's own change only in its own steps |
| Hardware.FetchWalk | kernel/mm/vms.c:67-94 | on tables of the form map builds, the walk of section 4.3.2 of the RISC-V Privileged Architecture finds what trans finds unless a pointer entry on the path has a reserved bit |
| Hardware.Agree | kernel/mm/vms.c:67-94 | processor and trans agree on an address if and only if trans finds nothing, or the address is canonical and no pointer entry on its path has a reserved bit |
| Hardware.MadePlain | kernel/mm/vms.c:50-58 | map keeps the form: pointers above, readable leaves at the bottom |
| Hardware.MapSeen | kernel/mm/vms.c:50-58 | on pages mapped under an unused root entry they agree if and only if the address is canonical and perm has none of U, A and D |
| Hardware.OnePageUnseen | kernel/proc/sched.c:258-261 | one page mapped by umap in a new table: trans finds it, the processor faults |
| Hardware.RunUnseen | kernel/proc/sched.c:258-261 | over every run of creations and umaps the processor faults on every address outside the kernel's half, and sees the kernel's half in every process as in the kernel's table |
| Processes.WritePrivate | kernel/proc/sched.c:147-160 | a write by one process is read back by it and seen by no other |
| Processes.WritesPrivate | kernel/proc/sched.c:147-160 | nor is any sequence of writes by the others |
| Processes.InheritAreas | kernel/proc/sched.c:242-252 | the areas entered in the child are the parent's used ones, apart from each other |
| Processes.CopyStep | kernel/proc/sched.c:150-158 | copying one more area: its bytes read the same, on pages not in use before, earlier areas kept |
| Processes.ForkPrivate | kernel/proc/sched.c:147-160 | after the copy every byte of every parent area reads the same through both tables, and no two processes share a data page |
| Fork.InheritedStep | kernel/proc/sched.c:242-252 | the child's area table never fills early, so vma_insert drops nothing |
| Fork.Kernel.AllocPid | kernel/proc/sched.c:38-48 | the first free process number, or none is free |
| Fork.Kernel.AllocPgtable | kernel/proc/sched.c:25-36 | a free page becomes a root with the kernel's entries, if and only if there is one |
| Fork.KallocArea | kernel/mm/pmm.c:24-32 | consecutive pages not in use, if and only if a free block holds the size |
| Fork.Kernel.AllocProcess | kernel/proc/sched.c:72-81 | a fresh task with a copy of the kernel's root; no number or no page left otherwise |
| Fork.Kernel.VmaInsert | kernel/proc/sched.c:242-252 | the first empty slot takes the area; a full table drops it |
| Fork.EnteredAt | kernel/proc/sched.c:242-252 | an area goes into the slot before which none is empty |
| Fork.Kernel.CopyMemFrom | kernel/proc/sched.c:147-160 | all areas are copied and mapped; otherwise no free block holds some area |
| Fork.Kernel.SysFork | kernel/proc/syscall.c:22-34 | the child is the parent but for a0 = 0, its number and its own equal memory; the parent gets the number in a0; every other process reads the bytes it read before; every process keeps its private memory and the kernel's half; out of memory only with no page left or no free block that holds some area |
| Fork.MidwayStart | kernel/proc/sched.c:72-81 | a new table translates no user address |
| Fork.MidwayFree | kernel/proc/sched.c:147-160 | no page is mapped twice while copying |
| Scheduler.Timer.Schedule | kernel/proc/sched.c:97-116 | switches if and only if some runnable task has more ticks than the current one, to the first such from the beginning of the table |
| Scheduler.TakesFirst | kernel/proc/sched.c:101-109 | a task switched to is the first in the table with more ticks than the one before, among equals too |
| Scheduler.Timer.DoTimer | kernel/proc/sched.c:118-144 | one tick less for the current task; a switch only from user mode |
| Scheduler.ScheduleMaximal | kernel/proc/sched.c:97-116 | the current task is kept if and only if its counter is maximal |
| Scheduler.TakesGreatest | kernel/proc/sched.c:97-116 | schedule ends with a task that has the most ticks if and only if the first runnable task above the current one has, or none is above |
| Scheduler.SecondTaken | kernel/proc/sched.c:101-109 | with counters 1, 2 and 3 and task 0 current it takes task 1 |
| Scheduler.NearGreatest | kernel/proc/sched.c:118-144 | while counters are within one of each other every tick ends with a task that has the most |
| Scheduler.TickSettles | kernel/proc/sched.c:118-144 | after one tick of a task with ticks left the current task is above the least, or all are level |
| Scheduler.Converges | kernel/proc/sched.c:118-144 | the counters become level after exactly their excess over the least, which stays the least until then |
| Scheduler.EventuallyLevel | kernel/proc/sched.c:118-144 | from any state whose current task has a tick left they do so before all ticks are spent |
| Scheduler.StaysFair | kernel/proc/sched.c:118-144 | from then on every counter is the mean of what is left, rounded down, or one more, and every tick takes one from the sum |
| Scheduler.RoundRobin | kernel/proc/sched.c:118-144 | from level counters n ticks take exactly one from each of n tasks |
| Scheduler.SumFalls | kernel/proc/sched.c:118-144 | no counter wraps before the sum is spent |
| Scheduler.Starves | kernel/proc/sched.c:129 | a counter of 0 wraps and its task runs alone until it is down to the most another one has: for 2^64 - 1 ticks at sum 0 |
| Scheduler.SupervisorDrains | kernel/proc/sched.c:127-143 | with counters 1 and 5 a tick from supervisor mode leaves 0 and 5, and the second task waits for 2^64 - 5 ticks |
| Numbers.DigitsBack | kernel/common/printf.c:289-297 | the digits in the buffer stand for the value modulo base^32 |
| Numbers.AtoiReverse | kernel/common/printf.c:183-189 | `_atoi` of printed decimal digits gives the number back, modulo 2^32 |
| Numbers.PlainDecimal | kernel/common/printf.c:276-301 | plain %d of any 64-bit value is its sign and digits that stand for its magnitude |
| Numbers.FieldWidth | kernel/common/printf.c:220-273 | a field is narrower than asked if and only if it is padded with zeros to more than 32 |
| Numbers.HashField | kernel/common/printf.c:239-260 | %#x shows 0x and all digits if and only if the digits alone do not fill the width |
| Printf.Sink.Out | kernel/common/printf.c:129-134 | the index moves on; a character is stored only below the bound |
| Printf.Sink.Rev | kernel/common/printf.c:192-217 | the padded, reversed field is appended |
| Printf.ReadNumber | kernel/common/printf.c:183-189 | the value of the digits up to the first non-digit, on 32 bits |
| Printf.Format | kernel/common/printf.c:220-273 | the loops write the field the specification describes |
| Printf.Ntoa | kernel/common/printf.c:276-301 | the same from the number on |
| Printf.EvalConversion | kernel/common/printf.c:716-898 | each conversion appends its text and consumes its argument |
| Printf.Vsnprintf | kernel/common/printf.c:590-906 | for every format and bound: the unbounded text cut to the bound and terminated, nothing stored at or past the bound or after the terminator, and the whole length returned whatever the bound |
| Texts.IntegerText | kernel/common/printf.c:612-800 | wherever it stands in a format, %[flags][width][.precision][length] and d, i, u, x, X, o or b print the argument, as the C type of its length, in its base, with sign, prefix, zeros and spaces as flags, width and precision say, for every combination |
| Texts.CharacterText | kernel/common/printf.c:822-840 | %c prints one character, to the right or, with - or a negative *, to the left of its width |
| Texts.StringText | kernel/common/printf.c:842-866 | %s prints the string, or as much of it as the precision says, in its width |
| Texts.PointerText | kernel/common/printf.c:868-887 | %p prints all 64 bits in capital hexadecimal digits, filled up to sixteen with zeros |
| Texts.OtherText | kernel/common/printf.c:889-897 | any other character, % among them, prints itself |
| Texts.PlainText | kernel/common/printf.c:602-607 | text without a directive is copied |
| Texts.FieldText | kernel/common/printf.c:220-301 | digits, padding, prefix and sign, made backwards in a buffer of 32, are the number written forwards |
| Texts.UnsignedReads | kernel/common/printf.c:717-800 | bare %u, %x, %X, %o and %b of any length read back, in their bases, as the argument of that type; %b as its low 32 bits |
| Texts.SignedReads | kernel/common/printf.c:751-776 | bare %d and %i of any length are the sign and the decimal digits of the two's complement number; hh is unsigned |
| Texts.PrecisionKept | kernel/common/printf.c:220-237 | a number has as many digits as its precision if and only if that is at most 32 and, with -, no more than the digits it has anyway |
| Texts.HexSample | kernel/common/printf.c:726-745 | %x and %lX of 0xBEEF |
| Texts.DecimalSample | kernel/common/printf.c:751-776 | %d and %hhd of 0xFFFFFFFF |
| Texts.CharacterSample | kernel/common/printf.c:822-840 | %5c of A |
| Texts.StringSample | kernel/common/printf.c:842-866 | %-5.3s of abcdef |
| Texts.PointerSample | kernel/common/printf.c:868-887 | %p of 0xBEEF |
| Texts.LeftSample | kernel/common/printf.c:220-237 | %.4d of 42 has four digits, %-.4d has two |
| Printf.TruncationIsPrefix | kernel/common/printf.c:902-905 | of two runs the smaller bound gives a prefix of the larger one's text |

## Left out

- Block device errors: the only device is a RAM disk whose transfers always succeed
  (kernel/drivers/ramdisk.c:17-26). There is one device, with 512-byte sectors.
- A panic stops the kernel; the methods return a failure value there and say what was done before.
- Devices of more than 2^32 bytes (`Geometry.Valid`).
- Files.File.Read: the position must lie in the chain when bytes are wanted; at the end marker the source
  computes a sector from the marker itself. In a fixed root directory position plus size stay below 2^32.
- Files.File.Write: needs a data area aligned on clusters (see `Layouts.RunsOn`), unless the write ends inside
  the sector it begins in; a cursor inside the chain; a directory entry outside the clusters written; and in
  a fixed root directory, or with the position ahead of the cursor, a position plus size below 2^32.
- Files.WriteSeekRead: with a single copy of the table and no entry update it leaves out writes to a file
  of size 0 that end where a new cluster was just zeroed (`File.EndsOnNew`), unless the seek back stays in
  the first cluster: the lookup may then meet the tag of `ChainOps.StaleTag`. `Creation.CreateAndRead` leaves
  out the same case, and readers that leave the directory because the entries did not fit.
- Files.File.LSeek: a target past the end of the chain is left out; the source looks up the end marker.
- Chain ends: chains end with exactly the end marker of `fat_eoc`, the only value the code tests for.
- DirOps.SeekEmpty: leaves out the chained directories of `Slots.ScanEnds` whose end the scan reaches;
  what the source reads past a chain is not modelled.
- DirOps.ReadDir: a long entry that points outside d_name is excluded.
- Creation.CreateFile: for directories in which nothing is in use behind an end marker, of less than 2^32
  bytes and on volumes with aligned clusters. Short-name generation (`build_short_name`) is not modelled; the
  short entry is any valid one. Time stamps, the cluster of a new directory, the rest of `fat_open`, `fat_mkdir`,
  `fat_unlink`'s directory search and `fat_comparesfn` are not modelled.
- Buddy.Buddy.AllocateOrder: stops the search at the last order; the source reads one list head past it
  before giving up.
- Buddy.Buddy.FreePage: does not look at the right neighbour of the last block, which lies past the page
  array; freeing a page that starts no block in use is excluded.
- Buddy.Size2Order: from order 19 on its product overflows a signed integer; the model takes any value.
- Memory.Memory.Map: free pages are assumed to read as zeros and ranges to stay below 2^39; the kernel's
  identity mapping of the page tables themselves, `satp` and the TLB are not modelled.
- Hardware.Translate: permission checks and the accessed and dirty bits of leaves are not modelled; memory
  outside the known tables counts as a fault.
- Fork.KallocArea: the pages of a block behind the area are neither free nor used afterwards; the start of
  the managed memory is taken to be page aligned.
- Fork.Kernel.SysFork: the parent's areas are page aligned, apart and backed by pages of their own. The
  stack execve maps (kernel/proc/sched.c:230) lies below the region allocated for it and does not meet
  this. execve and ELF loading are not modelled.
- Scheduler.StaysFair: for a fixed set of runnable tasks and ticks from user mode; ticks from supervisor
  mode lower the counter without a switch.
- Printf.Vsnprintf: floating conversions, null buffers and formats that end inside a directive or lack an
  argument have no text in the model. `char` is unsigned, as on RISC-V.
- Traps, CSRs, SBI calls, the console, spinlocks and logging are hardware effects or have no deep property.
