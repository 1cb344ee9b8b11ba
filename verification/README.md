# FAT32 write path, integer libm algorithms, UTF-8 and long names

This project models three parts of the repository in Dafny and proves what they promise.

**The FAT32 driver** (`final_project/fat32.c` and its helpers). A card is a sequence of sectors behind `SdCard.Read`
and `SdCard.Write`; every `pi_sd_write` call is one step, even when it sends a whole FAT copy, and a ghost history
records the state after each. `Torn.dfy` then cuts these steps between any two sectors. The FAT is sized in whole
sectors, so it may have more entries than the card has clusters; the volume (`Layout.Vol`) holds the entries that have
clusters, and the driver searches them all. `Fs` is the driver with its in-memory FAT, its methods follow the C
functions loop by loop, and each is proved to follow an outcome of the specification: a trace of device states,
whether it panics, and the value it returns (`Step…` in `Operations.dfy` and `Runs.dfy`). The theorems are about those
traces, so they hold of every prefix of disk writes that a crash can leave. `Owner` says which chain belongs to the
root directory and which to each entry; `Safe` says that these chains are well formed and pairwise disjoint.

**The integer algorithms of libm.** A float is its 32-bit pattern and a double its two words; a finite magnitude
is an integer in units of 2^-149 or 2^-1074 (`Float.Val`). The methods follow the C code word by word: shifts are
multiplications, divisions and wrap-around, `|` is `Or`, whose precondition is that the operands share no bit, and
signed words carry the type `i32`, so that overflow is excluded by proof. Floating-point operations that the code
relies on to be exact are partial: they demand that their exact result is representable.

**Names.** The 8.3 packing, the UTF-8 coder and the reassembly of long names.

## What to read first

- Crash safety: `Runs.SessionsSafe`, `Atomicity.StepAtomic`, `UniqueNames.RunNames`, `Ownership.StepLeavesOthers`.
- Power loss within one device write: `Torn.RunTornIff`, `Torn.StepTornIff`, `Torn.SaveIsTearSafe`.
- What each command does and leaves, in all cases, byte by byte: `Outcomes.WriteOutcomes`, `Outcomes.CreatedEntry`,
  `Outcomes.RenamedFound`.
- Exact ownership and free space: `Truncation.RunClean`, `Conservation.FreeAfterWrite`, `Chains.ChainWriteResult`.
- The driver refines the specified runs: `Driver.Fs.Execute`.
- Round trips: `RoundTrip.DeleteCreateWriteRun`, `Driver.Fs.Save`, `Utf8.StreamRoundTrip`, `LongNames.Reassembled`.
- libm: `SqrtDouble.Sqrt`, `FmodDouble.Fmod`, `RemainderFloat.Remainderf`, `RemPio2.ReduceProduct`,
  `RemPio2.ProductCutOff`, `Ceil.Ceil`.

## Where the code does less than it says

Each of these is proved as an exact condition, not excluded. `Witnesses.dfy` runs commands from a formatted card to
inputs that fail, and to some that do not.

- `read_cluster_chain` tests the type of the cluster number, so it reads once more, at the address that the end
  mark maps to. A read succeeds if and only if that address is on the card (`RoundTrip.WriteThenRead`,
  `Driver.Fs.ReadClusterChain`). Every command reads the root directory first, so all of them panic when it is not: on
  every card below 128 GiB whose clusters are smaller than 8 KiB (`EndMarks.SmallClustersStop`). With clusters of a
  multiple of 8 KiB the mark of a chain write is on the card if and only if three clusters fit before the first one
  (`EndMarks.EndMarkOnCardIff`), and the mark of `fat32_truncate` if and only if ten do: on a card where only three fit,
  a truncated file can no longer be read (`RoundTrip.TruncateThenRead`, `Witnesses.TruncatedUnreadable`).
- `find_free_cluster` searches all FAT entries, also those behind the last cluster of the card. It hands out a cluster
  that exists if and only if one is free from its start on with no reserved value before it
  (`Chains.SearchStaysBelow`); otherwise it panics, or it hands out a number whose write panics
  (`Formatted.SpareIsHandedOut` is such an input). `Driver.Fs.WriteBlocks` therefore fails with free FAT entries left,
  and nothing of that reaches the FAT on the card.
- A FAT flush is one call of many sectors. When power is lost within it, the card can be mounted if and only if the
  command moves its file's chain in order: a chain that grows takes only entries from the FAT sector of its old end
  mark, and one that shrinks frees none from an earlier sector than its new end mark (`Torn.StepTornIff`). The FAT shows
  this before the command (`Torn.MovesInOrder`). Only writes to files that have clusters and truncations can violate it;
  growing from cluster 127 to 128 does (`Torn.GrowthAcrossSectors`, `Witnesses.GrowthIsTorn`). The client's run delete,
  create, write never does (`Torn.SaveIsTearSafe`).
- `fat32_truncate` keeps a clean volume clean if and only if 1 <= length <= capacity (`Truncation.TruncateCleanIff`),
  and is crash safe if and only if it does not cut a file that has clusters to nothing (`Truncation.TruncateSafeIff`);
  `Witnesses.TruncatedToNothing` and `Witnesses.TruncatedBeyond` are inputs that fail.
- A name that was stored is found again if and only if it has an extension (`Names.FoundAgainIffDotted`);
  `fat32_create` therefore keeps names unique if and only if the packed name is unused, which only a dotted name
  guarantees (`RoundTrip.CreateNamesIff`), and a dotless name is never found (`Dirents.DotlessNeverFound`), so that it
  can be created twice (`Witnesses.CreateClash`).
- `fat32_rename` does not look at the new name: names stay unique if and only if it is unused
  (`RoundTrip.RenameNamesIff`); `Witnesses.RenameClash` renames one file onto another.
- `fat32_read` of a name that is not there uses the null pointer that `fat32_stat` returns (`Driver.Fs.Read`).
- `__ieee754_remainder` clears the sign whenever the high word of the reduced operand is zero. Its result is the
  IEEE 754 remainder unless abs(x) rounds up to a multiple of abs(p) that is less than 2^32 units away
  (`RemainderDouble.LosesSign`, a condition on the operands; `RemainderDouble.Remainder` and
  `RemainderDouble.RemainderIff`); the words of three units by four are an input that fails
  (`RemainderDouble.SignLostAtThreeByFour`).
- The table of `unicode-utf8.c` ends in a row of zeros, but its two scans stop at a null pointer. Above 0x10FFFF, and
  for lead bytes from 0xF8, no row matches and they read behind the table (`Utf8.CodepointLen`, `Utf8.Utf8Len`;
  `Utf8.BehindTheTable` has the first inputs). Their results -1, and the null pointer of `to_utf8`, are never returned.
- `lib/libm/s_ceil.c:18` says that ceil rounds towards minus infinity; the code rounds towards plus infinity, and
  that is what is proved.

## Model

| member | source | states |
|---|---|---|
| Names.IsValidName | final_project/fat32-helpers.c:190-214 | accepts exactly the dotted 8.3 names and the dotless names of one to eight characters |
| Names.SetName | final_project/fat32-helpers.c:216-230 | overwrites the eleven name bytes with the packed name and nothing else of the buffer |
| Names.ToDotName | final_project/fat32-helpers.c:164-183 | the buffer code yields the unpacked name up to its first NUL |
| Names.DottedRoundTrip | final_project/fat32-helpers.c:164-230 | packing then unpacking a valid dotted name gives it back |
| Names.FoundAgainIffDotted | final_project/fat32-helpers.c:177-180 | a valid name survives packing and unpacking if and only if it contains a dot |
| Names.UnpackInjective | final_project/fat32-helpers.c:164-183 | raw names with a non-blank base and no NUL that unpack alike are equal |
| Names.PackBytes | final_project/fat32-helpers.c:223-229 | base and extension of a packed name stand at bytes 0 and 8, with blanks up to eight and eleven bytes |
| Dirents.FindExact | final_project/fat32.c:205-223 | lookup of a dotted name finds an entry if and only if one is live under its raw name, and finds that one |
| Dirents.NamesOkIffUnused | final_project/fat32.c:403-412 | giving an entry a valid name keeps names unique if and only if no other live entry has it |
| Dirents.NotFoundIsUnused | final_project/fat32.c:433-436 | a dotted name that lookup misses is unused |
| Dirents.DotlessNeverFound | final_project/fat32-helpers.c:177-180 | a valid dotless name is never found, whatever the directory holds |
| Dirents.FieldsOfFresh | final_project/fat32.c:449-457 | a created entry is live under its packed name, with size and start cluster 0; its attribute is in `Outcomes.CreatedEntry` |
| Dirents.EntryLayout | final_project/fat32-helpers.h:140-164 | name, attribute, start cluster and size lie at the bytes that the packed struct gives them, low byte first |
| Dirents.LiveIff | final_project/fat32.c:211-214 | an entry is live if and only if its first byte is neither 0 nor 0xE5 and its attribute neither 0x0F nor a volume label |
| Layout.ClusterToLba | final_project/fat32.c:79-87 | the 32-bit formula is the place of the cluster modulo 2^32 |
| Layout.PlacesDisjoint | final_project/fat32.c:35-40 | clusters follow one another behind the FATs, in disjoint runs of sectors |
| Layout.LbaIsPlace | final_project/fat32.c:79-87 | nothing wraps for the numbers that the FAT has entries for, and they are on the card exactly up to its last cluster |
| Layout.ClusterWrite | final_project/fat32.c:354-355 | writing a cluster's sectors changes that cluster of the volume and nothing else, not the reserved area nor either FAT copy |
| Layout.FatWrite | final_project/fat32.c:298-307 | flushing the FAT replaces the first copy, spare entries included, and touches no cluster, nor the reserved area, nor the second copy |
| Layout.DecodeEncode | final_project/fat32.c:54 | the FAT in memory and its sectors encode each other |
| Layout.FatEntryBytes | final_project/fat32.c:54 | entry i of the FAT is the four bytes from 4 i on, low byte first |
| Chains.ChainUnique | final_project/fat32.c:105-116 | a FAT and a start cluster determine at most one chain |
| Chains.EntryTypes | final_project/fat32-helpers.h:187-195 | each type of entry is exactly its range of the low 28 bits |
| Chains.FreeFromIsFreeList | final_project/fat32.c:279-296 | successive searches return free clusters in ascending order and skip none |
| Chains.FreeFromExact | final_project/fat32.c:279-296 | successive searches return a cluster if and only if it is free and no reserved value comes before it |
| Chains.SearchOfPart | final_project/fat32.c:279-296 | up to any bound, a search of the whole FAT finds what a search of the entries below the bound finds |
| Chains.SearchStaysBelow | final_project/fat32.c:283-291 | a search hands out a cluster of the card if and only if one is free from its start on and no reserved value comes before it |
| Formatted.SpareIsHandedOut | final_project/fat32.c:283-291 | an input for which it does not: the search returns a number whose place is off the card |
| Chains.ClustersForIsCeiling | final_project/fat32.c:347-357 | the writing loop visits n / cluster size clusters, rounded up |
| Chains.ChainWriteResult | final_project/fat32.c:313-392 | a completed chain write leaves an acyclic chain of exactly the clusters n bytes need, holding those bytes; old clusters first and in order, appended ones ascending, being the next free ones with none passed over, the tail free, all other FAT entries and clusters unchanged; otherwise the free clusters of the card above the chain's end ran out |
| Chains.ChainWritePanics | final_project/fat32.c:347-387 | a chain write that panics has stored the first blocks in the chain and in all free clusters behind it, changed no other cluster, and left the FAT on the card alone |
| Chains.PoolExact | final_project/fat32.c:377-386 | the clusters a chain write can use are those of the chain and the free ones behind its end, up to the first reserved value |
| Volume.OwnerUnique | final_project/fat32.c:121-139 | a safe volume determines its owners |
| Formatted.BlankIsClean | final_project/fat32.c:35-65 | a freshly formatted card of any geometry, with any of its first clusters bad, can be mounted, is clean and has unique names |
| Witnesses.FirstFile | final_project/fat32.c:425-590 | on a formatted card that can be read, creating a file and writing one byte to it both succeed and write; the file then owns the first cluster that is not bad |
| EndMarks.SmallClustersStop | final_project/fat32.c:127-138 | on a card of fewer than 2^28 - 10 sectors with fewer than 16 to the cluster, every command panics before it writes, unless it refuses its name, and no file can be read |
| EndMarks.EndMarkOnCardIff | final_project/fat32.c:79-87 | with a multiple of 16 sectors to the cluster, on a card of fewer than 0xFFFFFB00 sectors, the end mark 2^28 - d maps to the card if and only if d + 2 clusters fit before the first one |
| Operations.CommitShape | final_project/fat32.c:412-418 | writing back a directory after changing one entry passes only through states with the old or the new directory |
| CrashSafety.CommitSafe | final_project/fat32.c:351-391 | the directory write and FAT flush that end every command pass only through safe states |
| CrashSafety.DeleteSafe | final_project/fat32.c:478-509 | every device state of a delete is safe, and the last one owns the entry's old chain no more |
| CrashSafety.CreateSafe | final_project/fat32.c:425-475 | every device state of a create is safe |
| CrashSafety.RenameSafe | final_project/fat32.c:394-421 | every device state of a rename is safe |
| CrashSafety.TruncateSafe | final_project/fat32.c:511-549 | every device state of a truncate is safe unless it cuts a file that has clusters to nothing |
| CrashSafety.WriteDataSafe | final_project/fat32.c:574-585 | every device state of the data phase is safe, the directory unchanged |
| Runs.WriteSafe | final_project/fat32.c:552-590 | every device state of a write is safe, finished or cut short for want of a cluster, and a finished one owns the written chain |
| Runs.StepSafe | final_project/fat32.c:298-590 | every device state of every admissible command can be mounted |
| Runs.RunSafe | final_project/fat32.c:298-590 | every device state of every run can be mounted, whichever command panics |
| Runs.SessionsSafe | 16-fat32-readonly/README.md:368-374 | any number of runs, each cut off after any number of disk writes and followed by a remount, leaves a card that can be mounted |
| Atomicity.CommitAtomic | final_project/fat32.c:412-418 | a directory write takes the root directory from old to new in one device state |
| Atomicity.StepAtomic | final_project/fat32.c:394-590 | after a crash between any two device writes of any command the remounted card lists the directory as before or as after it, and these differ in one entry |
| Torn.TornClusterWrite | final_project/fat32.c:354-355 | the first k sectors of a cluster's write leave a volume in which the first k sectors of that cluster are new |
| Torn.TornFatWrite | final_project/fat32.c:298-307 | the first k sectors of a FAT flush leave a volume in which the first 128 k entries are new |
| Torn.CommitTornIff | final_project/fat32.c:412-418 | a directory write survives power loss between any two of its sectors if and only if its FAT flush does |
| Torn.FlushTornIff | final_project/fat32.c:351-391 | a flush that moves one file's chain survives if and only if the move is in order |
| Torn.WriteInOrder | final_project/fat32.c:351-387 | the chain that a write leaves is in order if and only if the FAT before it says so: from the old chain when it shrinks, from the last free cluster that the searches will find when it grows |
| Torn.StepTornIff | 16-fat32-readonly/README.md:368-374 | a command survives power loss between any two sectors of its device writes if and only if the FAT shows before it that its file's chain moves in order; create, delete, rename and writes to files without clusters always do |
| Torn.GrowthAcrossSectors | final_project/fat32.c:376-387 | a write that does not: a file in cluster 127 that grows while cluster 128 is free |
| Witnesses.GrowthIsTorn | final_project/fat32.c:376-387 | the same from a formatted card of 200 clusters, those below 127 bad, after creating the file and writing one byte |
| Torn.RunTornIff | 16-fat32-readonly/README.md:368-374 | the same for whole runs, up to their first panic, each command judged in the state that it starts from |
| Torn.SaveIsTearSafe | final_project/sig-save.h:121-128 | the client's run delete, create, write survives power loss between any two sectors, whatever the card holds |
| UniqueNames.StepNames | final_project/fat32.c:394-590 | with fresh dotted names, every device state of a command lists well-formed and unique names |
| UniqueNames.RunNames | final_project/fat32.c:394-590 | so does every device state of every run |
| Ownership.StepLeavesOthers | final_project/fat32.c:394-590 | in every device state of every command the FAT entries and the bytes of other files' clusters are what they were |
| Conservation.FreeAfterWriteChain | final_project/fat32.c:332-392 | a chain write changes the number of free clusters by the old chain length minus the clusters n bytes need, n = 0 included |
| Conservation.FreeAfterDelete | final_project/fat32.c:493-507 | a delete frees exactly the clusters of the chain |
| Conservation.FreeAfterWrite | final_project/fat32.c:552-590 | a file write changes the number of free clusters by the old chain length minus the clusters n bytes need |
| Truncation.TruncateTypes | final_project/fat32.c:530-545 | in range, every FAT entry has the type that a chain write of that length would leave |
| Truncation.TruncateInRange | final_project/fat32.c:530-547 | in range, the file keeps exactly the first clusters that its bytes need, the rest is free, the kept bytes and all else are unchanged, and the volume stays clean |
| Truncation.TruncateCleanIff | final_project/fat32.c:530-547 | truncating keeps a clean volume clean if and only if the length is at least 1 and fits the chain |
| Witnesses.TruncatedBeyond | final_project/fat32.c:530-547 | from a formatted card: a file of one byte, truncated to more than a cluster, leaves no clean volume |
| Truncation.TruncateSafeIff | final_project/fat32.c:530-547 | truncating passes only through safe states if and only if the length is not 0 or the file has no cluster |
| Witnesses.TruncatedToNothing | final_project/fat32.c:530-547 | from a formatted card: a file of one byte, truncated to nothing, leaves an unsafe state on the card |
| Truncation.StepClean | final_project/fat32.c:394-590 | a command in range, completed or cut short by a panic, leaks no cluster and leaves every size within its chain |
| Truncation.RunClean | final_project/fat32.c:394-590 | after every run in range, whichever command panics, the clusters in use are exactly the disjoint union of the chains of the root and of the live entries |
| RoundTrip.WriteThenRead | final_project/fat32.c:247-272 | after a write of n > 0 bytes the name finds an entry of size n whose chain holds them, every other name finds what it found before, and reading returns if and only if the extra read for the end mark is on the card |
| RoundTrip.TruncateThenRead | final_project/fat32.c:511-549 | after a truncation in range the file holds its first bytes and every other name finds what it found; reading it returns if and only if the marks of a truncation and of a chain write both map to the card |
| Witnesses.TruncatedUnreadable | final_project/fat32.c:121-139 | from a formatted card of 100 clusters: a file of one byte can be read, and no more after it was truncated to one byte |
| RoundTrip.CreateNamesIff | final_project/fat32.c:433-459 | create keeps names unique if and only if the packed name is unused, and always does for a dotted name |
| Witnesses.CreateClash | final_project/fat32.c:433-459 | from a formatted card: creating a name without an extension twice leaves two live entries of one name |
| RoundTrip.RenameNamesIff | final_project/fat32.c:403-412 | rename keeps names unique if and only if no other live entry has the new name |
| Witnesses.RenameClash | final_project/fat32.c:403-412 | from a formatted card: two files, the one renamed to the other, are two live entries of one name |
| RoundTrip.DeletedNotFound | final_project/fat32.c:478-509 | a deleted dotted name is not found, and every other name reads as before |
| RoundTrip.CreatedFound | final_project/fat32.c:425-475 | a created dotted name is found in the slot that was free, without a cluster, and every other name reads as before |
| RoundTrip.DeleteCreateWrite | final_project/sig-save.h:121-128 | delete, create and write of one name end with exactly its bytes, all other files unchanged |
| RoundTrip.DeleteCreateWriteRun | final_project/sig-save.h:121-128 | the same as commands on mounted volumes; both of the client's assertions hold |
| Outcomes.DeleteOutcome | final_project/fat32.c:478-509 | a delete panics, returns 1 or returns 0, each if and only if: the name is valid and the directory cannot be read; it is valid and an entry matches; it is invalid or none does |
| Outcomes.CreateOutcome | final_project/fat32.c:425-475 | the same for a create: it succeeds if and only if the name is valid, no entry matches and a slot is free, and panics on a full directory |
| Outcomes.RenameOutcome | final_project/fat32.c:394-421 | the same for a rename: it succeeds if and only if the new name is valid and an entry matches the old one |
| Outcomes.TruncateOutcome | final_project/fat32.c:511-549 | the same for a truncation, which returns 0 either way and panics on a file without a cluster when FAT[0] holds a reserved value |
| Outcomes.WriteOutcomes | final_project/fat32.c:552-590 | a write panics if and only if the directory cannot be read or its bytes need more clusters than its file has and the searches find; it succeeds if and only if the name is found and they do not |
| Outcomes.CreatedEntry | final_project/fat32.c:447-465 | a create that returns 1 leaves in the first free slot the packed name, byte 11 equal to 0x20 for a file and 0x10 for a directory, zero start and size and the old times, and all other entries as before |
| Outcomes.DeletedEntry | final_project/fat32.c:489-507 | a delete that returns 1 leaves 0xE5 in the entry's first byte, so that the slot is free again, every FAT entry of its chain 0, and all other entries as before |
| Outcomes.RenamedFound | final_project/fat32.c:403-419 | renaming to an unused dotted name succeeds; the new name is found in the old slot and reads what the old one read, the old one is not found, every other name reads as before |
| Outcomes.EmptyWrite | final_project/fat32.c:565-589 | a write of no bytes to a name that is found sets the size to 0 in its last four bytes and changes nothing else of the directory, the chain or any other file |
| Outcomes.WrittenEntryBytes | final_project/fat32.c:565-588 | a write of n > 0 bytes that returns 1 leaves n in bytes 28 to 31 and the chain's first cluster in bytes 26, 27, 20 and 21 of the entry, the rest of it and all other entries as before |
| Outcomes.TruncatedEntry | final_project/fat32.c:527-547 | a truncation that writes leaves the length in bytes 28 to 31 of the entry, whatever the length, the rest of it and all other entries as before |
| Card.SdCard.Read | final_project/fat32.c:131 | copies sectors into the buffer, or fails when they are not on the card |
| Card.SdCard.Write | final_project/fat32.c:355 | replaces sectors, as one step of the history |
| Driver.Fs.constructor | final_project/fat32.c:54-65 | the mounted driver holds the FAT of the card, spare entries included |
| Driver.Fs.WriteCluster | final_project/fat32.c:354-355 | one data write is one device state with that cluster replaced, and it panics exactly for a number below 2 or without a cluster on the card |
| Driver.Fs.WriteFat | final_project/fat32.c:298-307 | one flush is one device state with the FAT of the memory, and leaves the spare entries as they were |
| Driver.Fs.FindFreeCluster | final_project/fat32.c:279-296 | the search returns the first free entry from its start, or panics |
| Driver.Fs.ChainLength | final_project/fat32.c:105-116 | the loop counts the clusters of the chain |
| Driver.Fs.ReadClusterChain | final_project/fat32.c:121-139 | the buffer begins with the chain's clusters in order; the call panics if and only if the extra read is off the card |
| Driver.Fs.FreeChain | final_project/fat32.c:493-502 | the loop frees exactly the chain's entries |
| Driver.Fs.WriteBlocks | final_project/fat32.c:347-387 | the writing loop sends the blocks in order and relinks the chain to the clusters used; it panics if and only if the free clusters of the card above the chain run out, which may be at a spare entry |
| Driver.Fs.WriteClusterChain | final_project/fat32.c:313-392 | the method passes through exactly the device states of the specified chain write and leaves its FAT; from a start cluster below 2 it does nothing for no bytes and panics otherwise, as it does at a spare start entry |
| Driver.Fs.GetDirents | final_project/fat32.c:158-171 | the buffer holds the root directory |
| Driver.Fs.FindDirent | final_project/fat32.c:205-223 | the loop returns the first live entry of that name, or -1 |
| Driver.Fs.Delete | final_project/fat32.c:478-509 | passes through exactly the device states of the specified delete, with its result or panic |
| Driver.Fs.Create | final_project/fat32.c:425-475 | passes through exactly the device states of the specified create, with its result or panic; what they are is in `Outcomes.CreateOutcome` and `Outcomes.CreatedEntry` |
| Driver.Fs.Rename | final_project/fat32.c:394-421 | passes through exactly the device states of the specified rename, with its result or panic; what they are is in `Outcomes.RenameOutcome` and `Outcomes.RenamedFound` |
| Driver.Fs.Write | final_project/fat32.c:552-590 | passes through exactly the device states of the specified write, with its result or panic |
| Driver.Fs.TruncateLoop | final_project/fat32.c:530-545 | the loop marks and frees exactly the specified entries, and panics only on the media entry |
| Driver.Fs.Truncate | final_project/fat32.c:511-549 | passes through exactly the device states of the specified truncate, with its result or panic |
| Driver.Fs.Read | final_project/fat32.c:247-272 | returns the size of the entry and the bytes of its chain; it uses a null pointer exactly when the name is not there, and panics exactly when there is no chain or an extra read is off the card |
| Driver.Fs.Save | final_project/sig-save.h:121-128 | unless the driver panics, the client's run ends with the file holding its bytes and every other file unchanged |
| Driver.Fs.Execute | final_project/fat32.c:394-590 | a sequence of operations passes through exactly the device states of the specified run, up to the first panic, and each of them can be mounted |
| Float.ValFields | lib/libm/e_fmodf.c:60-62 | the value of a pattern is its significand shifted by its exponent field |
| Float.ValOrder | lib/libm/e_fmodf.c:43-48 | patterns are ordered as the numbers they stand for |
| FmodFloat.Ilogbf | lib/libm/e_fmodf.c:50-58 | the exponent loops stop where the leading bit is in place |
| FmodFloat.Reduce | lib/libm/e_fmodf.c:74-86 | the shift-and-subtract loop leaves the remainder of a * 2^n by b |
| FmodFloat.Packf | lib/libm/e_fmodf.c:88-104 | normalising and packing lose no bit, subnormal results included |
| FmodFloat.Fmodf | lib/libm/e_fmodf.c:31-105 | for finite x and nonzero y the magnitude is abs(x) mod abs(y) exactly, with the sign of x; NaN exactly for y = 0, x not finite or y NaN; x itself for infinite y |
| FmodDouble.ShiftedLeft | lib/libm/e_fmod.c:73-76 | the two-word left shift multiplies the pair |
| FmodDouble.ShiftedRight | lib/libm/e_fmod.c:121-126 | the two-word right shift of an exact multiple drops no set bit |
| FmodDouble.SubtractPair | lib/libm/e_fmod.c:98 | subtraction with borrow, and its sign |
| FmodDouble.Reduce | lib/libm/e_fmod.c:95-107 | the two-word loop leaves the remainder of a * 2^n by b |
| FmodDouble.PurgedIff | lib/libm/e_fmod.c:41-44 | the word test finds exactly y = 0, x not finite and y NaN |
| FmodDouble.Fmod | lib/libm/e_fmod.c:29-133 | as for floats, on two words |
| HalfEven.RemainderUnique | lib/libm/e_remainderf.c:46-61 | the definition of the half-even remainder has one answer |
| HalfEven.RemainderNearest | lib/libm/e_remainderf.c:46-61 | no multiple of p is closer to x than the one taken away |
| HalfEven.Sterbenz | lib/libm/e_remainderf.c:52-59 | the difference of two numbers within a factor of two is a number of the format |
| HalfEven.ReduceSmall | lib/libm/e_remainderf.c:50-54 | the doubling branch yields the half-even remainder, each operation exact |
| HalfEven.ReduceLarge | lib/libm/e_remainderf.c:55-61 | so does the halving branch; an infinite p leaves x |
| HalfEven.ModTwice | lib/libm/e_remainderf.c:46 | reducing modulo 2p first keeps the parity that ties depend on |
| RemainderFloat.Remainderf | lib/libm/e_remainderf.c:26-66 | the result is x - k * p for the k nearest to x / p, ties to even; a zero has the sign of x; NaN exactly for p = 0, x not finite or p NaN |
| RemainderDouble.Remainder | lib/libm/e_remainder.c:35-75 | the result is the half-even remainder with the sign lost exactly when it lies between -2^32 and 0 for the magnitudes, which is decided by the operands; NaN exactly for p = 0, x not finite or p NaN; a zero has the sign of x |
| RemainderDouble.SignLostIff | lib/libm/e_remainder.c:71-73 | the exact remainder loses its sign if and only if the operands say so |
| RemainderDouble.RemainderIff | lib/libm/e_remainder.c:71-73 | the result is the half-even remainder if and only if abs(x) does not round up to a multiple of abs(p) less than 2^32 units above it |
| RemainderDouble.SignLostAtThreeByFour | lib/libm/e_remainder.c:71-73 | the words of 3 and 4 units: the method returns 1, which is not the remainder |
| SqrtFloat.BitTaken | lib/libm/e_sqrtf.c:60-69 | a taken bit keeps the remainder equal to c - q^2, scaled by the moving bit, and the root within reach |
| SqrtFloat.BitLeft | lib/libm/e_sqrtf.c:60-69 | so does a bit that is not taken |
| SqrtFloat.Bits | lib/libm/e_sqrtf.c:55-69 | the loop ends with the floor root and the exact remainder, without overflow |
| SqrtFloat.OddIsInexact | lib/libm/e_sqrtf.c:71-81 | an odd floor root is never exact |
| SqrtFloat.RootRounded | lib/libm/e_sqrtf.c:71-82 | the rounded significand k has (2k-1)^2 < c < (2k+1)^2 and needs no carry into the exponent |
| SqrtFloat.NearestRootUnique | lib/libm/e_sqrtf.c:71-85 | at most one number is the correctly rounded root |
| SqrtFloat.Sqrtf | lib/libm/e_sqrtf.c:22-86 | for every positive finite float, subnormal or not, the result is the correctly rounded root: every other number lies beyond the midpoint between; NaN exactly for negative numbers and NaN |
| SqrtDouble.NormalizeSubnormal | lib/libm/e_sqrt.c:117-126 | the loops shift a subnormal pair until its leading bit is in place |
| SqrtDouble.HighBits | lib/libm/e_sqrt.c:135-151 | the loop on high words is the recurrence on the whole number |
| SqrtDouble.LowStep | lib/libm/e_sqrt.c:154-168 | one turn of the low loop, with its carry into s0 and its borrow, is one step of the recurrence |
| SqrtDouble.LowBits | lib/libm/e_sqrt.c:153-169 | both loops together end with the floor root and the exact remainder |
| SqrtDouble.RoundWords | lib/libm/e_sqrt.c:171-186 | the rounding on words, with its carry out of q1, is the rounding of the whole root |
| SqrtDouble.Sqrt | lib/libm/e_sqrt.c:94-189 | for every positive finite double the result is the correctly rounded root; NaN exactly for negative numbers and NaN |
| RemPio2.ProductSplits | lib/libm/k_rem_pio2.c:308-316 | the chunks q[] continue the partial products of x and the digits |
| RemPio2.SkippedIsMultipleOfEight | lib/libm/k_rem_pio2.c:303-306 | the digits that the choice of jv skips contribute a multiple of 8 |
| RemPio2.Chunks | lib/libm/k_rem_pio2.c:308-316 | the loops compute q[] as the convolution of x with the digits, whose weighted sum `RemPio2.ProductOfNumbers` shows to be a product |
| RemPio2.ProductOfNumbers | lib/libm/k_rem_pio2.c:308-316 | all partial products together, each in its weight, are the product of x and the digits read as two numbers in base 2^24 |
| RemPio2.ProductCutOff | lib/libm/k_rem_pio2.c:312-318 | the partial products of the first s weights fall short of that product by less than one unit of the last weight but one for each piece of x |
| RemPio2.Distill | lib/libm/k_rem_pio2.c:320-325 | the limbs lie in [0, 2^24) and have the same weighted sum as q[], for any number of terms |
| RemPio2.ComplementLimbs | lib/libm/k_rem_pio2.c:342-350 | the loop subtracts the limbs from one unit above them, and carry says whether they were zero |
| RemPio2.ComplementAndMask | lib/libm/k_rem_pio2.c:342-358 | with the mask, the limbs become one minus the fraction |
| RemPio2.IntegralInZ | lib/libm/k_rem_pio2.c:327-339 | for q0 < 0, n and the fraction make the product modulo 8, and ih says whether the fraction is at least one half |
| RemPio2.IntegralInTop | lib/libm/k_rem_pio2.c:327-338 | the same for q0 in 0, 1, 2, with the integral bits of the top limb |
| RemPio2.RoundToNearest | lib/libm/k_rem_pio2.c:341-363 | n minus or plus the remaining fraction equals the product modulo 8, and the fraction is at most one half |
| RemPio2.Reduce | lib/libm/k_rem_pio2.c:319-363 | all of it for the chunks q[], whatever their number |
| RemPio2.ReduceProduct | lib/libm/k_rem_pio2.c:302-363 | all of it for the product of x and the digits, and for the product of the two numbers: it is n modulo 8 plus or minus a fraction of at most one half, up to what the digits behind the last chunk add, which is bounded |
| RemPio2.Chop | lib/libm/k_rem_pio2.c:382-394 | dropping zero limbs or breaking z into limbs keeps value and weight, and the top limb is not zero; all are limbs if and only if z is below 2^48 |
| Ceil.LeastIntegralIsLeast | lib/libm/s_ceil.c:37-71 | nothing integral lies between x and its ceiling |
| Ceil.Truncated | lib/libm/s_ceil.c:46-69 | clearing the fraction bits rounds the magnitude down, and adding one at the lowest integral place adds one, carry into the exponent included |
| Ceil.CeilHigh | lib/libm/s_ceil.c:45-52 | below 2^20 the masks on the high word compute the ceiling |
| Ceil.CeilLow | lib/libm/s_ceil.c:56-69 | below 2^52 the low word does, with its carry into the high one |
| Ceil.Ceil | lib/libm/s_ceil.c:32-73 | for every finite double the result is the least integral value not below x, x itself when x is integral, with the sign of x |
| Utf8.CodepointLen | final_project/unicode-utf8.c:36-46 | the table scan returns the length of the encoding, and reads behind the table exactly above 0x10FFFF |
| Utf8.Utf8Len | final_project/unicode-utf8.c:48-58 | the table scan returns what a lead byte announces, and reads behind the table exactly from 0xF8 upward |
| Utf8.BehindTheTable | final_project/unicode-utf8.c:25-58 | 0x110000 and 0xF8 are inputs whose scans read behind the table |
| Utf8.ToUtf8 | final_project/unicode-utf8.c:60-76 | the buffer holds the bytes of section 3 of RFC 3629 and a terminator; above 0x10FFFF, exactly, the scan reads behind the table |
| Utf8.ToCp | final_project/unicode-utf8.c:78-90 | the loop returns the number that the sequence spells; from 0xF8 upward, exactly, the scan reads behind the table |
| Utf8.EncodeIsReadBack | final_project/unicode-utf8.c:36-90 | the lead byte fixes the length, no byte is 0, continuation bytes are no lead bytes, and the sequence spells its code point |
| Utf8.EncodeIsShortest | final_project/unicode-utf8.c:25-46 | no sequence shorter than the encoding spells the code point |
| Utf8.EncodeKeepsOrder | final_project/unicode-utf8.c:60-76 | the byte order of encodings is the order of code points, as section 1 of RFC 3629 promises |
| Utf8.EncodeExamples | final_project/unicode-utf8.c:60-76 | the examples of section 7 of RFC 3629 |
| Utf8.StreamRoundTrip | final_project/unicode-utf8.c:36-90 | encoding any sequence of code points and decoding it sequence by sequence gives it back |
| LongNames.AppendUnit | final_project/fat32-lfn-helpers.c:72-74 | one unit appends its encoding to the string |
| LongNames.Utf8Append | final_project/fat32-lfn-helpers.c:67-77 | one field appends its units up to the terminator |
| LongNames.LfnGetName | final_project/fat32-lfn-helpers.c:79-92 | the buffer holds the text of the entries, the last entry first, within 512 bytes |
| LongNames.Reassembled | final_project/fat32-lfn-helpers.c:59-92 | a name cut into 13-unit entries, stored last first with terminator and padding, each unit low byte first at its place in the 32 bytes, is reassembled as the UTF-8 of its units |

## Left out

- Device drivers, caches and timing: `final_project/emmc.c` and `pi-sd.c` are an abstract card. A sector is written whole, and the sectors of a call in ascending order; `Runs.dfy` and `Atomicity.dfy` moreover take each call as one step.
- Transfers that are not on the card are modelled as a panic, as `pi-sd.c` does when the device reports an error.
- A FAT whose entries name places of 2^32 sectors or more, where addresses wrap, and one of 0x0FFFFFF0 clusters or more.
- Memory beyond the first n bytes of the caller's buffer, which the last partial cluster sends, is a parameter.
- Buffer sizes: `get_dirents` and `fat32_read` allocate one cluster less than the extra read fills, and `find_dirent_with_name` copies names into 11 bytes; the model gives them room.
- Directories other than a flat root directory of plain files, `fat32_readdir`, printing and tracing.
- The contents of the second FAT copy, and the boot-sector, MBR and FSInfo checks; the model starts from a geometry with two FATs.
- FAT entries with a nonzero top nibble: the code uses entries unmasked as indices, so the invariant asks for a zero nibble.
- Chains of 4 GiB or more, whose byte counts wrap.
- The end of the partition: the number of sectors is that of the card, and clusters between the two ends, if the FAT has entries for them, count as clusters of the volume.
- Driver.Fs.WriteClusterChain: is for start clusters that head a chain, are below 2, or are a spare entry that is to receive bytes; the driver calls it with no other.
- Names.ToDotName: an all-blank base makes the code store the dot before its buffer; the model skips that store.
- Two writers, interrupts, and a card that is removed.
- The `ipio2` digits and their number, the recomputation test of `k_rem_pio2.c` and the floating-point compression after line 394; the reduction is proved for any digits and any number of chunks.
- RemPio2.Chop: is for z below 2^55, where the conversion of its upper part to an int is defined.
- The inexact and invalid flags; only the values are modelled, with rounding to nearest, so that `one - tiny` and `one + tiny` are one and `huge + x > 0` holds.
- SqrtDouble.NormalizeSubnormal: reads the shift by 32 of `e_sqrt.c:124` as shifting everything out, as a register shift on the target does.
- NaN payloads and signs: a NaN result is just NaN.
- The polynomial and rational approximations of libm, and the long double versions.
- Code point 0, which the encoder takes for a continuation byte; surrogates are encoded like any other code point, as the code does.
- Utf8.ToCp: is for a lead byte whose whole sequence is in the buffer; on a continuation byte the code shifts by a negative amount.
- Surrogate pairs in long names: the code encodes each unit by itself.
