# Ziqa kernel: a verified model

A Dafny 4.11 model of the parts of the Ziqa kernel whose correctness is hardest to see from
the code, with proofs about every input, every run or every reachable state.

`dafny verify dfyconfig.toml` checks everything.

## What is modelled

**Copy-on-write fork** (`PageTables`, `CowFork`, `CowForkRuns`). Physical memory is a map from frames to tables of 512
entries; a frame it does not list reads as unused entries. The meaning of a tree is the user-mode walk of the Intel
SDM (Volume 3A, sections 4.5 and 4.6). The fork first makes the parent's user leaves read-only and then clones the
tree, drawing frames from an allocator whose answers are an arbitrary list; when an inner allocation fails, the
subtree is shared. The allocator gives frames that are not tables of the parent, never one twice, and zeroed (as the
buddy allocator does). For every such list the child means what the parent meant, and nothing is shared exactly when
no allocation failed. One promise does not hold: huge user pages stay writable in the parent, and in a child that
shares the table holding them. `ParentWritableExactlyWhereHuge` and `ChildWritableIff` say exactly where, and
`ForkRights` the same of the right to write that every level of the walk must give; `HugePageStaysWritable` gives the
tree and `ForkHugePage` forks it. Above single forks, a run is any sequence of forks by any of the processes: each
keeps mapping what it mapped (`RunKeepsMappings`).

**FAT32** (`FatTable`, `FatContent`, `FatLayout`, `FatVolume`, `FatFile`, `FatRead`, `FatRuns`). The device is a byte
string that rejects requests past its end. The table on it is abstracted to its next-cluster relation and the chains
are pure data; a cluster may carry the bad-cluster mark of the FAT specification. The class `Volume` works on the
bytes and its ghost fields `table` and `store` are the abstraction; `agreeing` counts the table copies that hold
`table`, all of them if they agreed when the volume was mounted. A read fetches up to 64 clusters in one transfer of
consecutive sectors. Whatever the clusters hold, it returns the file's bytes if and only if each such batch is
numbered consecutively (`ReadRightIff`, `WholeFileRightIff`); `FragmentedReadWrong` builds, for any other file,
contents with the same table that are misread, and `FragmentedFile` shows how such files arise. What is written is
read back (`WriteThenRead`), and however writes to several open files are interleaved, each file is as if its own
writes had been the only ones (`WriteRun`, `EachFileAlone`). An allocation that has to be undone restores every link
only if the cluster before it ended its chain (`RolledBackLinksIff`).

**eBPF** (`Ebpf`, `EbpfVerifier`, `EbpfVm`, `EbpfSafety`, `EbpfLaws`, `EbpfMachine`, `EbpfMap`). The instruction set
is that of RFC 9669, sections 4 and 5, as the code implements it (division by zero is an error). Helpers that look
outside the machine answer arbitrarily; PROBE_READ is modelled and a tail-call handle is a key of a table of programs.
The verifier's acceptance is a predicate on instruction boundaries. It accepts jumps into the second word of a
two-word instruction (`JumpIntoSecondWord`); `BoundariesClosedExactlyWhenAligned` is the exact condition. It also
accepts stack offsets that leave no room for the access (`StoreFails` is such a program); `StackAccessExact` says when
an access succeeds. The code's documentation promises that unbounded loops are rejected; the code accepts backward
jumps, and termination rests on the instruction budget, which is proved. `EbpfLaws` says what the operators, jumps and
memory accesses compute, by their laws and by what small programs return.

**Capabilities** (`Capability`, `CapabilityTokens`, `CapabilityEscape`, `CapabilityStore`). A state machine over
spawns, forks, grants and revocations. Global revocation is complete unless something was granted under an id that an
earlier revocation had cut out of the tree: `RevokeCompleteIff` is the exact condition, `EscapeReached` and
`EscapeMissed` a run that fails it, and `DisciplinedRunsRevokeCompletely` a rule for callers under which it never
fails. `CapabilityTokens` follows the tokens themselves: over every run the holders of an id hold what was granted
(`GrantLasts`), and nobody has a permission that no grant gave (`PermissionsAreGranted`).

**Swap and eviction** (`SwapBitmap`, `Swap`, `SwapBackend`, `Eviction`, `EvictToSwap`). The bitmap is bytes and masks;
above it, every step of the backend is a relation between states and a run is any sequence of steps. The clock is
proved for arbitrary answers to its swap-outs and, in `EvictToSwap`, over the backend itself: there it fails on a
registry that is not empty if and only if the next slot cannot be written.

**Shell and editor** (`Levenshtein`, `ShellParser`, `ShellRoundTrip`, `ShellSpelling`, `EditText`, `EditHistory`,
`Edit`). The two-row edit distance, the tokenizer with a printer it inverts and the meaning of every way to spell and
space a line, and the editor with its line table and undo stacks. Three surprises of the editor are stated exactly: a
tab inserts three spaces when an anchor is left at the cursor (`InsertTab`), automatic indentation copies the
indentation only when the cursor is not inside it (`InsertNewline`), and backspace can leave the anchor outside the
text (`Backspace`).

## Model

| member | source | states |
|---|---|---|
| PageTables.PathOf | src/memory/paging.rs:256-302 | the four table indices of an address; lower-half addresses use L4 entries below 256 |
| PageTables.PathOfPage | src/memory/paging.rs:256-302 | the indices are the base-512 digits of the page number, the highest first |
| PageTables.PhysFrameOfPage | src/memory/paging.rs:256-302 | where the user walk finds a 4 KiB page, the kernel's lookup finds its frame |
| PageTables.AgreeSameWalk | src/memory/paging.rs:256-302 | user walks depend only on the tables reached by user links |
| PageTables.ClearedSameTables | src/memory/paging.rs:307-373 | clearing WRITABLE bits anywhere moves no table of any tree |
| PageTables.KernelWalkKept | src/memory/paging.rs:256-302 | the kernel's own walk finds the same frame whatever WRITABLE bits are cleared and whatever frames off its way are then written |
| PageTables.HugeEntryOf | src/memory/paging.rs:256-302 | a huge page is an entry of the table that the address leads to |
| PageTables.ClearedNarrows | src/memory/paging.rs:307-373 | clearing WRITABLE bits anywhere takes nothing else from any tree |
| PageTables.ReadOnlyWalk | src/memory/paging.rs:307-373 | after the pass every user 4 KiB leaf is read-only and every walk maps the same frame with the same other flags |
| PageTables.UserLeafHasPath | src/memory/paging.rs:307-373 | each entry the pass changes ends a user path of the tree |
| PageTables.UpperTablesUntouched | src/memory/paging.rs:307-373 | where no frame serves two levels, the pass leaves every table above L1, so huge and kernel entries, unchanged |
| CowFork.Kernel.constructor | src/memory/paging.rs:379-440 | a machine with given memory and allocator answers |
| CowFork.Kernel.AllocateFrame | third_party/rmm/src/allocator/frame/buddy.rs:176-234 | hands out the next answer, zero-filled |
| CowFork.Kernel.ReadOnlyL1 | src/memory/paging.rs:353-369 | adds exactly the user leaves of one L1 table to the cleared ones |
| CowFork.Kernel.ReadOnlyL2 | src/memory/paging.rs:337-370 | the same for the tree below an L2 table |
| CowFork.Kernel.ReadOnlyL3 | src/memory/paging.rs:324-371 | the same for the tree below an L3 table |
| CowFork.Kernel.MakeUserLeafReadOnly | src/memory/paging.rs:307-373 | memory changes by clearing WRITABLE on exactly the present user leaves of the lower half |
| CowFork.Kernel.CloneUserTableTree | src/memory/paging.rs:379-440 | writes only frames it took; copies meaning and shape, sharing a table if and only if an inner allocation failed; each frame taken is linked, and is an entry-by-entry copy: links keep every flag, pages lose WRITABLE alone, the rest is unused; fails only if the root allocation fails, with nothing taken |
| CowFork.Kernel.CloneEntry | src/memory/paging.rs:389-438 | one more entry copied: earlier copies stay intact, and nothing more is shared exactly if no allocation failed |
| CowFork.Kernel.CloneSubtree | src/memory/paging.rs:425-437 | a table entry is cloned recursively, its link keeping every flag, or shared when no frame is left |
| CowFork.Kernel.CowForkParent | src/memory/paging.rs:457-472 | the read-only pass followed by the clone, for every allocator behaviour; no table is shared if and only if no allocation failed; the frames left are no tables of parent or child, so forks can follow |
| CowFork.ExtendWhole | src/memory/paging.rs:430-436 | a partial clone shares nothing exactly if neither its earlier entries nor the new one do |
| CowFork.Extend | src/memory/paging.rs:389-438 | processing one entry extends a partial clone, whatever was taken before |
| CowFork.ParentUntouchedByClone | src/memory/paging.rs:379-440 | the clone leaves every table and walk of the parent as the pass left them |
| CowFork.CopyTable | src/memory/paging.rs:389-438 | a table of the copy is its own, copied entry by entry, or is the original's, unchanged |
| CowFork.ForkCopiesTables | src/memory/paging.rs:396-436 | each entry of each table the child owns: a link with the flags of the parent's, a page without WRITABLE and otherwise the same, or unused |
| CowFork.ForkPreservesMeaning | src/memory/paging.rs:379-440 | every lower-half address maps the same frame in parent before, parent after and child; 4 KiB pages are read-only in both; the child maps nothing else |
| CowFork.ForkKeepsPhysFrames | src/memory/paging.rs:256-302 | after the fork the kernel's lookup in the parent finds what it found before, if no table on its way was handed out as free |
| CowFork.ForkSharesUpperHalf | src/memory/paging.rs:391-394 | L4 entries 256 to 511 of parent and child are equal |
| CowFork.TakenLinkedExactlyOnce | src/memory/paging.rs:379-440 | every frame drawn from the allocator hangs at exactly one place below the child |
| CowFork.HugeUntouched | src/memory/paging.rs:307-373 | huge user pages keep their writable bit in the parent |
| CowFork.ParentWritableExactlyWhereHuge | src/memory/paging.rs:307-373 | after a fork the parent can write a lower-half address if and only if it was a writable huge page |
| CowFork.CopyHugePage | src/memory/paging.rs:404-413 | a huge page of the child is read-only in a table of its own, or as it is in the parent's shared table |
| CowFork.ChildWritableIff | src/memory/paging.rs:404-436 | after a fork the child can write a lower-half address if and only if it was a writable huge page and the table holding it is shared |
| CowFork.ForkKeepsLinks | src/memory/paging.rs:414-436 | the WRITABLE bits of the links on the way to an address, taken together, are after a fork what they were, in parent and child |
| CowFork.ForkRights | src/memory/paging.rs:457-472 | the right to write, which every level must give: the parent keeps it exactly for huge pages, the child for those of them in tables it shares |
| CowFork.WholeChildReadOnly | src/memory/paging.rs:404-436 | a child that shares no table can write nothing |
| CowFork.HugePageStaysWritable | src/memory/paging.rs:307-373 | a concrete parent that keeps writing to a page shared with its child |
| CowFork.ForkHugePage | src/memory/paging.rs:457-472 | that fork happens; with one frame to draw, parent and child both write the page |
| CowForkRuns.StepKeeps | src/memory/paging.rs:457-472 | a fork, successful or not, leaves what every process maps |
| CowForkRuns.StepKeepsSound | src/memory/paging.rs:457-472 | and leaves the free frames apart from all tables |
| CowForkRuns.RunKeepsMappings | src/memory/paging.rs:457-472 | over any run of forks by any processes, each process keeps mapping, from any moment on, what it mapped then |
| CowForkRuns.ChildKeepsMapping | src/memory/paging.rs:457-472 | each child maps, at any later moment of the run, what its parent mapped before the fork |
| CowForkRuns.ForkProcess | src/memory/paging.rs:457-472 | the kernel's fork is such a step and can be repeated |
| FatTable.WalkIsComplete | src/fs/fat32.rs:190-211 | on a well-formed table, fuel of one unit per entry never truncates: the walk is the whole chain, without duplicates |
| FatTable.DecodeMarks | src/fs/fat32.rs:131-168 | which entry values end a chain: below 2 and from 0x0FFFFFF8 on; the bad-cluster mark is followed |
| FatTable.ChainUnique | src/fs/fat32.rs:131-168 | a chain is determined by its first cluster |
| FatTable.HeadsDisjoint | src/fs/fat32.rs:798-832 | chains from distinct heads share no cluster |
| FatTable.AllocateKeepsWellFormed | src/fs/fat32.rs:798-832 | allocation keeps links live, injective and acyclic |
| FatTable.AllocateExtendsChain | src/fs/fat32.rs:798-832 | the extended chain is the old one plus the new cluster |
| FatTable.AllocateKeepsOthers | src/fs/fat32.rs:798-832 | every other chain is unchanged |
| FatTable.RolledBackLinksIff | src/fs/fat32.rs:816-829 | undoing an allocation restores every link if and only if the cluster before it ended its chain |
| FatTable.TruncateKeepsWellFormed | src/fs/fat32.rs:1386-1420 | cutting keeps the table well formed and frees exactly the clusters cut off |
| FatTable.TruncateKeepsOthers | src/fs/fat32.rs:1386-1420 | other files' chains survive |
| FatTable.LowestFree | src/fs/fat32.rs:764-796 | the lowest free cluster number, or none |
| FatTable.ApplyKeepsWellFormed | src/fs/fat32.rs:798-832 | start, extend and cut, and allocations that are undone, each keep well-formedness and the top four bits of every entry |
| FatTable.RunKeepsWellFormed | src/fs/fat32.rs:798-832 | so does every run of them |
| FatTable.FragmentedChain | src/fs/fat32.rs:798-832 | two files started and the first extended give the chain [2, 4] |
| FatContent.ContentUpdate | src/fs/fat32.rs:501-531 | overwriting part of one cluster overwrites that part of the file |
| FatContent.GrownContent | src/fs/fat32.rs:798-832 | a grown chain holds the old bytes followed by zeroes |
| FatContent.GrownThenWritten | src/fs/fat32.rs:461-565 | growing and then writing is the splice that a write promises, other clusters untouched |
| FatContent.CutFacts | src/fs/fat32.rs:1386-1420 | the chain left by a cut is the file's new chain and nothing else moves |
| FatContent.ClustersNeeded | src/fs/fat32.rs:468-472 | the least number of clusters that holds a size |
| FatContent.FullLength | src/fs/fat32.rs:461-565 | without 32-bit overflow the reserved chain takes the whole buffer |
| FatContent.DirRoundTrip | src/fs/fat32.rs:544-550 | head and size written to a directory entry are read back, other bytes kept |
| FatContent.DirWords | src/fs/fat32.rs:544-550 | head and size are little-endian words: high half of the head at byte 20, low half at 26, size at 28 |
| FatLayout.NextAgrees | src/fs/fat32.rs:131-168 | the lookup on the device is the next-cluster relation of the table |
| FatLayout.UnpackExact | src/fs/fat32.rs:131-168 | an entry is its low 28 bits and its top four |
| FatLayout.LayoutFollows | src/fs/fat32.rs:110-122 | table copies follow the reserved sectors one after another, cluster 2 follows the last copy, each further cluster its predecessor |
| FatLayout.WalkAgrees | src/fs/fat32.rs:171-188 | the walk on the device is the walk of the table |
| FatLayout.WalkLength | src/fs/fat32.rs:171-188 | on any device contents the walk stops within its fuel |
| FatLayout.PatchedSector | src/fs/fat32.rs:731-762 | the sector written back differs in one entry's low 28 bits |
| FatLayout.FatSame | src/fs/fat32.rs:110-118 | a table copy depends only on its own sectors |
| FatLayout.ClusterWrite | src/fs/fat32.rs:110-122 | writing a cluster changes no table copy and no other cluster |
| FatLayout.ClustersApart | src/fs/fat32.rs:120-122 | no byte belongs to two clusters |
| FatVolume.Volume.constructor | src/fs/fat32.rs:679-729 | any device that fits; all copies count as agreeing if they do, otherwise the first alone |
| FatVolume.Volume.ReadSectors | src/drivers/virtio_block.rs:495-516 | fails exactly past the end of the device |
| FatVolume.Volume.WriteSectors | src/drivers/virtio_block.rs:495-516 | fails exactly past the end, otherwise overwrites those bytes only |
| FatVolume.Volume.ReadCluster | src/fs/fat32.rs:120-122 | the bytes of a cluster the device holds |
| FatVolume.Volume.WriteCluster | src/fs/fat32.rs:120-122 | replaces one cluster and nothing else |
| FatVolume.Volume.FollowClusterChain | src/fs/fat32.rs:131-168 | the lookup for any cluster number and any contents |
| FatVolume.Volume.WriteFatEntry | src/fs/fat32.rs:731-762 | every agreeing copy gets the entry; the top four bits and all else survive |
| FatVolume.Volume.WriteAllCopies | src/fs/fat32.rs:755-759 | the agreeing copies agree afterwards |
| FatVolume.Volume.CollectClusterChainLimited | src/fs/fat32.rs:171-188 | the first clusters of the walk |
| FatVolume.Volume.CollectClusterChain | src/fs/fat32.rs:190-211 | terminates on every device; complete and without repetition on a well-formed table |
| FatVolume.Volume.FindFreeCluster | src/fs/fat32.rs:764-796 | the lowest free cluster |
| FatVolume.Volume.AllocateCluster | src/fs/fat32.rs:798-832 | takes, links and zeroes the lowest free cluster, on any table; on failure the table is that of the undone allocation; the top four bits are kept; after the tail of a chain of a well-formed table, failure keeps every link |
| FatVolume.Volume.FreeClusterChain | src/fs/fat32.rs:1048-1069 | frees exactly the clusters of the chain |
| FatFile.GrowChain | src/fs/fat32.rs:482-494 | extends a chain by zeroed clusters, or fills the device; in both outcomes nothing else changes |
| FatFile.CutChain | src/fs/fat32.rs:1389-1406 | the shrinking loop truncates the chain |
| FatFile.Resize | src/fs/fat32.rs:1386-1420 | the chain becomes a prefix or is extended by zeroes; in both outcomes no cluster outside it changes |
| FatFile.UpdateDirEntry | src/fs/fat32.rs:534-558 | patches head and size in the entry's cluster |
| FatFile.WriteChunk | src/fs/fat32.rs:501-531 | one read-modify-write splices its piece into the file |
| FatFile.WriteThrough | src/fs/fat32.rs:496-531 | the copying loop splices the buffer at the offset |
| FatFile.Fat32File.Reserve | src/fs/fat32.rs:474-494 | makes room for the clusters needed |
| FatFile.Fat32File.Fill | src/fs/fat32.rs:474-531 | makes room and copies; on failure the chain has only grown and nothing else changed |
| FatFile.Fat32File.FillTo | src/fs/fat32.rs:468-531 | the same for the size the write ends at |
| FatFile.Fat32File.Record | src/fs/fat32.rs:533-561 | the entry records head and size |
| FatFile.Fat32File.Write | src/fs/fat32.rs:461-565 | the file becomes old bytes plus zeroes with the buffer spliced in; the words of the directory entry are its head and size; the full length is written; in both outcomes other clusters are untouched and the directory cluster keeps its other bytes |
| FatFile.OtherFileKept | src/fs/fat32.rs:461-565 | another file's chain, content and directory entry survive such a change |
| FatFile.WriteBeside | src/fs/fat32.rs:461-565 | any other open file stays valid with the same content, whether the write succeeds or not; after a success both are as apart as before |
| FatFile.CollectChain | src/fs/fat32.rs:190-211 | the file's chain from its head |
| FatFile.ReadHead | src/fs/fat32.rs:1366-1371 | the head in the words of a directory entry |
| FatFile.ResizeAndRecord | src/fs/fat32.rs:1386-1439 | the chain brought to the new length and recorded in the words of the entry |
| FatFile.TruncateOnDisk | src/fs/fat32.rs:1360-1439 | the chain has exactly the clusters the size needs, kept bytes and zeroes; the words of the entry give the old head before and the new head and size after; others untouched; on failure nothing but free clusters and the file's own changed |
| FatFile.TruncateBeside | src/fs/fat32.rs:1360-1439 | any other open file stays valid with the same content |
| FatRead.RunIsContent | src/fs/fat32.rs:445-457 | sectors read in one request over consecutive clusters are their content |
| FatRead.FetchedIsContent | src/fs/fat32.rs:443-457 | batches of consecutive clusters fetch the clusters' content |
| FatRead.FetchedByte | src/fs/fat32.rs:443-457 | for any clusters, each byte fetched comes from the cluster that the batch's first number and the position give |
| FatRead.ReadLength | src/fs/fat32.rs:423-459 | how many bytes a read along a chain returns: at least one |
| FatRead.BatchWiseRead | src/fs/fat32.rs:423-459 | if each batch of the clusters read is consecutive, a read at any offset returns the file's bytes there |
| FatRead.FragmentedReadWrong | src/fs/fat32.rs:443-457 | otherwise there are contents, with the same table, on which the same read is wrong |
| FatRead.ReadRightIff | src/fs/fat32.rs:423-459 | a read at an offset is right for all contents of the clusters if and only if each batch of the clusters it covers is consecutive |
| FatRead.WholeFileRightIff | src/fs/vfs.rs:189-200 | the same for a file read whole |
| FatRead.Seek | src/fs/fat32.rs:430-437 | walks to the cluster that holds an offset, on any device |
| FatRead.ReadBatches | src/fs/fat32.rs:443-457 | the loop returns the bytes fetched by all batches, cut to the length asked |
| FatRead.ReadChain | src/fs/fat32.rs:428-459 | seek, collect and fetch: the specified read, on any device |
| FatRead.Read | src/fs/fat32.rs:423-459 | empty past the size; otherwise the specified read, which is the file's bytes where each batch is consecutive |
| FatRead.ReadRawAll | src/fs/vfs.rs:189-200 | terminates with as many bytes as the size, and they are the file's where each batch is consecutive |
| FatRead.FragmentedFile | src/fs/fat32.rs:443-457 | such a file arises from two files started and the first extended, and is misread on some contents |
| FatRuns.WrittenReadsBack | src/fs/fat32.rs:423-459 | where each batch is consecutive, a read at the offset written returns the buffer, as far as the clusters fetched reach |
| FatRuns.WriteThenRead | src/fs/fat32.rs:423-565 | a written file can be read, and what was written comes back |
| FatRuns.WriteAmong | src/fs/fat32.rs:461-565 | of several open files all but the one written stay valid and as they were |
| FatRuns.WriteRun | src/fs/fat32.rs:461-565 | a run of writes to several files leaves what replaying them gives, up to the first that finds the device full |
| FatRuns.EachFileAlone | src/fs/fat32.rs:461-565 | however the writes are interleaved, each file is as if its own had been the only ones |
| Ebpf.BitwiseBits | src/ebpf/vm.rs:126-143 | each bit of AND, OR and XOR is the gate of the operands' bits |
| EbpfVerifier.SecondWordIsNoBoundary | src/ebpf/verifier.rs:57-64 | no instruction starts inside a two-word one |
| EbpfVerifier.Check | src/ebpf/verifier.rs:49-92 | one instruction passes exactly if it is safe |
| EbpfVerifier.Verdicts | src/ebpf/verifier.rs:49-92 | each verdict, in the bytes of the instruction: exactly when it is given |
| EbpfVerifier.HasExit | src/ebpf/verifier.rs:34-45 | finds a return if there is one |
| EbpfVerifier.Verify | src/ebpf/verifier.rs:25-98 | accepts exactly the accepted programs; otherwise reports the first failing boundary |
| EbpfVm.StackCheckExact | src/ebpf/vm.rs:35-51 | the saturating check is exact for all ranges if and only if the window ends below the last address |
| EbpfVm.StoreThenLoad | src/ebpf/vm.rs:199-228 | what a store leaves a load reads back, other bytes untouched |
| EbpfVm.ExecMemory | src/ebpf/vm.rs:199-228 | succeeds exactly inside the window, and records that access |
| EbpfVm.ProbeReadExact | src/ebpf/vm.rs:347-364 | the destination gets the source's bytes, at most a stack's worth, if both ranges are in the window; nothing else changes |
| EbpfVm.RunWithinBudget | src/ebpf/vm.rs:54-67 | a run stops within its remaining budget, through tail calls |
| EbpfVm.ExecutionBounded | src/ebpf/vm.rs:54-67 | at most 33 million instructions, for any program and registers |
| EbpfVm.RunStaysInWindow | src/ebpf/vm.rs:199-243 | every load, store and PROBE_READ of any run stays in the stack window |
| EbpfSafety.AlignedSteps | src/ebpf/vm.rs:63-251 | from boundary to boundary, for all register contents |
| EbpfSafety.BoundariesClosedExactlyWhenAligned | src/ebpf/verifier.rs:66-73 | that holds for all registers if and only if no jump that can be taken lands on a second word |
| EbpfSafety.RunKeepsToBoundaries | src/ebpf/vm.rs:63-88 | every configuration of a run is on an examined boundary or at the end; register and truncation checks never fire |
| EbpfSafety.JumpIntoSecondWord | src/ebpf/verifier.rs:66-73 | an accepted program that fails the run-time register check |
| EbpfSafety.StackAccessExact | src/ebpf/verifier.rs:75-92 | with R10 intact an accepted access succeeds if and only if off + size <= 0 |
| EbpfSafety.StoreFails | src/ebpf/verifier.rs:75-92 | an accepted program whose store leaves the stack and fails |
| EbpfSafety.TameRunsNeverOutOfBounds | src/ebpf/vm.rs:53-255 | programs that keep R10 and leave room never fail out of bounds, over whole runs with tail calls |
| EbpfSafety.SyscallStackAccessFails | src/ebpf/vm.rs:264-287 | with R10 at 0 every accepted stack access fails |
| EbpfLaws.AddLaws | src/ebpf/vm.rs:95-100 | addition, counted out by successors from the unit, and in either order |
| EbpfLaws.SubLaws | src/ebpf/vm.rs:101-106 | subtraction takes an addition back, and an addition a subtraction |
| EbpfLaws.MulLaws | src/ebpf/vm.rs:107-112 | multiplication is repeated addition |
| EbpfLaws.DivLaws | src/ebpf/vm.rs:113-125 | the quotient leaves less than the divisor; fails exactly for zero |
| EbpfLaws.GateLaws | src/ebpf/vm.rs:126-143 | AND, OR and XOR, bit by bit |
| EbpfLaws.ShiftAmount | src/ebpf/vm.rs:144-155 | only the amount modulo 64 counts; a shift by 0 changes nothing |
| EbpfLaws.LeftOneMore | src/ebpf/vm.rs:144-149 | one more place to the left doubles |
| EbpfLaws.RightOneMore | src/ebpf/vm.rs:150-155 | one more place to the right halves |
| EbpfLaws.AluCodes | src/ebpf/vm.rs:89-155 | a move takes the operand; every code that is no operator is refused |
| EbpfLaws.ComparisonLaws | src/ebpf/vm.rs:156-198 | the greater-than test is a strict total order in step with the successor; the other tests follow from it |
| EbpfLaws.JumpGoes | src/ebpf/vm.rs:156-198 | where each jump code goes, with the immediate value and with a register |
| EbpfLaws.Operates | src/ebpf/vm.rs:89-155 | each operator works on the destination register with the immediate value or the source register, and moves on |
| EbpfLaws.CallGoes | src/ebpf/vm.rs:229-243 | a helper's answer goes to R0; only helper 9 leaves the program |
| EbpfLaws.TailGoes | src/ebpf/vm.rs:231-239 | a tail call goes on at the start of the program called with the same registers; the 33rd fails |
| EbpfLaws.RunsOut | src/ebpf/vm.rs:63-67 | leaving the program or a million instructions fail the run |
| EbpfLaws.ImmediateYields | src/ebpf/vm.rs:63-255 | for every operator: the run of load, operate with a constant and return |
| EbpfLaws.SumProgram | src/ebpf/vm.rs:63-255 | MOV R0, a; ADD R0, b; RET returns (a + b) modulo 2^64 |
| EbpfLaws.InRegistersYields | src/ebpf/vm.rs:63-255 | for every operator: the same with both operands in registers |
| EbpfLaws.LoadIs | src/ebpf/vm.rs:199-208 | a load is the little-endian number in its bytes of the stack |
| EbpfLaws.StoreLoadReturn | src/ebpf/vm.rs:199-228 | a word stored anywhere in the frame and loaded from there is returned, all of it or its low half |
| EbpfLaws.ThroughFrameYields | src/ebpf/vm.rs:63-255 | a two-word constant, low half first, or an immediate value goes through the frame and is returned |
| EbpfMachine.BpfVm.constructor | src/ebpf/vm.rs:17-27 | zeroed registers and stack, R10 past the stack |
| EbpfMachine.BpfVm.StoreBytes | src/ebpf/vm.rs:209-228 | overwrites the addressed bytes of the stack |
| EbpfMachine.BpfVm.LoadOrStore | src/ebpf/vm.rs:199-228 | performs the specified access or refuses it |
| EbpfMachine.BpfVm.DoProbeRead | src/ebpf/vm.rs:347-364 | copies inside the window or does nothing |
| EbpfMachine.BpfVm.CallHelper | src/ebpf/vm.rs:290-398 | value, tail call or failure, as specified |
| EbpfMachine.BpfVm.Compute | src/ebpf/vm.rs:89-198 | arithmetic and jumps as specified and as `EbpfLaws` states them, anything else an error |
| EbpfMachine.BpfVm.ExecuteOne | src/ebpf/vm.rs:69-250 | one instruction as specified |
| EbpfMachine.BpfVm.Loop | src/ebpf/vm.rs:54-255 | the nested loops follow the specified run step by step |
| EbpfMachine.BpfVm.Execute | src/ebpf/vm.rs:54-255 | result, registers and stack are those of the run, within budget and window |
| EbpfMachine.BpfVm.ExecuteWithSyscallContext | src/ebpf/vm.rs:264-287 | the run from the syscall's registers |
| EbpfMap.SizeIsUsedCount | src/ebpf/map.rs:101-129 | the map has as many keys as used slots |
| EbpfMap.BpfHashMap.constructor | src/ebpf/map.rs:28-52 | an empty map if and only if the slots fit in 32 bits; otherwise not one slot has room |
| EbpfMap.BpfHashMap.Lookup | src/ebpf/map.rs:64-80 | finds the last value written, or nothing exactly if the key is absent |
| EbpfMap.BpfHashMap.Update | src/ebpf/map.rs:101-129 | sets the key; fails exactly if it is absent and the map is full |
| EbpfMap.BpfHashMap.Delete | src/ebpf/map.rs:149-165 | removes that key alone; fails exactly if it is absent |
| Capability.DescendantsExact | src/capability/mod.rs:228-235 | the recursion finds exactly the descendants all of whose grants are still linked |
| Capability.WithoutHolds | src/capability/mod.rs:146-152 | removal takes exactly the named ids |
| Capability.ApplyKeepsValid | src/capability/mod.rs:126-198 | unique ids per space, links recorded, nothing revoked is held: kept by every operation |
| Capability.ApplyAll | src/capability/mod.rs:126-198 | and by every run |
| Capability.RevokeExact | src/capability/mod.rs:170-198 | each space loses exactly the id and its linked descendants |
| Capability.HeldAfter | src/capability/mod.rs:170-198 | all other capabilities survive |
| Capability.RevokeCompleteIff | src/capability/mod.rs:170-198 | complete if and only if no held capability descends through a grant dropped from the tree |
| Capability.ApplyKeepsClosed | src/capability/mod.rs:237-239 | granting only under unrevoked ids keeps every descendant of a revoked id revoked |
| Capability.DisciplinedRunsRevokeCompletely | src/capability/mod.rs:170-198 | over every such run each global revocation is complete |
| Capability.DisciplinedFromBoot | src/capability/mod.rs:170-198 | in particular over every such run from boot |
| CapabilityTokens.WithoutTokens | src/capability/mod.rs:146-152 | removal leaves the other tokens as they are |
| CapabilityTokens.HoldsExact | src/capability/mod.rs:126-198 | after one operation a process holds a token if and only if it held it and the operation did not take it from that process |
| CapabilityTokens.KeptOverRuns | src/capability/mod.rs:126-198 | the same over every run, and nobody ever holds another token with that id |
| CapabilityTokens.GrantLasts | src/capability/mod.rs:126-143 | after a grant, over every later run: whoever holds the id holds exactly the resource, permissions, target and parent granted; the grantee holds it if and only if no operation took it from that process |
| CapabilityTokens.ForkLasts | src/capability/mod.rs:113-116 | a forked process holds what its parent held, each until an operation takes it from that one |
| CapabilityTokens.NothingForged | src/capability/mod.rs:126-198 | every token held after a run was held before it or granted in it, with those fields |
| CapabilityTokens.PermissionsAreGranted | src/capability/mod.rs:98-109 | since boot, a process has a permission only if some grant gave it |
| CapabilityTokens.GrantPermits | src/capability/mod.rs:160-167 | a granted permission is there until it is taken away |
| CapabilityEscape.EscapeReached | src/capability/mod.rs:170-198 | a run from boot to the failing state |
| CapabilityEscape.EscapeMissed | src/capability/mod.rs:170-198 | there a revocation leaves a transitively granted capability held |
| CapabilityStore.Store.constructor | src/capability/mod.rs:203-222 | the boot state |
| CapabilityStore.Store.SpawnSpace | src/capability/mod.rs:119-123 | a new, empty space; the others are as they were |
| CapabilityStore.Store.ForkSpace | src/capability/mod.rs:113-116 | a new space with the same tokens; the others are as they were |
| CapabilityStore.Store.GrantToken | src/capability/mod.rs:126-143 | appends a token with a new id and exactly the resource, permissions, target and parent asked for; the other spaces are as they were |
| CapabilityStore.Store.Lookup | src/capability/mod.rs:155-157 | the one token with the id |
| CapabilityStore.Store.HasPermission | src/capability/mod.rs:160-167 | whether some token is for the resource and has the permissions needed |
| CapabilityStore.Store.RevokeLocalIn | src/capability/mod.rs:146-152 | removes the id from one space, and says whether it was there |
| CapabilityStore.Store.GetAllDescendants | src/capability/mod.rs:228-235 | appends the descendants; terminates because children have larger ids |
| CapabilityStore.Store.RevokeFrom | src/capability/mod.rs:183-189 | removing ids one by one removes the set |
| CapabilityStore.Store.RevokeEverywhere | src/capability/mod.rs:170-198 | performs the global revocation |
| SwapBitmap.Bitmap.SetFree | src/memory/swap.rs:97-109 | a bit operation changes one slot and keeps the tail clear |
| SwapBitmap.NewBitmap | src/memory/swap.rs:75-94 | all slots free or none, tail bits clear |
| SwapBitmap.FindFirstSet | src/memory/swap.rs:122-135 | the lowest free slot, or none exactly if none is free |
| Swap.StepKeepsValid | src/memory/swap.rs:243-289 | free counts equal the set bits and tails stay clear |
| Swap.ReleaseTwice | src/memory/swap.rs:260-268 | freeing twice changes nothing |
| Swap.TakeRelease | src/memory/swap.rs:359-362 | a slot taken and given back leaves the state as it was, bit for bit |
| Swap.WriteThenRead | src/memory/swap.rs:172-216 | a written page reads back, every other page is kept |
| Swap.WriteWhere | src/memory/swap.rs:172-216 | a page lies 4096 bytes per slot from the start of the buffer, or from the first sector of the disk area; it is read and written there, and only there |
| Swap.StepKeepsOutside | src/memory/swap.rs:243-289 | no operation touches a byte outside the sectors of its area |
| Swap.RunKeepsOutside | src/memory/swap.rs:243-289 | nor does any run |
| Swap.RunKeepsPage | src/memory/swap.rs:243-289 | through any run a page stays and its slot is never handed out, until freed or rewritten |
| Swap.SwappedOutKeeps | src/memory/swap.rs:343-365 | after a successful swap-out the slot holds the page |
| SwapBackend.Backend.AddArea | src/memory/swap.rs:147-170 | a new area with every slot free |
| SwapBackend.Backend.Init | src/memory/swap.rs:299-304 | the first area is in RAM, with every slot free |
| SwapBackend.Backend.AllocSlot | src/memory/swap.rs:243-258 | the lowest free index of the first area that has one |
| SwapBackend.Backend.FreeSlot | src/memory/swap.rs:260-268 | frees outstanding slots, ignores the rest |
| SwapBackend.Backend.WritePage | src/memory/swap.rs:270-278 | stores the page or reports failure |
| SwapBackend.Backend.ReadPage | src/memory/swap.rs:280-288 | returns the stored page |
| SwapBackend.Backend.SwapOut | src/memory/swap.rs:343-365 | a slot holding the page, or nothing changed but the failure count |
| SwapBackend.Backend.SwapIn | src/memory/swap.rs:376-391 | the page of the slot |
| Eviction.Registry.constructor | src/memory/eviction.rs:24-29 | an empty registry |
| Eviction.Registry.RegisterPage | src/memory/eviction.rs:31-38 | adds unknown frames only; frames stay distinct |
| Eviction.Registry.MarkReferenced | src/memory/eviction.rs:40-44 | sets the bit of that frame only |
| Eviction.Registry.EvictOne | src/memory/eviction.rs:46-71 | evicts at the first successful swap-out, clearing exactly the bits passed; the hand stays in range |
| Eviction.EvictsFirstUnreferenced | src/memory/eviction.rs:46-71 | if swap-out works: the first unreferenced page from the hand, or the page at the hand, within n + 1 probes |
| Eviction.AtIsModulo | src/memory/eviction.rs:46-71 | probe t examines the page t steps on from the hand, modulo n |
| Eviction.NoneMeansEveryPageFailed | src/memory/eviction.rs:46-71 | nothing is evicted only if a swap-out of every page failed |
| EvictToSwap.SwapOutIff | src/memory/swap.rs:343-365 | a swap-out succeeds if and only if the next slot can be written, whatever the page; otherwise it changes nothing |
| EvictToSwap.RamStores | src/memory/swap.rs:172-216 | a slot in RAM can always be written |
| EvictToSwap.FreshStores | src/memory/swap.rs:299-304 | a backend just set up can store a page |
| EvictToSwap.ScanFinds | src/memory/eviction.rs:46-71 | two laps over such a backend find a victim if and only if it can store a page |
| EvictToSwap.Scan | src/memory/eviction.rs:53-70 | the two laps, calling the backend |
| EvictToSwap.EvictOne | src/memory/eviction.rs:46-71 | fails if and only if there is no page or the backend cannot store one; otherwise the first unreferenced page goes, and its slot keeps it |
| Levenshtein.NoScriptCheaper | src/shell.rs:2778-2798 | no edit script costs less than the distance |
| Levenshtein.DistIsLeastPrice | src/shell.rs:2778-2798 | the distance is the least price of a script |
| Levenshtein.Symmetric | src/shell.rs:2778-2798 | symmetry |
| Levenshtein.ZeroIffEqual | src/shell.rs:2778-2798 | zero exactly on equal words |
| Levenshtein.Triangle | src/shell.rs:2778-2798 | the triangle inequality |
| Levenshtein.LevenshteinDistance | src/shell.rs:2778-2798 | the two rows compute the distance |
| Levenshtein.FindSimilarCommand | src/shell.rs:742-753 | the first command of least distance below 4, or none exactly if all are farther |
| ShellParser.SkipWs | src/shell.rs:172-176 | skips the white space |
| ShellParser.ReadQuoted | src/shell.rs:193-212 | the quoted stretch, or an unclosed quote |
| ShellParser.ReadWord | src/shell.rs:178-233 | the specified word; a word that is read is not empty and moves the position; what it reads `ShellSpelling` states |
| ShellParser.ParseLine | src/shell.rs:274-315 | the specified command, on every input; what that is for typed lines `ShellSpelling` states |
| ShellRoundTrip.QuotedEscaped | src/shell.rs:193-212 | reading inverts escaping |
| ShellRoundTrip.ParseInvertsPrint | src/shell.rs:274-315 | a printed list of any words parses to what the words mean |
| ShellRoundTrip.WordsComeBackIff | src/shell.rs:274-315 | the words come back as plain arguments if and only if the list is not empty and no word is empty or an operator |
| ShellSpelling.ParseSpelt | src/shell.rs:274-315 | a line of words, spelt with any mixture of bare, escaped and quoted pieces, and of operators, spaced in any way that keeps them apart, parses to what the words mean |
| ShellSpelling.TypedCommand | src/shell.rs:178-315 | words without special characters, typed with spaces between, are the arguments |
| ShellSpelling.TypedRedirection | src/shell.rs:285-302 | behind them `< f` sets the input, `> f` the output and `>> f` the output in append mode, and nothing else |
| ShellSpelling.TypedInBackground | src/shell.rs:303-306 | behind them `&` sets background alone |
| ShellSpelling.BackslashTakes | src/shell.rs:186-191 | a backslash before each character takes any word as it is, operators and quotes included |
| ShellSpelling.UnclosedFails | src/shell.rs:193-212 | a quote that is never closed fails the line |
| EditText.LineIsNewlines | src/edit.rs:142-147 | the line of a position is the number of newlines before it |
| EditText.LineLenExact | src/edit.rs:153-161 | a line reaches to its newline or the end |
| EditText.BuildLines | src/edit.rs:132-138 | exactly the line starts, in order |
| EditText.FindLine | src/edit.rs:142-147 | the cursor's line |
| EditText.SearchForward | src/edit.rs:465-472 | the first match from a position on, or none exactly if there is none |
| EditText.ReplacedExact | src/edit.rs:320-391 | a replacement keeps the text before and behind; putting the old bytes back restores it |
| EditText.ByteClasses | src/edit.rs:245-252 | word bytes, blanks and newline as characters |
| EditText.IndentCopiedIff | src/edit.rs:352-364 | the indentation is copied if and only if the cursor is past it |
| EditHistory.RedosUndos | src/edit.rs:294-316 | n redos restore what n effective undos took back |
| EditHistory.RestoredIff | src/edit.rs:294-316 | n undos and n redos restore text, cursor and stacks if and only if n entries could be undone or none redone |
| EditHistory.EditsUndone | src/edit.rs:287-304 | after any edits, n undos give the text and cursor before the last n, for every n up to the depth of the stack |
| EditHistory.EditShows | src/edit.rs:287-316 | an edit shows its text, is undone by one undo, and leaves nothing to redo |
| EditHistory.EditsDepth | src/edit.rs:287-292 | the undo stack holds the newest 200 of the texts replaced, in order |
| Edit.Editor.constructor | src/edit.rs:104-126 | an editor on a text |
| Edit.Editor.EnsureScroll | src/edit.rs:163-167 | the cursor's line is on the screen |
| Edit.Editor.MoveUp | src/edit.rs:171-178 | one line up, same column or the end of a shorter line |
| Edit.Editor.MoveDown | src/edit.rs:180-187 | one line down, likewise |
| Edit.Editor.PageUp | src/edit.rs:210-216 | a screen of lines up, same column or the end of a shorter line |
| Edit.Editor.PageDown | src/edit.rs:218-224 | a screen of lines down, likewise |
| Edit.Editor.MoveLeft | src/edit.rs:189-192 | one byte left |
| Edit.Editor.MoveRight | src/edit.rs:194-197 | one byte right |
| Edit.Editor.MoveHome | src/edit.rs:199-202 | the start of the same line |
| Edit.Editor.MoveEnd | src/edit.rs:204-208 | the end of the same line |
| Edit.Editor.WordLeft | src/edit.rs:226-233 | the nearest word boundary to the left |
| Edit.Editor.WordRight | src/edit.rs:235-243 | the nearest word boundary to the right |
| Edit.Editor.FixAnchor | src/edit.rs:272-275 | fixes the anchor, selects nothing |
| Edit.Editor.SelectAll | src/edit.rs:279-283 | the selection is the text |
| Edit.Editor.SelectionExact | src/edit.rs:257-269 | the selection lies between anchor and cursor, whichever comes first; there is one exactly if it is not empty |
| Edit.Editor.Remember | src/edit.rs:287-292 | a snapshot; at most 200 undo and redo entries in all |
| Edit.Editor.UndoEdit | src/edit.rs:294-304 | one undo; the anchor stays inside exactly if the restored text reaches it |
| Edit.Editor.RedoEdit | src/edit.rs:306-316 | one redo; the anchor likewise |
| Edit.Editor.DeleteSelection | src/edit.rs:320-332 | removes the selected range as one undoable edit |
| Edit.Editor.InsertText | src/edit.rs:413-425 | replaces the selection, as a deletion and an insertion |
| Edit.Editor.InsertChar | src/edit.rs:334-342 | replaces the selection by a byte, as a deletion and an insertion in the history |
| Edit.Editor.InsertTab | src/edit.rs:344-347 | four spaces, three if an anchor is left at the cursor; four undos, or five, take them back |
| Edit.Editor.InsertNewline | src/edit.rs:349-368 | a newline and the bytes copied behind it as one edit, the indentation exactly if the cursor is past it |
| Edit.Editor.Backspace | src/edit.rs:370-380 | removes the selection or the byte before the cursor; afterwards the anchor is outside exactly if it and the cursor were at the end of a text that is not empty |
| Edit.Editor.DeleteAtCursor | src/edit.rs:382-391 | removes the selection or the byte at the cursor |
| Edit.Editor.Copy | src/edit.rs:395-402 | the selection goes to the clipboard |
| Edit.Editor.Cut | src/edit.rs:404-411 | the selection moves to the clipboard |
| Edit.Editor.Paste | src/edit.rs:413-425 | the clipboard replaces the selection, as a deletion and an insertion in the history |
| Edit.Editor.FindNext | src/edit.rs:429-441 | the next match, wrapping around; none exactly if there is none |
| Edit.Editor.DoReplaceCurrent | src/edit.rs:443-462 | replaces a current match as one undoable edit, keeps the anchor and goes on |

## Left out

- `handle_cow_fault`, demand paging, mapping and `brk`, and all TLB flushes: they rest on code that is not part of this model.
- Directory names, long names, mounting and VFS locking of FAT32; a handle left stale by truncate or unlink: handles hold the current head.
- FatFile.Fat32File.Write: when the device fills up, clusters reserved before that stay reserved, and the directory entry keeps the old head; that nothing else changed is proved.
- FatFile.TruncateOnDisk: the same holds when growing a file fills the device.
- FatVolume.Volume.constructor: the device holds all of its table copies; mounting does not check that.
- FatVolume.Volume.FreeClusterChain: asks for a well-formed table and a first cluster inside it; on a damaged table the code follows the links wherever they lead, past the table if they say so.
- FAT32 sector sizes other than 512 bytes.
- Transient device errors: a request fails exactly when it reaches past the end of the device.
- eBPF helpers that read maps, the clock, the processor or the process, and the raw pointers they follow: their answers are arbitrary, and what GET_CURRENT_COMM, TRACE_PRINTK and the map helpers touch in memory is not modelled.
- EbpfVm.ProbeReadExact: overlapping source and destination copy as if through a buffer.
- EbpfMachine.BpfVm.constructor: the address of the stack is a parameter; the code takes that of a local value before returning it by move, and the model assumes that the window is the machine's stack all the same.
- eBPF programs so long that an instruction index plus a jump offset leaves 32 bits.
- Array, ring-buffer and program-array maps: one index computation each.
- Ids past 64 bits, the callers of the permission check, and unmapping of revoked memory.
- CapabilityStore.Store.GrantToken: parents are ids already allocated. The code takes any id; every caller in src/ passes none, and an id not yet allocated could become its own descendant, on which the recursion for descendants does not end.
- Swap statistics beyond their update, and other users of the swap disk.
- EvictToSwap.EvictOne: the slot of the evicted page is a ghost result; the code drops it.
- ShellParser.ParseLine: only ASCII white space is trimmed from the ends of the line; variable expansion and command dispatch are not modelled.
- Edit.Editor.DeleteSelection: like the other edits it asks for an anchor inside the text, which the code does not check before it removes the range.
- Editor rendering, prompts, saving and key bindings.
- Device drivers, scheduling, system calls, networking, rendering, ring buffers and counters: hardware access, or easy members.
