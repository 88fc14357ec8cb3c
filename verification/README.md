# A model of the hypervisor's memory monitor, allocators and AES

The files here model the parts of the hypervisor and its libraries that carry the hardest invariants, and prove them with Dafny.
`dafny verify dfyconfig.toml` checks everything.

**The page-table monitor** (`Dmmu*.dfy`).
A guest builds its own ARM page tables and asks the monitor to validate, link, edit, activate and free them.
`DmmuState` holds words, descriptor fields (section B3.5 of the ARMv7-A Architecture Reference Manual, ARM DDI 0406C), the block frame table and the checks;
`DmmuCommands` gives each command as a function from state to error code and state, on every input;
`DmmuMonitor` has the commands as methods that write memory and counts in place, each proved to compute its function.
`DmmuInvariant`, `DmmuCounting`, `DmmuTables` and `DmmuSafety` prove that each command keeps the invariant: every descriptor of a typed table is sound, L1 blocks come in aligned groups of four that agree with the master table, and each count is the true number of references plus an excess that is never negative.
`DmmuIndices` has the second-level commands on every index, those beyond the validated half page included; `DmmuRuns` adds guest stores through the active L1 and proves safety over every run; `DmmuOverflow` says when a 30-bit count wraps; `DmmuResults` has the round trips, confinement of one store and start-up, `DmmuConfined` confinement over runs; `DmmuChecks` and `DmmuEffects` say what the checks accept, when each command succeeds, what it writes and what becomes of the addresses the processor translates; `DmmuNewPgd` is the section split of a new page directory; `DmmuExamples` has concrete runs.

**The allocators**.
`Dyadic`, `BuddyBlocks`, `BuddyLists`, `BuddySteps`, `Buddy` and `BuddyResults` are the buddy allocator.
Its free lists hold exactly the maximal aligned free runs, a fact about which pages are free and nothing else; the tags of inner pages, which the code leaves stale, are shown never to be read as block heads.
`HeapLayout` and `Heap` are the boundary-tag heap, `MregRegions`, `MregBlocks` and `Mreg` the two-level region manager over the buddy allocator, with what its callers have as one set, `Slab` the object cache over the pool.

**AES** (`Aes*.dfy`).
`AesField` proves the column macros on 32-bit words; `AesCipher` is FIPS 197 with an abstract S-box; `AesRounds` has aes_encrypt and aes_decrypt as they alternate their state arrays; `AesKeys` and `AesDecKeys` have the key schedules, unrolled and looped; `AesStandard` states rounds, cipher and key expansion byte by byte.
`AesCbc` is the file encryption with ciphertext stealing (in the style of CBC-CS2, Addendum to SP 800-38A), `AesCbcMode` and `AesModes` the modes of SP 800-38A, `AesCbcLaws` and `AesModeLaws` what each block of their output is.

A mask or shift of the C code appears as the division or remainder it stands for; where a 32-bit sum wraps, the model wraps it.
Where a property does not hold of the code, a lemma has the exact condition under which it does, and for the monitor `DmmuExamples` has a concrete run that shows it: unmapping with a second-level index of 512 or more (`DmmuIndices.UnmapL2EntryKeeps`, `DmmuRuns.RunExact`), stores under the wrapping range check (`DmmuResults.StoreConfined`, `DmmuConfined.RunTame`), counts that wrap (`DmmuOverflow.WrapsExactly`), and attaching a region without a megabyte boundary (`Mreg.MegsWrap`).

## Model

| member | source | states |
|---|---|---|
| `DmmuState.SecDescLayout` | core/hypervisor/dmmu.h:134-153 | A section descriptor built from an address and attributes names the address's section, is of type section and no supersection, and keeps the attribute bits below bit 18 |
| `DmmuState.SecDescNs` | core/hypervisor/dmmu.h:134-153 | ... and the bit above the supersection bit |
| `DmmuState.SecDescFields` | core/hypervisor/dmmu.h:134-156 | ... and its domain, access permission and cacheable fields are those of the attributes |
| `DmmuState.PtDescFields` | core/hypervisor/dmmu.h:138-154 | A page-table descriptor points to the 1 KB table given, with the PXN bit and domain of the attributes; which half of its page that is can be read back |
| `DmmuState.PtDescAttrs` | core/hypervisor/dmmu.h:138-154 | ... and every attribute bit of the descriptor is that of the attributes |
| `DmmuState.SmallDescFields` | core/hypervisor/dmmu.h:143-159 | A small-page descriptor maps the block of the address with the permission and cacheable field of the attributes |
| `DmmuState.SmallDescAttrs` | core/hypervisor/dmmu.h:143-159 | ... and so is every attribute bit, the execute-never bit below the type included |
| `DmmuInvariant.L1CheckOk` | core/hypervisor/dmmu.c:126-226 | A descriptor that passes the L1 check names only blocks of the right type, none of the table being made writable, each count at least 4096 below the maximum |
| `DmmuChecks.L1CheckExact` | core/hypervisor/dmmu.c:126-226 | The L1 check passes a descriptor if and only if it is sound, its targets have the right type and room in their counts, and it makes no block of the table writable |
| `DmmuChecks.L1CheckErrors` | core/hypervisor/dmmu.c:126-226 | Each error of the L1 check names a requirement that the descriptor misses |
| `DmmuInvariant.L2CheckOk` | core/hypervisor/dmmu.c:646-698 | A descriptor that passes the L2 check maps writable only data blocks other than the table's own, each count at least 1024 below the maximum |
| `DmmuChecks.L2CheckExact` | core/hypervisor/dmmu.c:646-698 | The L2 check passes a descriptor if and only if it is sound, a writable target is data and not the table itself, and the page, writable or not, has room in its count |
| `DmmuChecks.L2CheckErrors` | core/hypervisor/dmmu.c:646-698 | Each error of the L2 check names a requirement that the descriptor misses |
| `DmmuChecks.InsideCachedIs` | core/hypervisor/dmmu.c:93-103 | Without wrapping, the cacheable check is containment in the cached region |
| `DmmuChecks.IntersectsCachedIs` | core/hypervisor/dmmu.c:105-121 | Without wrapping, a range intersects the cached region when they overlap or when it ends where that begins |
| `DmmuChecks.AcFieldIs` | core/hypervisor/dmmu.c:182-190 | The access of domain d is the d-th two-bit field of the access control word |
| `DmmuChecks.OrBits` | core/hypervisor/dmmu.h:147-147 | Page and index are joined bit by bit |
| `DmmuCounting.TableRefsBound` | core/hypervisor/dmmu.c:232-257 | The references one table holds to one block are at most its number of entries: the margin that the overflow guards leave is enough for one table |
| `DmmuInvariant.ReplaceWord` | core/hypervisor/dmmu.c:444-579 | Replacing one descriptor of a validated table and moving the counts by the references gained and lost keeps every table sound and every count exact |
| `DmmuInvariant.CountMoved` | core/hypervisor/dmmu.c:566-578 | Moving one count alone moves its excess over the true references by as much, and keeps the tables sound if and only if that excess stays non-negative |
| `DmmuInvariant.CountsMoved` | core/hypervisor/dmmu.c:566-578 | The same for any number of counts moved at once |
| `DmmuTables.AddTable` | core/hypervisor/dmmu.c:232-357 | Counting every descriptor of a new table and retyping its blocks keeps the invariant and the exactness of every count |
| `DmmuTables.RemoveTable` | core/hypervisor/dmmu.c:400-437 | Uncounting every descriptor and retyping the blocks as data does too, and is the exact reverse of adding the table |
| `DmmuSafety.CreateL1Keeps` | core/hypervisor/dmmu.c:259-359 | dmmu_create_L1_pt keeps the invariant and every count's excess, on success and on each error, including the one that has already copied the master entries |
| `DmmuSafety.UnmapL1Keeps` | core/hypervisor/dmmu.c:364-438 | dmmu_unmap_L1_pt keeps them, whatever its arguments, and on success leaves four data blocks |
| `DmmuInvariant.MapL1SectionKeeps` | core/hypervisor/dmmu.c:444-516 | dmmu_map_L1_section keeps them |
| `DmmuInvariant.MapL1PtKeeps` | core/hypervisor/dmmu.c:521-576 | dmmu_l1_pt_map keeps the invariant, and every excess but for the half-page error, which raises that of the named block by one |
| `DmmuInvariant.UnmapL1EntryKeeps` | core/hypervisor/dmmu.c:581-641 | dmmu_unmap_L1_pageTable_entry keeps them |
| `DmmuIndices.MapSlotKind` | core/hypervisor/dmmu.h:147-147 | A second-level index of twelve bits, joined to the page address by a bitwise or, never names a word of an L1 |
| `DmmuIndices.MapL2EntryKeeps` | core/hypervisor/dmmu.c:857-909 | dmmu_l2_map_entry keeps the invariant for every index that the handler can pass, and every excess but for a writable mapping outside the validated half page, which raises that of its block by one |
| `DmmuIndices.UnmapL2EntryKeeps` | core/hypervisor/dmmu.c:914-953 | For every 32-bit index dmmu_l2_unmap_entry keeps the invariant if and only if the word named is safe to unmap: an entry of a validated half page; or plain data whose page has room in its count; or a word of an L1 that is not reserved and is a writable section or names a page with room in its count; and the excesses move by exactly the amounts given |
| `DmmuIndices.LowerHalfUnmap` | core/hypervisor/dmmu.c:914-953 | Below 512 that condition always holds, and every excess is kept |
| `DmmuIndices.ExcessSign` | core/hypervisor/dmmu.c:938-951 | Outside the second-level tables the condition says exactly that no excess becomes negative |
| `DmmuSafety.CreateL2Keeps` | core/hypervisor/dmmu.c:735-798 | dmmu_create_L2_pt keeps them although it validates and counts only the lower half page |
| `DmmuSafety.UnmapL2Keeps` | core/hypervisor/dmmu.c:803-852 | dmmu_unmap_L2_pt keeps them and on success leaves a data block |
| `DmmuInvariant.SwitchMmKeeps` | core/hypervisor/dmmu.c:959-1000 | dmmu_switch_mm keeps them, and a success means all four blocks are an L1 although only the first is looked at |
| `DmmuInvariant.GroupIsFour` | core/hypervisor/dmmu.c:993-1000 | L1 blocks come in whole aligned groups of four, so the type of the first decides |
| `DmmuEffects.SwitchMmEffect` | core/hypervisor/dmmu.c:959-1000 | dmmu_switch_mm succeeds if and only if the range is in order, the base is aligned and the four blocks are an L1; then every address is translated from its word of the table at the base, memory and counts are as before, and a failure changes nothing |
| `DmmuEffects.MapL1SectionEffect` | core/hypervisor/dmmu.c:444-516 | dmmu_map_L1_section succeeds exactly under its guards; the word then names the section of the physical address with the permission, domain, cacheability and other bits of the attributes, whatever the permission, and no other word changes |
| `DmmuEffects.SectionTranslated` | core/hypervisor/dmmu.c:444-516 | Under client domains each byte of the virtual section is then written at its place in the physical one if the permission is full and the domain open, else not at all, and every other address is translated as before |
| `DmmuEffects.MapL1PtEffect` | core/hypervisor/dmmu.c:521-576 | dmmu_l1_pt_map succeeds exactly under its guards, fails on the upper half exactly when they hold otherwise, and on success writes the one word that names the table with the domain and bits of the attributes |
| `DmmuEffects.PtTranslated` | core/hypervisor/dmmu.c:521-576 | The addresses of the section are then translated by the entries of that table, under that domain, and all others as before |
| `DmmuEffects.UnmapL1EntryEffect` | core/hypervisor/dmmu.c:581-641 | dmmu_unmap_L1_pageTable_entry succeeds exactly on an entry that is not reserved and holds something, page table or section, and clears its type alone |
| `DmmuEffects.SectionUnmapped` | core/hypervisor/dmmu.c:581-641 | No address of that section is then written to, and all others are translated as before |
| `DmmuEffects.MapL2EntryEffect` | core/hypervisor/dmmu.c:857-909 | dmmu_l2_map_entry, for every index, succeeds exactly under its guards, and then the word names the page of the physical address with all the bits of the attributes |
| `DmmuEffects.PageTranslated` | core/hypervisor/dmmu.c:857-909 | Exactly the addresses whose translation goes through that word change: under client domains they are written in that page if the permission is full and the domain open, else not at all |
| `DmmuEffects.UnmapL2EntryEffect` | core/hypervisor/dmmu.c:914-953 | dmmu_l2_unmap_entry succeeds exactly on an L2 in range and clears the type of the word if it is a small page |
| `DmmuEffects.PageUnmapped` | core/hypervisor/dmmu.c:914-953 | For every index, exactly the addresses whose translation goes through that word, in whatever table it lies, are no longer translated, unless the word points to an L2 |
| `DmmuEffects.CreateL1Effect` | core/hypervisor/dmmu.c:259-359 | dmmu_create_L1_pt succeeds exactly on four unreferenced data blocks in place whose words, the reserved ones put in, are all sound; those words are written even when it fails for a word, and nothing else is |
| `DmmuEffects.UnmapL1Effect` | core/hypervisor/dmmu.c:364-438 | dmmu_unmap_L1_pt succeeds exactly on an aligned inactive L1 in range, and leaves memory as it is |
| `DmmuEffects.CreateL2Effect` | core/hypervisor/dmmu.c:735-798 | dmmu_create_L2_pt succeeds exactly on an unreferenced data block in place whose lower half is sound, and writes no word |
| `DmmuEffects.UnmapL2Effect` | core/hypervisor/dmmu.c:803-852 | dmmu_unmap_L2_pt succeeds exactly on an aligned L2 in range whose count is zero, and writes no word |
| `DmmuEffects.TablesTranslated` | core/hypervisor/dmmu.c:259-852 | Creating or freeing a table changes the translation of no address |
| `DmmuEffects.HandlerTable` | core/hypervisor/dmmu.c:1008-1043 | Which number selects which command, and where its arguments are packed |
| `DmmuEffects.L1EntryErrors` | core/hypervisor/dmmu.c:444-641 | Each error of the commands on first-level entries names a requirement that is missed |
| `DmmuEffects.L2EntryErrors` | core/hypervisor/dmmu.c:857-953 | ... of the commands on second-level entries |
| `DmmuEffects.TableErrors` | core/hypervisor/dmmu.c:259-1000 | ... of the commands on whole tables and of the switch, before words are looked at |
| `DmmuEffects.CreateL1Errors` | core/hypervisor/dmmu.c:259-359 | An L1 refused for its words is refused with the error of one of them |
| `DmmuEffects.CreateL2Errors` | core/hypervisor/dmmu.c:735-798 | An L2 that is refused misses what the error names, or has a word with that error |
| `DmmuRuns.HandleKeeps` | core/hypervisor/dmmu.c:1008-1043 | Every command the handler can select, with any arguments, keeps the invariant if and only if it is no unmapping of an unsafe word, and each excess moves by exactly what the command adds to it |
| `DmmuRuns.StoreHitsData` | core/hypervisor/dmmu.c:152-953 | A user store through the active L1, by the processor's translation, reaches a data block |
| `DmmuRuns.StoreKeeps` | core/hypervisor/dmmu.c:152-953 | A guest store changes no word of any typed block and no type or count |
| `DmmuRuns.RunKeeps` | core/hypervisor/dmmu.c:232-1043 | Over any interleaving of harmless commands and guest stores the invariant holds, and each count exceeds the true references by its initial excess plus what the steps added |
| `DmmuRuns.RunExact` | core/hypervisor/dmmu.c:232-1043 | The invariant holds at every point of a run if and only if every step of it is harmless |
| `DmmuRuns.LowIndexRun` | core/hypervisor/dmmu.c:232-1043 | Every run whose second-level indices are below 512 is harmless, and each count exceeds the true references by its initial excess plus the number of half-page errors, never less |
| `DmmuRuns.GuestNeverWritesTables` | core/hypervisor/dmmu.c:152-1043 | At no point that a harmless run reaches does a guest store change a page table |
| `DmmuRuns.NoTableIsWritable` | core/hypervisor/dmmu.c:152-1043 | After every harmless run each block that a validated descriptor refers to has the type it needs, so no page table is mapped user-writable; reserved entries agree with the master table; L1 blocks come in whole groups of four; TTBR0 points to such a group |
| `DmmuResults.L1RoundTrip` | core/hypervisor/dmmu.c:259-440 | Creating an inactive L1, any guest stores, then freeing it restores every type and count exactly |
| `DmmuResults.L2RoundTrip` | core/hypervisor/dmmu.c:735-852 | Creating an L2, any guest stores, then freeing it restores every type and count exactly |
| `DmmuResults.RangeExact` | core/hypervisor/dmmu.c:79-91 | The range check means containment in guest memory, or a sum that wraps past the end of the address space: exactly these |
| `DmmuResults.RangeWraps` | core/hypervisor/dmmu.c:79-91 | The last page of the address space passes the check for every guest, and lies in guest memory only if that reaches so far |
| `DmmuResults.StoreConfined` | core/hypervisor/dmmu.c:79-220 | A guest store lands in guest memory if and only if it is not to the last section of the address space, where the check wraps, or guest memory reaches that far |
| `DmmuConfined.StepTame` | core/hypervisor/dmmu.c:259-909 | A step keeps every edge descriptor (a writable one for a page of the last section that guest memory does not cover) out of the tables if and only if it is none of the four accepted commands that bring one in: a section mapping, a page mapping in a validated half page, or the creation of an L1 or an L2 that holds one |
| `DmmuConfined.RunTame` | core/hypervisor/dmmu.c:259-1043 | Over a harmless run no table ever holds such a descriptor if and only if no step brings one in |
| `DmmuConfined.RunConfined` | core/hypervisor/dmmu.c:79-1043 | At every point that a harmless run without such a step reaches, a user store lands in guest memory |
| `DmmuOverflow.WrapsExactly` | core/hypervisor/dmmu.c:232-1043 | For every command with any arguments the count of a block wraps if and only if the command unmaps, outside the validated half pages, a word that reads as a writable small page of the block, while its count is zero |
| `DmmuOverflow.WrapKept` | core/hypervisor/dmmu.c:938-951 | Such a wrap leaves an excess of the highest count, and keeps the invariant unless the word is a reserved entry of an L1 |
| `DmmuOverflow.RunWraps` | core/hypervisor/dmmu.c:232-1043 | At each point of a harmless run a count wraps exactly then |
| `DmmuOverflow.LowIndexNeverWraps` | core/hypervisor/dmmu.c:232-1043 | At no point of a run with second-level indices below 512 does a count wrap |
| `DmmuResults.BootTables` | core/hypervisor/dmmu.c:68-77 | A block table of data and second-level blocks that map nothing writable is sound, whatever its counts |
| `DmmuResults.BootEstablishes` | core/hypervisor/dmmu.c:259-357 | Creating the first L1 from sound tables establishes the invariant |
| `DmmuExamples.UpperHalfExample` | core/hypervisor/dmmu.c:735-953 | A concrete run in which every command is accepted, the creation of the first L1 included: a guest stores an entry in the upper half of a page, has the page made an L2, maps the page named elsewhere and unmaps the entry; the last step breaks the invariant |
| `DmmuExamples.WrapExample` | core/hypervisor/dmmu.c:938-951 | In that run before the page is mapped, unmapping the entry keeps the invariant and takes the count of its page from zero to the highest value |
| `DmmuExamples.LongIndexExample` | core/hypervisor/dmmu.c:914-953 | From a state of that run, unmapping with a long index clears a reserved entry of the active L1 |
| `DmmuExamples.OutsideExample` | core/hypervisor/dmmu.c:79-217 | From the first L1, whose tables hold no edge descriptor, a mapping of the last section is accepted, which is one of the commands that bring such a descriptor in, and a user store through it leaves guest memory |
| `DmmuExamples.RoundTripExample` | core/hypervisor/dmmu.c:259-798 | The preconditions of both round trips are met: an L1 can be created in the first state of that run, and an L2 in the state after its first three steps |
| `DmmuMonitor.Monitor.L1SecChecker` | core/hypervisor/dmmu.c:152-217 | The loop over a section's 256 blocks returns what the check function says, the last failing test winning |
| `DmmuMonitor.Monitor.DmmuCreateL1` | core/hypervisor/dmmu.c:259-359 | The method over memory and block table in place computes exactly the command function, state and error code |
| `DmmuMonitor.Monitor.DmmuUnmapL1` | core/hypervisor/dmmu.c:364-438 | The in-place loops and updates of dmmu_unmap_L1_pt compute its command function: resulting state and error code |
| `DmmuMonitor.Monitor.DmmuMapL1Section` | core/hypervisor/dmmu.c:444-516 | The in-place loops and updates of dmmu_map_L1_section compute its command function: resulting state and error code |
| `DmmuMonitor.Monitor.DmmuMapL1Pt` | core/hypervisor/dmmu.c:521-576 | The in-place loops and updates of dmmu_l1_pt_map compute its command function: resulting state and error code, with the count raised before the half page is tested |
| `DmmuMonitor.Monitor.DmmuUnmapL1Entry` | core/hypervisor/dmmu.c:581-641 | The in-place loops and updates of dmmu_unmap_L1_pageTable_entry compute its command function: resulting state and error code |
| `DmmuMonitor.Monitor.DmmuCreateL2` | core/hypervisor/dmmu.c:735-798 | The in-place loops and updates of dmmu_create_L2_pt compute its command function: resulting state and error code |
| `DmmuMonitor.Monitor.DmmuUnmapL2` | core/hypervisor/dmmu.c:803-852 | The in-place loops and updates of dmmu_unmap_L2_pt compute its command function: resulting state and error code |
| `DmmuMonitor.Monitor.DmmuMapL2Entry` | core/hypervisor/dmmu.c:857-909 | The in-place loops and updates of dmmu_l2_map_entry compute its command function: resulting state and error code, for every index, those beyond the page included |
| `DmmuMonitor.Monitor.DmmuUnmapL2Entry` | core/hypervisor/dmmu.c:914-953 | The in-place loops and updates of dmmu_l2_unmap_entry compute its command function: resulting state and error code |
| `DmmuMonitor.Monitor.DmmuSwitchMm` | core/hypervisor/dmmu.c:959-1000 | The in-place loops and updates of dmmu_switch_mm compute its command function: resulting state and error code |
| `DmmuMonitor.Monitor.DmmuHandler` | core/hypervisor/dmmu.c:1008-1043 | The dispatch computes the handler function |
| `DmmuMonitor.Monitor.Hypercall` | core/hypervisor/dmmu.c:1008-1043 | A hypercall keeps the safety invariant of the object if and only if it is harmless |
| `DmmuNewPgd.TableInPlace` | core/hypervisor/hypercalls/hyp_dmmu.c:120-139 | Unmapping the section and mapping the empty table in its place both succeed, and change that one descriptor and the counts concerned |
| `DmmuNewPgd.NextPage` | core/hypervisor/hypercalls/hyp_dmmu.c:152-162 | Each of the 256 page mappings passes every check of dmmu_l2_map_entry and writes its own entry only |
| `DmmuNewPgd.SplitSection` | core/hypervisor/hypercalls/hyp_dmmu.c:120-169 | The whole section split: no call fails, the invariant is kept, and the state afterwards is given word by word and count by count |
| `DmmuNewPgd.SectionSplit` | core/hypervisor/hypercalls/hyp_dmmu.c:120-169 | Under client domains every byte of the section is stored to at the same physical address as before, except in exactly the four pages of the directory, which are no longer writable |
| `DmmuNewPgd.ElsewhereKept` | core/hypervisor/hypercalls/hyp_dmmu.c:120-169 | Outside the section no translation changes when no other entry points to the table filled |
| `DmmuExamples.SplittableExample` | core/hypervisor/hypercalls/hyp_dmmu.c:120-169 | After the example run one accepted dmmu_map_L1_section reaches a state in which a section can be split |
| `AesField.GfMulxByte` | guests/trusted/src/aes/aesopt.h:588-588 | gf_mulx doubles each of the four bytes in GF(2^8), with no carry between them |
| `AesField.FwdMcolXor` | guests/trusted/src/aes/aesopt.h:718-718 | fwd_mcol is linear over xor |
| `AesField.InvMcolXor` | guests/trusted/src/aes/aesopt.h:727-728 | inv_mcol is linear over xor |
| `AesField.McolInverse` | guests/trusted/src/aes/aesopt.h:718-728 | inv_mcol and fwd_mcol undo each other on every word |
| `AesField.FwdMcolByte` | guests/trusted/src/aes/aesopt.h:588-718 | fwd_mcol of a single byte is the column {02},{01},{01},{03} times it in GF(2^8) |
| `AesField.InvMcolByte` | guests/trusted/src/aes/aesopt.h:588-728 | inv_mcol of a single byte is the column {0e},{09},{0d},{0b} times it |
| `AesCipher.DecryptUndoesEncrypt` | guests/trusted/src/aes/aescrypt.c:98-296 | The equivalent inverse cipher undoes the cipher for every bijective S-box, every number of rounds and every schedule that is the reversed one, inner keys column-mixed (FIPS 197 section 5.3.5) |
| `AesCipher.EncTablesAre` | guests/trusted/src/aes/aescrypt.c:74-96 | A column of four_tables lookups is SubBytes, ShiftRows and MixColumns of the state (FIPS 197 section 5.1) |
| `AesCipher.DecTablesAre` | guests/trusted/src/aes/aescrypt.c:191-214 | A column of inverse-table lookups is InvSubBytes, InvShiftRows and InvMixColumns |
| `AesCipher.LastTablesAre` | guests/trusted/src/aes/aescrypt.c:89-96 | A column of last-round lookups is SubBytes and ShiftRows without the column mix |
| `AesStandard.DoubleIs` | guests/trusted/src/aes/aesopt.h:588-588 | Doubling a byte is multiplication by x modulo x^8 + x^4 + x^3 + x + 1 (FIPS 197 section 4.2) |
| `AesStandard.TimesFactors` | guests/trusted/src/aes/aesopt.h:588-728 | The factors of the column macros are {02} and {03}, and {09}, {0b}, {0d} and {0e}, in that field |
| `AesStandard.BlockOfBytes` | guests/trusted/src/aes/aesopt.h:567-568 | Byte 4c + r of a block is in row r of column c (section 3.4) |
| `AesStandard.ShiftRowsBytes` | guests/trusted/src/aes/aescrypt.c:74-78 | Row r of column c comes from column c + r, in the inverse from column c - r (sections 5.1.2 and 5.3.1) |
| `AesStandard.FwdMcolBytes` | guests/trusted/src/aes/aesopt.h:718-718 | fwd_mcol, byte by byte, is the matrix of section 5.1.3 |
| `AesStandard.InvMcolBytes` | guests/trusted/src/aes/aesopt.h:727-728 | inv_mcol, byte by byte, is the matrix of section 5.3.3 |
| `AesStandard.EncRoundBytes` | guests/trusted/src/aes/aescrypt.c:74-96 | A round, byte by byte: the key byte and the {02}, {03}, {01}, {01} sum of the substituted bytes that the row shift brings |
| `AesStandard.DecRoundBytes` | guests/trusted/src/aes/aescrypt.c:191-214 | A round of the equivalent inverse cipher, byte by byte, with {0e}, {0b}, {0d}, {09} |
| `AesStandard.LastRoundBytes` | guests/trusted/src/aes/aescrypt.c:89-96 | The last rounds, byte by byte, without the sum |
| `AesStandard.CipherFollows` | guests/trusted/src/aes/aescrypt.c:98-137 | Any states that follow the pseudo code of section 5.1 byte by byte, under the round keys in turn, end in what the cipher returns |
| `AesStandard.RoundKeyBytes` | guests/trusted/src/aes/aescrypt.c:98-137 | Round key i is words 4i to 4i + 3 of the schedule |
| `AesStandard.RoundConstants` | guests/trusted/src/aes/aestab.c:137-139 | The round constants are 01, 02, 04, 08, 10, 20, 40, 80, 1b and 36, each the double of the one before |
| `AesStandard.KeyWordBytes` | guests/trusted/src/aes/aeskey.c:75-213 | The expanded key obeys the recurrence of section 5.2, byte by byte |
| `AesRounds.AesEncrypt` | guests/trusted/src/aes/aescrypt.c:98-137 | Fully unrolled, aes_encrypt over its alternating state arrays and advancing key pointer writes the FIPS 197 cipher of its input, and fails exactly on an unknown round count |
| `AesRounds.AesEncryptPairs` | guests/trusted/src/aes/aescrypt.c:138-165 | So does the loop that takes two rounds a turn |
| `AesRounds.AesEncryptSingles` | guests/trusted/src/aes/aescrypt.c:149-165 | So does the loop that takes one round a turn and copies the state back |
| `AesRounds.AesDecrypt` | guests/trusted/src/aes/aescrypt.c:230-265 | Fully unrolled, aes_decrypt writes the equivalent inverse cipher of its input, and fails exactly on an unknown round count |
| `AesRounds.AesDecryptPairs` | guests/trusted/src/aes/aescrypt.c:268-296 | So does the loop that takes two rounds a turn |
| `AesRounds.AesDecryptSingles` | guests/trusted/src/aes/aescrypt.c:279-296 | So does the loop that takes one round a turn and copies the state back |
| `AesKeys.EncryptKey128` | guests/trusted/src/aes/aeskey.c:75-112 | The 128-bit schedule, unrolled or looped over ke4, fills the key expansion of FIPS 197 section 5.2 |
| `AesKeys.EncryptKey192` | guests/trusted/src/aes/aeskey.c:117-161 | The 192-bit schedule fills the key expansion |
| `AesKeys.EncryptKey256` | guests/trusted/src/aes/aeskey.c:166-213 | The 256-bit schedule fills the key expansion |
| `AesDecKeys.DecryptKey128` | guests/trusted/src/aes/aeskey.c:264-353 | The unrolled 128-bit decryption schedule with its rotating xor sums stores each expanded word in its reversed place, inner rounds column-mixed |
| `AesDecKeys.LoopDecryptKey128` | guests/trusted/src/aes/aeskey.c:255-353 | The loop form, which expands and then applies inv_mcol to rounds 1 to 9, stores the same |
| `AesDecKeys.DecryptKey192` | guests/trusted/src/aes/aeskey.c:359-437 | So does the unrolled 192-bit schedule |
| `AesDecKeys.DecryptKey256` | guests/trusted/src/aes/aeskey.c:443-532 | So does the unrolled 256-bit schedule |
| `AesDecKeys.StoredUnique` | guests/trusted/src/aes/aeskey.c:264-353 | Two arrays so filled are the same array: unrolled and loop forms agree word by word |
| `AesDecKeys.SchedulesReverse` | guests/trusted/src/aes/aeskey.c:233-553 | The decryption schedule is the encryption schedule reversed with inner round keys column-mixed |
| `AesDecKeys.AesDecryptsWhatItEncrypts` | guests/trusted/src/aes/aescrypt.c:98-296 | For every key of 128, 192 or 256 bits and every block, decryption under the one schedule undoes encryption under the other, byte for byte |
| `AesCbc.UnchainChain` | guests/trusted/src/aescbc.c:258-417 | Unchaining undoes chaining for every length of a block or more, the stolen last block included |
| `AesCbc.DecryptedEncrypted` | guests/trusted/src/aescbc.c:201-417 | Decryption recovers the message for every length from 0 on, every IV and every invertible block function |
| `AesCbc.EncFile` | guests/trusted/src/aescbc.c:201-310 | encfile through its three rotating buffers writes the IV and that ciphertext |
| `AesCbc.DecFile` | guests/trusted/src/aescbc.c:313-417 | decfile through its rotating buffers writes that plaintext |
| `AesCbcLaws.StolenLayout` | guests/trusted/src/aescbc.c:258-308 | With a partial last block: CBC up to the last whole block, whose encryption gives its first bytes to the end of the file and the rest to the block encrypted in its place with the partial one xored in |
| `AesCbcLaws.EncryptedLayout` | guests/trusted/src/aescbc.c:201-310 | The file starts with the IV |
| `AesCbcLaws.ShortLayout` | guests/trusted/src/aescbc.c:215-256 | A message of less than a block is xored with the start of the IV and encrypted behind the rest of it |
| `AesCbc.AesMessageRecovered` | guests/trusted/src/aescbc.c:201-417 | With AES under the schedules of aeskey.c the block function is invertible and so every message is recovered |
| `AesCbcMode.CbcEncrypt` | guests/trusted/src/aes/aes_modes.c:260-352 | aes_cbc_encrypt writes CBC (SP 800-38A section 6.2) and leaves the last ciphertext block as IV; it fails exactly on a partial block or without a key |
| `AesCbcMode.CbcDecrypt` | guests/trusted/src/aes/aes_modes.c:357-454 | aes_cbc_decrypt writes the inverse and leaves the same IV |
| `AesCbcMode.UncbcCbc` | guests/trusted/src/aes/aes_modes.c:260-454 | Decryption undoes encryption |
| `AesCbcLaws.CbcBlocks` | guests/trusted/src/aes/aes_modes.c:260-352 | Each block of CBC is the encryption of the message xored with the ciphertext block before, the IV at first (SP 800-38A section 6.2) |
| `AesCbcLaws.UncbcBlocks` | guests/trusted/src/aes/aes_modes.c:357-454 | Each block recovered is the decryption xored with the ciphertext block before |
| `AesCbcMode.CbcChunks` | guests/trusted/src/aes/aes_modes.c:260-352 | A message in two calls gives what it gives in one |
| `AesCbcMode.ChainIsCbc` | guests/trusted/src/aescbc.c:258-308 | On whole blocks the chain of encfile is CBC |
| `AesModes.Crypt` | guests/trusted/src/aes/aes_modes.c:456-843 | aes_cfb_encrypt, aes_cfb_decrypt and aes_ofb_crypt, with their partial, whole and last blocks, from any saved position that a mode can leave (16 counts as 0), compute what a machine taking one byte at a time computes, output, IV and saved position; the failure condition is exact |
| `AesModeLaws.CfbEncryptBlocks` | guests/trusted/src/aes/aes_modes.c:456-580 | CFB: each block of ciphertext, the last partial one too, is the message xored with the encryption of the ciphertext block before, the IV at first, and the last block is left as IV (SP 800-38A section 6.3) |
| `AesModeLaws.CfbDecryptBlocks` | guests/trusted/src/aes/aes_modes.c:581-721 | CFB decryption: each block of the message is the ciphertext xored with the encryption of the ciphertext block before |
| `AesModeLaws.OfbBlocks` | guests/trusted/src/aes/aes_modes.c:722-845 | OFB: the key stream is the IV encrypted again and again, whatever the message (section 6.4) |
| `AesModeLaws.OneBlock` | guests/trusted/src/aes/aes_modes.c:456-845 | From any block boundary, up to a block of output depends on the chaining block there and the message alone |
| `AesModeLaws.CtrBlocks` | guests/trusted/src/aes/aes_modes.c:849-941 | CTR: each block is xored with the encryption of its counter, the counters being increased one by one (section 6.5) |
| `AesModes.Chunks` | guests/trusted/src/aes/aes_modes.c:456-843 | CFB and OFB: a message in two chunks gives the output and state of one call |
| `AesModes.Undone` | guests/trusted/src/aes/aes_modes.c:456-843 | CFB and OFB: from the same state decryption undoes encryption and ends in the same state |
| `AesModes.CtrCrypt` | guests/trusted/src/aes/aes_modes.c:849-941 | aes_ctr_crypt, through its eight-block buffer, xors the message with the key stream from the saved position on and leaves the state after it |
| `AesModes.SixteenIsZero` | guests/trusted/src/aes/aes_modes.c:861-877 | A saved position of 16 means what position 0 with an incremented counter means, for every message that follows |
| `AesModes.CtrChunks` | guests/trusted/src/aes/aes_modes.c:849-941 | CTR: a message in two chunks gives the output and state of one call |
| `AesModes.CtrUndone` | guests/trusted/src/aes/aes_modes.c:849-941 | CTR: decryption is encryption |
| `Dyadic.Nested` | library/mem/src/buddy.c:326-352 | Aligned power-of-two runs that meet are nested |
| `Dyadic.BuddyIs` | library/mem/src/buddy.c:340-352 | index ^ (1 << i) is the other half of the run of the next order |
| `BuddyLists.LinkedPush` | library/mem/src/buddy.c:63-80 | The three writes of buddy_add_free put the block in front of its doubly linked list and leave every other list whole |
| `BuddyLists.LinkedRemove` | library/mem/src/buddy.c:82-108 | The writes of buddy_remove_free, in each of the four cases of links to oneself, take one block out of its list and leave every other list whole |
| `BuddyBlocks.TakeBlock` | library/mem/src/buddy.c:82-108 | Taking a maximal free run away leaves exactly the other maximal free runs |
| `BuddyBlocks.GiveBlock` | library/mem/src/buddy.c:354-362 | Freeing a run whose buddy is no free block adds exactly that run to the maximal free runs |
| `BuddySteps.BuddyTest` | library/mem/src/buddy.c:340-348 | The test on the tag at the buddy's place holds if and only if a free block of that order starts there: stale tags inside blocks are never taken for block heads |
| `Buddy.Area.AddFree` | library/mem/src/buddy.c:63-80 | buddy_add_free puts the block at the head of the list of its order |
| `Buddy.Area.RemoveFree` | library/mem/src/buddy.c:82-108 | buddy_remove_free takes it out, wherever it stands |
| `Buddy.Area.FreeBlock` | library/mem/src/buddy.c:336-358 | The merge loop frees exactly the pages of the block and restores the lists of maximal free runs |
| `Buddy.Area.Free` | library/mem/src/buddy.c:326-366 | buddy_free succeeds exactly on the first page of a live block, frees its pages and no others, and changes nothing otherwise |
| `Buddy.Area.AllocateSubset` | library/mem/src/buddy.c:113-147 | Splitting a free block page by page makes exactly the requested run live and returns the rest merged |
| `Buddy.Area.Alloc` | library/mem/src/buddy.c:248-276 | buddy_alloc fails exactly when no aligned run of 2^order free pages exists, and otherwise takes one from the shortest free block that will do; the address is a multiple of the block's size from the base, and the block lies in the area |
| `Buddy.Area.AllocAt` | library/mem/src/buddy.c:282-323 | buddy_alloc_at succeeds exactly when the address is aligned and all pages of the run are free and in range |
| `Buddy.Area.ContainsOrder` | library/mem/src/buddy.c:161-177 | buddy_contains_order says whether a free block of the order, or a run of that length, exists |
| `Buddy.Area.GetOrderFromSize` | library/mem/src/buddy.c:151-158 | The order returned is the least that holds the size |
| `Buddy.Area.BelongsTo` | library/mem/src/buddy.c:179-183 | buddy_belongs_to, in wrapping arithmetic, says whether the address lies in a page of the area |
| `Buddy.Area.Init` | library/mem/src/buddy.c:187-236 | buddy_init accepts exactly the sane arguments, and frees exactly the pages within the bounds given |
| `BuddyResults.EveryPageOnce` | library/mem/src/buddy.c:63-147 | Every page lies in exactly one free block or exactly one live block |
| `BuddyResults.BuddiesMerged` | library/mem/src/buddy.c:338-358 | Two buddies are never both free blocks |
| `BuddyResults.NoHistory` | library/mem/src/buddy.c:63-366 | The free blocks depend on which pages are free and not on the history of calls |
| `BuddyResults.AllocatedThenFreed` | library/mem/src/buddy.c:248-366 | Freeing what was just allocated restores the owners of all pages |
| `BuddyResults.WholeAreaFree` | library/mem/src/buddy.c:187-366 | An area of 2^k pages has no live block if and only if it is one free block of the top order, and then no other list holds anything |
| `BuddyResults.NextPacks` | library/mem/src/buddy.c:6-18 | Indices below 2^27 and the free flag come back out of the packed word, and relinking keeps the flag |
| `BuddyResults.PrevPacks` | library/mem/src/buddy.c:6-18 | So do orders below 32 |
| `HeapLayout.LaidJoined` | library/mem/src/heap.c:25-47 | The marker writes of joining leave one chain of markers over the same memory |
| `HeapLayout.LaidCut` | library/mem/src/heap.c:49-67 | So do those of splitting |
| `HeapLayout.TakenLive` | library/mem/src/heap.c:88-121 | Allocating adds exactly one live block and moves none |
| `HeapLayout.FreedLive` | library/mem/src/heap.c:123-162 | Freeing takes exactly one live block away and moves none |
| `HeapLayout.FreedNeighbours` | library/mem/src/heap.c:151-160 | After a free no two neighbours are both free |
| `HeapLayout.PayloadsApart` | library/mem/src/heap.c:88-162 | Live payloads do not overlap |
| `HeapLayout.AnyRun` | library/mem/src/heap.c:88-162 | Over any run of allocations and frees the cells cover the same memory, no two neighbours are both free, and once nothing is live the single initial block is back |
| `Heap.Area.Neighbours` | library/mem/src/heap.c:12-23 | The next and previous markers computed from a marker's sizes are those of the neighbouring cells, null at the ends |
| `Heap.Area.Join` | library/mem/src/heap.c:25-47 | heap_marker_join joins exactly two adjacent free cells and otherwise does nothing |
| `Heap.Area.Split` | library/mem/src/heap.c:49-67 | heap_marker_split cuts a cell exactly when what is left holds a marker and more |
| `Heap.Area.Alloc` | library/mem/src/heap.c:88-121 | heap_alloc returns null exactly when the size is not positive or no free block fits, and otherwise takes the first of the smallest that fit; the block is live and holds the bytes asked for |
| `Heap.Area.Free` | library/mem/src/heap.c:123-162 | heap_free refuses exactly a pointer outside the range it checks and a block that is free already, and otherwise frees the block and joins it with its free neighbours |
| `Heap.Area.Store` | library/mem/src/heap.c:88-162 | Whatever the owner writes in a live payload, the chain stands |
| `Mreg.Level1Free` | library/mem/src/mreg.c:208-230 | mreg_level1_free covers the freed region and keeps free regions apart and not adjacent |
| `MregRegions.InOneRegion` | library/mem/src/mreg.c:208-230 | As free regions are never adjacent, any run of free bytes lies in one of them |
| `Mreg.Level1Allocate` | library/mem/src/mreg.c:120-148 | mreg_level1_allocate fails exactly when no free region is large enough, and cuts the request from the smallest that is |
| `Mreg.Level1AllocateAt` | library/mem/src/mreg.c:150-184 | mreg_level1_allocate_at succeeds exactly when the address is aligned and one free region holds the range, and takes exactly that range |
| `Mreg.Partition` | library/mem/src/mreg.c:107-322 | Free regions, live regions and buddy regions partition the memory held, each byte in one of one kind |
| `Mreg.ContainsMeans` | library/mem/src/mreg.c:295-311 | buddy_contains_order of a whole megabyte is true if and only if the region is a megabyte with no live block |
| `Mreg.Manager.Level2Allocate` | library/mem/src/mreg.c:234-260 | mreg_level2_allocate takes a run of the right order from one buddy and touches no other; it finds none when none has one, and frees the run again when no record can be had |
| `Mreg.Manager.Level2AllocateAt` | library/mem/src/mreg.c:262-286 | mreg_level2_allocate_at takes the run at the address from the one buddy that has it; it finds none when none has, and frees the run again when no record can be had |
| `Mreg.Manager.Level2Free` | library/mem/src/mreg.c:288-292 | mreg_level2_free gives exactly that block back |
| `Mreg.Manager.Level2Shrink` | library/mem/src/mreg.c:295-311 | After mreg_level2_shrink every megabyte left to the buddies has a live block, only regions without one were taken back, and the same bytes are available as before |
| `Mreg.Manager.Level2Expand` | library/mem/src/mreg.c:313-322 | mreg_level2_expand turns at most one free megabyte into an empty buddy region |
| `Mreg.Manager.Alloc` | library/mem/src/mreg.c:417-442 | mreg_alloc of a megabyte or more fails exactly when no such run exists; below that, exactly when no record can be had, or no buddy region has a block of the least order that holds the size and none can be made. What is handed out holds the size asked for, and is the least number of megabytes, or the least order, that does. What callers had, blocks and whole regions, stays theirs and does not overlap what is handed out, which was available before; regions that the buddies give up had no live block, and the others keep their pages and live blocks |
| `Mreg.Manager.AllocMegs` | library/mem/src/mreg.c:424-431 | A request of whole megabytes fails if and only if no run of that length lies in the free regions and the idle megabytes of the buddies together; otherwise a region of exactly that size is handed out |
| `Mreg.Manager.AllocAt` | library/mem/src/mreg.c:444-482 | mreg_alloc_at fails if and only if, on entry, the pages do not lie in one megabyte, or no record can be had, or no buddy region has the aligned block there and the megabyte is not free, cannot be managed or does not have the block aligned in it; otherwise it hands out the block at the page of the address, apart from all that callers had, which stays theirs, and the bytes asked for lie in it |
| `Mreg.NearIs` | library/mem/src/mreg.c:449-458 | The pages lie within one megabyte if and only if the bytes asked for do |
| `Mreg.SizeAtIs` | library/mem/src/mreg.c:449-458 | The pages counted are those from the page of the first byte to the page of the last |
| `Mreg.Manager.Free` | library/mem/src/mreg.c:485-495 | mreg_free of what a caller has gives back exactly that region or block, and callers keep all the rest |
| `Mreg.Manager.OwnedApart` | library/mem/src/mreg.c:120-292 | No two things that callers have overlap, whichever level they came from |
| `Mreg.Manager.RequestAll` | library/mem/src/mreg.c:417-482 | Over any number of mreg_alloc and mreg_alloc_at calls, each with or without memory for allocators and records, everything handed out is still there at the end, new, and apart from the rest and from all that callers had before |
| `Mreg.Manager.ReleaseAll` | library/mem/src/mreg.c:485-495 | What callers have can be given back in any order, and nothing else goes |
| `MregBlocks.GivenChildren` | library/mem/src/mreg.c:234-286 | Marking a free run live adds exactly that block to the live blocks of all buddy regions |
| `MregBlocks.FreedChildren` | library/mem/src/mreg.c:288-292 | Freeing one takes exactly that block away |
| `Mreg.Manager.RegionAttach` | library/mem/src/mreg.c:347-415 | mreg_region_attach makes available exactly the whole megabytes and, when there is memory for their allocators, the whole pages on either side; callers keep what they had |
| `Mreg.MegsWrap` | library/mem/src/mreg.c:364-366 | The unsigned length of the whole megabytes fits in the region if and only if its pages reach a boundary between megabytes; otherwise it is a megabyte less than the address space |
| `Slab.Cache.Init` | library/util/src/slab.c:7-23 | slab_init over pool_init: every object is in the pool, none constructed |
| `Slab.Cache.Alloc` | library/util/src/slab.c:38-52 | slab_alloc fails exactly when all objects are out; an object is constructed exactly when it is handed out for the first time, before that |
| `Slab.Cache.Free` | library/util/src/slab.c:54-57 | slab_free returns the object and constructs or destroys nothing |
| `Slab.Cache.Cleanup` | library/util/src/slab.c:25-36 | slab_cleanup destroys the objects ever handed out, each once, in the reverse of that order, and no others |
| `Slab.Cache.NeverAtBottom` | library/util/src/slab.c:38-52 | An object that is out lies above the watermark |
| `Slab.DestroyedOnce` | library/util/src/slab.c:25-36 | Reversing a list of distinct objects keeps them distinct and the same, so each constructed object is destroyed exactly once |
| `Slab.AboveBottom` | library/util/src/pool.c:54-60 | What is popped above the watermark was handed out before |

## Left out

- Cache, TLB, barrier and coprocessor operations of the monitor: TTBR0 is a field and memory is coherent.
- The linear window through which the monitor reads guest tables: memory is indexed by physical address.
- dmmu_unmap_L1_pt reads `ph_block` (dmmu.c:386) before it assigns it (dmmu.c:399); the model takes it as computed from the base, as dmmu.c:288 does.
- DmmuIndices.MapL2EntryKeeps: is for indices below 4096; dmmu_handler passes on twelve bits (dmmu.c:1033), and hypercall_dyn_new_pgd passes less than 1024.
- DmmuRuns.RunKeeps: starts from any state that satisfies the invariant; core/hypervisor/init.c is not part of this model beyond `DmmuResults.BootTables` and `BootEstablishes`.
- DmmuRuns.StoreKeeps: guest modes have client domains only; a manager domain would bypass permission bits.
- The other branch of hypercall_dyn_new_pgd, and the PMD, PTE and PGD hypercalls, which print errors and go on.
- DmmuNewPgd.SplitSection: takes linux_pt_get_empty_l2 to return a zeroed, pinned table in the lower half of a page, and the counts of the section's pages to be below the overflow guard.
- The AES S-box is an abstract bijection and the tables are defined from it by FIPS 197; table data, VIA ACE paths, the assembler variants and the other selections of aesopt.h are left out.
- Random IVs and keys, RSA and the string handling around encfile and decfile.
- AesCbc.DecFile: the ciphertext is a sequence of exactly the message's length and a block; the buffer `buf` is the fourth slot of the working array.
- AesModes.Crypt: one method for the three functions, which differ in the byte they keep; word-at-a-time copies are bytes; the message is a value, so a call whose input and output buffers are the same is not modelled.
- AesModes.CtrCrypt: the message is a value here too, apart from the output buffer.
- AesCbcMode.CbcEncrypt: the message is a value, apart from the output buffer.
- AesCbcMode.CbcDecrypt: the ciphertext is a value, apart from the output buffer.
- Buddy tags are records of the fields that the two words pack, which is exact below 2^27 pages (`BuddyResults.NextPacks`, `PrevPacks`); the array of 27 list heads bounds an area to 2^26 pages.
- Buddy.Area.Free: the address is outside the area or in the first page of a live or of a free block; what a free of an inner page does is not stated.
- Buddy.Area.AllocAt: the shift by order plus page bits stays below 32, beyond which C leaves it undefined.
- buddy_dump, memregion_dump, mreg_dump and the cleanup calls that only release memory.
- Heap.Area.Free: takes the payload of a cell, or a pointer that the range check refuses; pointers to the middle of a cell, and those past the heap that the check lets through because it adds the size in bytes to a pointer to eight-byte markers (heap.c:128), are not modelled.
- Heap sizes stay below 2^31, so that rounding up does not overflow a C int.
- Region records of mreg are values in sequences: the list links, and the memory of the records themselves, are not modelled.
- Mreg.Level1AllocateAt: a record for what is split off can be had; without one mreg_level1_split returns null, which mreg.c:178 then dereferences.
- Mreg.Manager.Level2Expand: a record for what is split off can be had; without one the whole free region becomes the buddy region.
- Mreg.Manager.AllocMegs: a record for what is split off can be had; without one the request gets the whole free region (`Mreg.Level1Allocate` has that branch).
- Mreg.Manager.Alloc: addresses and sizes do not wrap in 32 bits.
- Mreg.Manager.AllocAt: addresses and sizes do not wrap in 32 bits.
- Mreg.Manager.RegionAttach: the region attached reaches a megabyte boundary, without which the unsigned difference at mreg.c:365 wraps (`Mreg.MegsWrap`), and is new to the manager; a record for its whole megabytes can be had.
- The statistics fields `start` and `end` of mreg.
- Raw memory layout inside pool_init; objects are their indices.
- Slab.Cache.Free: the object is out; the guard of pool_free against a full pool then never applies.
- RPC, interrupt and mode switching, boards and drivers, the simulator, bitset.c, olist.c, string.c, util.c and list.c.
