# Syslinux module loader, runtime, allocator release and boot prompt

This project models the core of Syslinux's COM32 module system and its command-line front end:

- **Block release in the core allocator** (`core/mem/free.c`). Each heap is an address-ordered chain of arena headers with a free list. `__free_block` returns a block and coalesces it with FREE neighbours that touch it. `free` hands a user pointer to it. `__inject_free_block` splices a new block into a chain unless it overlaps one, then frees it. `__free_tagged` is meant to release every live block that carries a tag; as written it releases nothing (see Findings).
- **The ELF module loader** (`com32/lib/sys/module/elf_module.c`). `module_load` does these steps in order:
  - refuses a duplicate name;
  - reads and checks the ELF header;
  - scans the program header table, allocates an aligned block, zeroes it and copies the PT_LOAD segments into it;
  - walks the dynamic section for the linking tables;
  - looks up the init, exit and main pointers;
  - registers the module;
  - applies the standard and PLT relocations (R_386_NONE, 32, PC32, COPY, GLOB_DAT, JMP_SLOT, RELATIVE).
- **The runtime** (`com32/lib/sys/module/exec.c`). `load_library`, `unload_library`, `spawnv` and `spawn_load` load a module and run it as a library (through its init function) or as a process. A process gets its own allocation tag, a copy of argv and an exit channel. As written, the copy carries NULL in place of the first argument and an unset last slot (see Findings). After the process ends, the runtime releases the process's allocations through `__free_tagged` and restores the previous context.
- **The boot prompt** (`core/elflink/cli.c`). `edit_cmdline` edits a NUL-terminated line in a fixed buffer key by key, with a history you can move through. `process_command` splits a command with strtok and dispatches on the suffix of its first word.

Memory is a map from 32-bit addresses to bytes. 32-bit arithmetic wraps explicitly (`ElfFormat.Add32`, `Sub32`, `Mul32`).

Code outside the core appears as small methods whose contracts are all the core relies on. This covers `image_*`, `elf_malloc`/`elf_free`, the symbol lookups, `check_header_common`, `check_symbols`, `module_alloc`, `module_unload` and the module's own init, exit and main functions. The runtime records its calls into such code in a ghost trace, so the order of the calls can be stated.

A call that never returns is the `Stuck` result of `ElfLoader.Run`. This happens with a dynamic table without DT_NULL, or with a non-empty DT_RELSZ and a zero DT_RELENT.

Files:

| file | module | models |
|---|---|---|
| wrappers.dfy | Wrappers | Option |
| arena.dfy | Arena | free.c: chains, free lists, `__free_block`, `free`, `__inject_free_block`, `__free_tagged` |
| elf_format.dfy | ElfFormat | 32-bit words, little-endian decoding, the byte memory, Elf32 records |
| elf_layout.dfy | ElfLayout | `check_header`; the PHT scan, alignment and segment copy of `load_segments` |
| elf_dynamic.dfy | ElfDynamic | the dynamic-section walk, relocation arithmetic and relocation runs |
| elf_loader.dfy | ElfLoader | the module record, the registry and the loader's methods |
| exec.dfy | Exec | argv copy, exit status, `load_library`, `unload_library`, `spawnv`, `spawn_load` |
| cli_edit.dfy | CliEdit | `edit_cmdline` |
| cli_command.dfy | CliCommand | strtok over COMMAND_DELIM and `process_command` |

## Model

| member | source | states |
|---|---|---|
| Arena.ReleaseShape | core/mem/free.c:20-66 | the block that now contains the freed block is FREE, sits at the freed block's place or just before it, covers it, and every block before it is untouched |
| Arena.ReleaseConservesBytes | core/mem/free.c:22-63 | coalescing neither creates nor loses bytes: the chain covers the same total |
| Arena.ReleaseKeepsOtherLive | core/mem/free.c:20-66 | the live blocks after the release are exactly the live blocks other than the freed one |
| Arena.ReleaseKeepsHeapOk | core/mem/free.c:20-66 | the chain stays ordered, non-empty and on its heap, and the free list links exactly the FREE blocks, each once |
| Arena.FirstStepHeapOk | core/mem/free.c:22-45 | merging into a touching FREE predecessor, or marking the block FREE and pushing it on the free list, keeps the chain and free-list invariants |
| Arena.NextStepHeapOk | core/mem/free.c:49-63 | absorbing a touching FREE successor and unlinking it from the free list keeps the chain and free-list invariants |
| Arena.ReleaseKeepsCoalesced | core/mem/free.c:22-63 | if no two FREE blocks touched before, none touch after (both merges are taken) |
| Arena.AbsorbIntoPrevMeasures | core/mem/free.c:22-35 | the merge into a touching FREE predecessor keeps the bytes and drops only the freed block from the live blocks |
| Arena.MarkFreeMeasures | core/mem/free.c:36-45 | marking the block FREE keeps the bytes and adds exactly its address to the FREE addresses |
| Arena.AbsorbNextMeasures | core/mem/free.c:49-63 | the merge with a touching FREE successor keeps the bytes and leaves the live blocks unchanged |
| Arena.AbsorbNextFree | core/mem/free.c:49-63 | the merge removes exactly the successor's address from the FREE addresses |
| Arena.SweepStep | core/mem/free.c:139-143 | releasing a tagged block leaves no tagged block up to the cursor returned by __free_block, and keeps the other live blocks and the bytes |
| Arena.ReleaseOn | core/mem/free.c:11-67 | the step-by-step release computes the specification Release |
| Arena.FindSlot | core/mem/free.c:98-118 | for a new block and chain that end below 2^32, the scan reports an overlap exactly when the new block overlaps a block of the chain; otherwise it yields the first block at or after the new block's end |
| Arena.FirstAtOrAfter | core/mem/free.c:105-110 | the successor slot is the first block, from index k on, that starts at or after the given end: every block before it starts below the end |
| Arena.SpliceFacts | core/mem/free.c:120-124 | linking a non-overlapping block before its successor keeps the chain ordered and the free list right, and adds exactly its bytes |
| Arena.SweepUpdate | core/mem/free.c:136-144 | sweeping heap i extends the swept heaps by one and keeps the other heaps and the untagged live blocks |
| Arena.UpdateHeap | core/mem/free.c:136-144 | replacing one heap by a well-formed one keeps all heaps well formed and coalesced |
| Arena.TaggedBlockSurvives | core/mem/free.c:139 | a well-formed heap holding a live block tagged 7, which __free_tagged as written leaves in place |
| Arena.Heaps.constructor | core/mem/free.c:15-16 | heaps with empty chains and free lists, well formed and coalesced |
| Arena.Heaps.FreeBlock | core/mem/free.c:11-67 | __free_block changes only the block's heap, as Release says, and keeps every invariant |
| Arena.Heaps.Free | core/mem/free.c:69-86 | free(NULL) changes nothing; free(p) is __free_block on p's block |
| Arena.Heaps.InjectFreeBlock | core/mem/free.c:93-127 | for a block of non-zero size that ends below 2^32: an overlapping block is rejected with nothing changed; otherwise it is linked before its successor and released, and the heap grows by its size |
| Arena.Heaps.LinkBefore | core/mem/free.c:120-124 | the chain gains exactly the new block at the successor's place, with the free list unchanged |
| Arena.Heaps.SweepFrom | core/mem/free.c:139-143 | one heap's sweep: from the head, nothing changes; from the first block, no tagged live block is left, the others stay and the bytes are kept |
| Arena.Heaps.Visit | core/mem/free.c:140-142 | one iteration keeps the heap's bytes and its untagged live blocks, leaves no tagged live block up to the new cursor, and moves strictly forward |
| Arena.Heaps.FreeTaggedAsWritten | core/mem/free.c:132-147 | as written, the inner loop starts at the head and stops there, so no heap changes |
| Arena.Heaps.FreeTagged | core/mem/free.c:129-147 | every heap ends with no live block tagged t; the other live blocks and every heap's bytes are kept; coalescing is preserved |
| ElfLayout.CheckHeader | com32/lib/sys/module/elf_module.c:21-40 | a failure from the common check is passed through; otherwise success exactly when the type is the module type and the PHT offset is non-zero, else -1 |
| ElfFormat.RInfoRoundTrip | com32/lib/sys/module/elf_module.c:231-232 | ELF32_R_SYM and ELF32_R_TYPE recover the symbol index and the type packed in r_info |
| ElfFormat.WriteThenRead | com32/lib/sys/module/elf_module.c:137-152 | bytes copied into memory read back unchanged |
| ElfFormat.LoadStore | com32/lib/sys/module/elf_module.c:273-290 | a 32-bit word stored little-endian loads back unchanged |
| ElfFormat.StoreOthers | com32/lib/sys/module/elf_module.c:273-290 | storing a word leaves every byte outside its four bytes unchanged |
| ElfFormat.DynPeriodic | com32/lib/sys/module/elf_module.c:179-214 | the dynamic-entry walk wraps round the 32-bit address space |
| ElfLayout.ScanPhdrs | com32/lib/sys/module/elf_module.c:56 | the alignment found is never below the pointer size |
| ElfLayout.ScanBounds | com32/lib/sys/module/elf_module.c:69-90 | every PT_LOAD segment lies within [min_addr, max_addr] and its alignment is at most max_align |
| ElfLayout.ScanMinAddr | com32/lib/sys/module/elf_module.c:74-78 | min_addr is the vaddr of a PT_LOAD entry when entry 0 is PT_LOAD, and stays 0 otherwise |
| ElfLayout.ScanDynAddr | com32/lib/sys/module/elf_module.c:83-85 | dyn_addr is the vaddr of the last PT_DYNAMIC entry |
| ElfLayout.ScanNoDyn | com32/lib/sys/module/elf_module.c:59-85 | without a PT_DYNAMIC entry, dyn_addr stays 0 |
| ElfLayout.AllocBounds | com32/lib/sys/module/elf_module.c:103-109 | min_alloc is min_addr rounded down and max_alloc is max_addr rounded up to max_align (when that does not wrap), each within one alignment |
| ElfLayout.BaseBias | com32/lib/sys/module/elf_module.c:120 | the base address plus min_alloc is the block's address |
| ElfLayout.LoadRangeInBlock | com32/lib/sys/module/elf_module.c:103-124 | every byte of a PT_LOAD segment lands inside the allocated block of module_size bytes |
| ElfLayout.SpanInBlock | com32/lib/sys/module/elf_module.c:103-124 | every address in [min_addr, max_addr) maps into the allocated block |
| ElfLayout.CopyShape | com32/lib/sys/module/elf_module.c:129-153 | a copied segment writes exactly its file bytes, those past the current offset, at its absolute address, and the image cursor ends at its file end |
| ElfLayout.CopyCursor | com32/lib/sys/module/elf_module.c:129-153 | after a copy, the cursor is the segment's file end and never moves back |
| ElfLayout.CopyLands | com32/lib/sys/module/elf_module.c:129-153 | each copied byte holds the image byte at the matching file offset |
| ElfLayout.CopyFrame | com32/lib/sys/module/elf_module.c:129-153 | the copy leaves the segment's bytes past p_filesz unchanged |
| ElfLayout.CopyFails | com32/lib/sys/module/elf_module.c:131-152 | the copy fails exactly when the segment's file bytes run past the image, or when it starts before the cursor by more than p_filesz |
| ElfDynamic.LinkStepField | com32/lib/sys/module/elf_module.c:182-211 | one dynamic entry sets only the field its tag names (pointers relocated by the base) |
| ElfDynamic.LastWins | com32/lib/sys/module/elf_module.c:181-214 | a field ends up as the value of the last entry with its tag |
| ElfDynamic.Untouched | com32/lib/sys/module/elf_module.c:181-214 | a field no entry names keeps its earlier value |
| ElfDynamic.NeverEnds | com32/lib/sys/module/elf_module.c:181 | if one trip round the address space finds no DT_NULL, no trip does |
| ElfDynamic.RelScanFails | com32/lib/sys/module/elf_module.c:321-325 | resolve_symbols' walk fails exactly when some DT_PLTREL entry names a type other than DT_REL |
| ElfDynamic.PltRelWins | com32/lib/sys/module/elf_module.c:321-328 | plt_rel is set by the last DT_PLTREL or DT_JMPREL (DT_PLTREL falls through) |
| ElfDynamic.RelSizeWins | com32/lib/sys/module/elf_module.c:334-336 | rel_size is the last DT_RELSZ value |
| ElfDynamic.StridedAt | com32/lib/sys/module/elf_module.c:355-356 | the i-th relocation record is at table + i*stride |
| ElfDynamic.RelocEffect | com32/lib/sys/module/elf_module.c:268-294 | each supported relocation other than COPY succeeds: NONE changes nothing; the others store their word at dest and touch no other byte |
| ElfDynamic.CopyEffect | com32/lib/sys/module/elf_module.c:278-282 | R_386_COPY with a symbol copies st_size bytes from the symbol to dest |
| ElfDynamic.PcRelativeShift | com32/lib/sys/module/elf_module.c:275-277 | a PC32 result does not change when the symbol and the site move by the same distance |
| ElfDynamic.RunConcat | com32/lib/sys/module/elf_module.c:355-376 | a relocation run over two lists of sites is the run over the second from where the first ended |
| ElfDynamic.RunStops | com32/lib/sys/module/elf_module.c:360-361 | once a relocation fails, the longer run fails too |
| ElfDynamic.SitesCompose | com32/lib/sys/module/elf_module.c:353-377 | the standard run followed by the PLT run is the run over all relocation sites, and it completes exactly when the PLT run does |
| ElfLoader.ModuleFind | com32/lib/sys/module/elf_module.c:429 | module_find finds a module exactly when one with that name is registered |
| ElfLoader.Without | com32/lib/sys/module/elf_module.c:478 | list_del_init removes the module and keeps every other one |
| ElfLoader.ReadPht | com32/lib/sys/module/elf_module.c:61-66 | when the table lies in the image, the bytes read are the image's PHT bytes and the cursor moves past them |
| ElfLoader.ReadPhdrs | com32/lib/sys/module/elf_module.c:61-70 | e_phnum entries, each decoded from its e_phentsize slot of the image |
| ElfLoader.PhdrAt | com32/lib/sys/module/elf_module.c:70 | entry i is decoded at offset i * e_phentsize |
| ElfLoader.ScanSegments | com32/lib/sys/module/elf_module.c:69-90 | the loop computes ScanPhdrs |
| ElfLoader.CopySegments | com32/lib/sys/module/elf_module.c:126-160 | the copy loop computes CopyAll and returns -1 exactly when a copy fails |
| ElfLoader.LoadSegments | com32/lib/sys/module/elf_module.c:48-175 | an empty span or no PT_DYNAMIC means nothing is allocated. Without a block the result is 0 and memory is unchanged. With one, the block is fresh and aligned to max_align, base_addr is module_addr - min_alloc and module_size is max_alloc - min_alloc. The segments are copied into the zeroed block; a failed copy returns -1, otherwise dyn_table is base_addr + dyn_addr |
| ElfLoader.PlaceSegments | com32/lib/sys/module/elf_module.c:92-175 | after the scan: an empty span, no dynamic segment or a failed elf_malloc returns 0 with nothing changed; otherwise allocation, zeroing and copy as for LoadSegments |
| ElfLoader.PrepareDynlinking | com32/lib/sys/module/elf_module.c:178-224 | the walk ends at the first DT_NULL, with the fields as LinkAll gives them and symtable_size from the GNU or SysV hash table; it never ends exactly when the table has no DT_NULL |
| ElfLoader.PerformRelocation | com32/lib/sys/module/elf_module.c:227-297 | a missing symbol or an unsupported type returns -1 with memory unchanged; otherwise memory is as RelocAt says, and a dependency is added only on another module that defines the symbol |
| ElfLoader.ScanRelocTables | com32/lib/sys/module/elf_module.c:314-351 | the walk returns -1 exactly on a bad DT_PLTREL, otherwise the tables RelScan gives, or never ends |
| ElfLoader.PerformRun | com32/lib/sys/module/elf_module.c:355-362 | the loop applies the relocations in order and returns 0 exactly when all were applied; on -1 every earlier relocation was applied and the next one fails, its symbol not found or its type unsupported |
| ElfLoader.StandardRelocations | com32/lib/sys/module/elf_module.c:353-364 | the DT_REL records, rel_size/rel_entry of them, applied in order; on -1 the first one not applied is one that fails |
| ElfLoader.PltRelocations | com32/lib/sys/module/elf_module.c:366-377 | the DT_JMPREL records, plt_rel_size/8 of them, applied in order; on -1 the first one not applied is one that fails |
| ElfLoader.PerformRelocations | com32/lib/sys/module/elf_module.c:353-377 | the relocation sites, standard then PLT, are applied in order; 0 exactly when all of them are, and on -1 the first site not applied is one that fails |
| ElfLoader.ResolveSymbols | com32/lib/sys/module/elf_module.c:299-380 | a bad PLT type returns -1 with nothing changed; a walk without DT_NULL, or DT_RELSZ with a zero DT_RELENT, never ends; otherwise memory is the relocation run over the first sites, 0 means all of them, and -1 means the next site fails |
| ElfLoader.ExtractOperations | com32/lib/sys/module/elf_module.c:384-421 | all three symbols must be found (else -1 with nothing set); each pointer is base + st_value, or NULL when the word there is 0 |
| ElfLoader.LoadFailed | com32/lib/sys/module/elf_module.c:476-487 | the error path takes the module off the list, frees its block if it has one, and drops the image |
| ElfLoader.LoadPhases | com32/lib/sys/module/elf_module.c:444-458 | each phase's failure is returned as a negative or zero code; a block stays allocated only when load_segments placed the image |
| ElfLoader.ModuleLoad | com32/lib/sys/module/elf_module.c:424-488 | a duplicate name returns -1 with nothing changed. Otherwise a code is never positive and the image is dropped. Success puts the module at the head of the list and adds only its own dependencies. Failure leaves the list, the allocator and the dependencies as they were |
| ElfLoader.LoadNamed | com32/lib/sys/module/elf_module.c:434-488 | module_load past the duplicate check, with the same outcome |
| ElfLoader.Register | com32/lib/sys/module/elf_module.c:460-474 | list_add puts the module at the head; resolve_symbols' code is ignored; the image is dropped |
| Exec.FirstNull | com32/lib/sys/module/exec.c:172-174 | argc is the index of the first NULL, and every entry before it is a string |
| Exec.CountArgs | com32/lib/sys/module/exec.c:172-174 | the counting loop returns that argc |
| Exec.ArgvCopyIsPrefix | com32/lib/sys/module/exec.c:176-184 | the intended copy is argv up to and including its NULL |
| Exec.GetModuleType | com32/lib/sys/module/exec.c:48-53 | a module with main is a program; one without main but with init is a library; one with neither is of unknown type |
| Exec.CopyArgs | com32/lib/sys/module/exec.c:176-184 | the copy loop with the terminator stored at args[argc] yields that copy |
| Exec.FirstArgumentLost | com32/lib/sys/module/exec.c:184 | as written, `*args = NULL` overwrites the first argument, which the intended copy keeps |
| Exec.AsWrittenCopyDiffers | com32/lib/sys/module/exec.c:176-184 | for argv = ["x", NULL] the copy as written is [NULL, junk] |
| Exec.CopyArgsAsWritten | com32/lib/sys/module/exec.c:176-184 | the copy loop as written yields AsWrittenCopy |
| Exec.LowByte | com32/lib/sys/module/exec.c:209 | `(unsigned int)ret_val & 0xFF` lies in [0, 255] and agrees with ret_val modulo 256 |
| Exec.Runtime.RunMain | com32/lib/sys/module/exec.c:187-194 | the process runs main once; the value coming back through the exit channel is never 0 |
| Exec.Runtime.FreeTagged | com32/lib/sys/module/exec.c:196-197 | the release of the process's allocations: after it no heap holds a block of the process's tag, and the trace records it with the tag then in force |
| Exec.Runtime.AllocAndLoad | com32/lib/sys/module/exec.c:58-69 | no record means -1 with nothing done; a failed module_load is returned negative after module_unload; success registers the module |
| Exec.Runtime.InitLibrary | com32/lib/sys/module/exec.c:77-87 | the init function runs if present; a non-zero result unloads the module |
| Exec.Runtime.LoadLibrary | com32/lib/sys/module/exec.c:55-90 | the ways load_library can go: no memory, load failure, a program refused with -1, or a library whose init result is returned; 0 means the module stays registered |
| Exec.Runtime.UnloadLibrary | com32/lib/sys/module/exec.c:92-111 | -1 when no module has the name or another module depends on it; otherwise the exit function runs if present, then module_unload |
| Exec.Runtime.RunProcess | com32/lib/sys/module/exec.c:163-209 | as written: main, when the module has one, runs on AsWrittenCopy of argv (NULL first, then arguments 1 to argc-1, then the unset slot); the process's blocks are swept; the allocation tag and the current process are restored; the result is module_unload's error if any, else the low byte of the exit status minus one (-1 without main) |
| Exec.Runtime.RunProcessCorrected | com32/lib/sys/module/exec.c:163-209 | the same path with `args[argc] = NULL`: main runs on argv up to and including its terminator |
| Exec.Runtime.RunCopied | com32/lib/sys/module/exec.c:186-209 | from setjmp on: main runs on the copy unless there is none (ret_val -1), an exit with value v gives ret_val v - 1, the sweep and module_unload follow, the context is restored and the status is module_unload's error or the low byte of ret_val |
| Exec.Runtime.Spawnv | com32/lib/sys/module/exec.c:115-210 | the ways spawnv can go: a module without main is refused with -1 after unloading; a program runs as a process on the as-written argv copy, with the context restored in every case |
| Exec.Runtime.SpawnLoad | com32/lib/sys/module/exec.c:224-315 | spawn_load by get_module_type: a library through its init function, a program as a process on the as-written argv copy, any other module unloaded with -1; the context is restored in every case |
| CliEdit.CLen | core/elflink/cli.c:84 | strlen is the index of the first NUL |
| CliEdit.TempString | core/elflink/cli.c:63 | the string in temp_cmdline, read no further than its last byte (the corrected reading), holds no NUL and is shorter than the buffer |
| CliEdit.Truncated | core/elflink/cli.c:81-82 | the input copied into cmdline and cut to MAX_CMDLINE_LEN - 1 fits the buffer |
| CliEdit.SkipBackRun | core/elflink/cli.c:192-196 | Ctrl-W's loops stop at the first character before the cursor of the other class, or at the start |
| CliEdit.TailMove | core/elflink/cli.c:163-164 | moving the tail and its NUL left gives the text with the gap closed, still NUL-terminated |
| CliEdit.BackspaceEdits | core/elflink/cli.c:160-169 | Backspace deletes the character before the cursor and keeps the buffer invariant |
| CliEdit.DeleteEdits | core/elflink/cli.c:171-178 | Delete deletes the character at the cursor |
| CliEdit.KillLineEdits | core/elflink/cli.c:180-186 | Ctrl-U empties the line |
| CliEdit.KillWordEdits | core/elflink/cli.c:188-213 | Ctrl-W deletes from the word start to the cursor |
| CliEdit.KillToEndEdits | core/elflink/cli.c:237-242 | Ctrl-K deletes from the cursor to the end |
| CliEdit.InsertLine | core/elflink/cli.c:314-340 | a printable key is inserted at the cursor when the line has room, and the cursor moves past it |
| CliEdit.InsertLineMid | core/elflink/cli.c:329-338 | a key inside the line is inserted at the cursor and the buffer stays well formed |
| CliEdit.StepEdits | core/elflink/cli.c:143-341 | every key other than Up and Down changes the text and cursor as the text-level Edit says, and keeps the invariant |
| CliEdit.StepWf | core/elflink/cli.c:143-341 | every key keeps the buffer invariant: NUL at len, none before, cursor <= len < MAX_CMDLINE_LEN |
| CliEdit.RecallWf | core/elflink/cli.c:278-313 | recalling a position shows that history entry, or the typed text at the list head |
| CliEdit.HistoryRecall | core/elflink/cli.c:278-313 | Up and Down move to the next and previous entry of the circular list and put the cursor at the end of what they show |
| CliEdit.UpDownInverse | core/elflink/cli.c:278-313 | Down undoes Up and Up undoes Down |
| CliEdit.TypeThenBackspace | core/elflink/cli.c:160-169 | typing a printable character and then Backspace gives the original line back |
| CliEdit.KillWordRemoves | core/elflink/cli.c:188-213 | Ctrl-W removes exactly the white space before the cursor and the word before that |
| CliEdit.EditBounds | core/elflink/cli.c:315 | no key makes the line reach MAX_CMDLINE_LEN characters |
| CliEdit.AcceptedFits | core/elflink/cli.c:148-152 | a line returned by Enter fits the buffer and holds no NUL |
| CliEdit.StartWf | core/elflink/cli.c:81-84 | the editor starts with the truncated input and the cursor at its end |
| CliEdit.TempOverrun | core/elflink/cli.c:314-340 | as written: 255 typed characters, then Backspace, Home, a key, Up, Up leaves temp_cmdline without a NUL, and strcpy runs past it |
| CliEdit.TypedAtEnd | core/elflink/cli.c:316-328 | as written, n keys typed at the end of an empty line give a line of n characters and fill the first n bytes of temp_cmdline |
| CliEdit.InsertFillsTemp | core/elflink/cli.c:329-338 | as written, inserting at the start of a line of MAX_CMDLINE_LEN - 2 characters leaves temp_cmdline with no NUL |
| CliEdit.FullTempOverruns | core/elflink/cli.c:160-313 | as written, after a full line: Backspace, Home, a key, Up, Up ends in the overrunning copy |
| CliEdit.TempStringAgrees | core/elflink/cli.c:285 | when temp_cmdline holds a NUL, strcpy from it reads the same string as the bounded reading TempString |
| CliEdit.StepAsWrittenAgrees | core/elflink/cli.c:278-313 | a key as written either overruns or gives the state the corrected Step gives |
| CliEdit.RunAsWrittenAgrees | core/elflink/cli.c:160-346 | editing keys that never overrun as written end, on Enter, with the line the corrected editor returns |
| CliEdit.HeadCopyOverruns | core/elflink/cli.c:278-290 | as written, reaching the list head with no NUL in temp_cmdline copies past the buffer |
| CliEdit.LineEditor.constructor | core/elflink/cli.c:81-84 | the arrays hold the starting state |
| CliEdit.LineEditor.Backspace | core/elflink/cli.c:160-169 | the array update (memmove) is BackspaceStep |
| CliEdit.LineEditor.Delete | core/elflink/cli.c:171-178 | the array update is DeleteStep |
| CliEdit.LineEditor.KillLine | core/elflink/cli.c:180-186 | the array update is Ctrl-U's step |
| CliEdit.LineEditor.KillWord | core/elflink/cli.c:188-213 | the two scanning loops and the copying loop compute KillWordStep |
| CliEdit.LineEditor.Left | core/elflink/cli.c:215-221 | the cursor steps left unless at the start |
| CliEdit.LineEditor.Right | core/elflink/cli.c:223-235 | the cursor steps right unless at the end |
| CliEdit.LineEditor.KillToEnd | core/elflink/cli.c:237-242 | the line is cut at the cursor |
| CliEdit.LineEditor.Home | core/elflink/cli.c:244-250 | the cursor goes to the start |
| CliEdit.LineEditor.End | core/elflink/cli.c:252-258 | the cursor goes to the end |
| CliEdit.LineEditor.HistoryMove | core/elflink/cli.c:278-313 | with a non-empty history, the recalled entry is copied in and the cursor goes to its end; with none, nothing changes |
| CliEdit.LineEditor.InsertKey | core/elflink/cli.c:314-340 | a printable key with room is inserted into both buffers; any other is ignored |
| CliEdit.LineEditor.AppendChar | core/elflink/cli.c:316-328 | a key at the end is appended to cmdline and temp_cmdline, each NUL-terminated |
| CliEdit.LineEditor.InsertChar | core/elflink/cli.c:329-338 | a key inside the line is inserted in both buffers by moving the tail right |
| CliEdit.LineEditor.HandleKey | core/elflink/cli.c:143-341 | the switch performs Step |
| CliEdit.ScanWordBack | core/elflink/cli.c:192-196 | the two loops stop at WordStart |
| CliEdit.CopyDown | core/elflink/cli.c:202-208 | the character-copying loop is a memmove to a lower address |
| CliEdit.StrCopy | core/elflink/cli.c:285-289 | strcpy into cmdline |
| CliEdit.EditCmdline | core/elflink/cli.c:60-346 | edit_cmdline: Enter returns the edited line, Escape returns NULL |
| CliCommand.StrTokWord | core/elflink/cli.c:356 | a token is a non-empty word without delimiters |
| CliCommand.StrTokNone | core/elflink/cli.c:356 | strtok finds no token exactly when the string holds only delimiters |
| CliCommand.TokensWords | core/elflink/cli.c:362-374 | every token is a non-empty word without delimiters |
| CliCommand.TokensJoin | core/elflink/cli.c:356-374 | splitting words joined by single spaces gives the words back |
| CliCommand.LeadingDelims | core/elflink/cli.c:356 | delimiters before one word tokenise to that word alone |
| CliCommand.SpawnArgv | core/elflink/cli.c:359-381 | a spawned .c32 module gets the tokens after its name, at most MAX_COMMAND_ARGS of them, then NULL |
| CliCommand.LoadedSkipped | core/elflink/cli.c:359-361 | a .c32 module already loaded is not spawned again |
| CliCommand.WordsAsArguments | core/elflink/cli.c:356-374 | for space-separated words, the first is the name and the rest, up to the limit, are the arguments |
| CliCommand.ChoosePasses | core/elflink/cli.c:383-410 | every kernel kind hands execute() the command it is given |
| CliCommand.PxeKind | core/elflink/cli.c:383-387 | a name ending in ".0" is booted as a PXE kernel |
| CliCommand.ExecuteSeesNameOnly | core/elflink/cli.c:356-409 | as written, the command execute() receives tokenises to the name alone |
| CliCommand.PxeArgumentDropped | core/elflink/cli.c:383-387 | for "name.0 option": as written execute() receives only the name; corrected, the whole command |
| CliCommand.ExecuteKeepsArguments | core/elflink/cli.c:351-355 | corrected, execute() receives every word of the command |
| CliCommand.ProcessCommand | core/elflink/cli.c:348-414 | the action is the suffix dispatch as written, with execute() given the command cut behind its name by strtok; a spawn is spawn_load of the name and the collected argv, with its outcome stated path by path (no memory, load failure, library init, process run on the as-written argv copy, unknown type unloaded); nothing else changes the registry, and the process context is restored |
| CliCommand.FillArgs | core/elflink/cli.c:362-374 | the loop stores the first tokens, as many as fit under MAX_COMMAND_ARGS, in a fresh cmd_line of MAX_COMMAND_ARGS + 1 slots |
| CliCommand.CollectArgs | core/elflink/cli.c:362-375 | the do-while strtok loop fills cmd_line with at most MAX_COMMAND_ARGS tokens and a NULL |

## Left out

- Image I/O, `elf_malloc`/`elf_free`, `global_find_symbol`, `module_find_symbol`, `check_header_common`, `check_symbols`, `enforce_dependency`, `module_alloc` and `module_unload` are outside this model. Each appears as a stand-in whose contract is what the core relies on; any answer allowed by that contract is possible.
- `Arena.FindSlot`: requires addr + size < 0x1_0000_0000 and `EndsBelow4G` of the chain, so that neither a_end nor n_end wraps. The scan over a chain that reaches past the top of the 32-bit address space, where C compares against a wrapped end, is not modelled.
- `Arena.Heaps.InjectFreeBlock`: requires that the new block end below 2^32 (addr + size < 0x1_0000_0000) and that every block of its heap do so too (`EndsBelow4G`). In C, a_end and n_end are size_t sums that wrap; a block reaching past the top of the address space makes the scan compare against the wrapped end, and the model does not capture that scan. It also requires a non-zero size: a chain here holds only blocks of positive size, so the source's handling of a zero-size header, which would be spliced in and freed, is not modelled.
- `ElfLoader.ModuleFind`: returns some registered module with the name, not necessarily the first on the list. module_find's body is not part of this model, and every caller here only compares its result with NULL.
- `CliEdit.LineEditor.HistoryMove`: at the list head, copies `TempString`, temp_cmdline read no further than its last byte. The source's strcpy (core/elflink/cli.c:285 and 303) runs past the buffer when it holds no NUL; `CliEdit.StepAsWrittenAgrees` shows that this overrun is the only difference.
- `CliEdit.EditCmdline`: states the corrected editor. At the list head, `LineEditor.HistoryMove` reads temp_cmdline no further than its last byte (`TempString`), where the source's strcpy (core/elflink/cli.c:285 and 303) runs past the buffer when it holds no NUL. `CliEdit.TempOverrun` exhibits such a key sequence, and `CliEdit.RunAsWrittenAgrees` proves that on every key sequence without an overrun the source's behaviour and the model's agree.
- The CHECKED macro (defined in a header that is not part of this model) is read as "store the result and jump to the error path when it is negative".
- Memory is a map of bytes, and an unmapped address reads as 0. Pointer validity, page faults and overlapping objects are not modelled.
- The `malloc` of the program header table in `load_segments` is taken to succeed. The product e_phnum * e_phentsize is taken as an unbounded natural, not truncated to `size_t`.
- `ElfLoader.LoadSegments`: like the source, it returns 0 when there is no loadable or no dynamic segment or `elf_malloc` fails. It does not bring in the later crash on a missing dyn_table.
- A call that never returns, or that traps on a division by zero, is `Stuck`. What happens after the trap is not modelled.
- DBG_PRINT, dprintf and all console output are left out.
- `Exec.Runtime.RunMain`: the module's main is foreign code. Its exit status arrives as any non-zero value through the exit channel, and it may change the heaps in any way that keeps them well formed.
- `module_unload`'s own effect on the registry is a stand-in; only its call is recorded in the trace.
- `Exec.Runtime.FreeTagged`: the `__free_tagged` that spawnv and spawn_load call takes the module, and its definition is not part of this model (the one in core/mem/free.c is static and takes a tag). The model uses the release its name promises: the corrected sweep `Arena.Heaps.FreeTagged`. It does not carry over the as-written loop of free.c, which releases nothing.
- spawnl is left out: it reads a variadic argument list through the stack in a way specific to the i386 ABI.
- `execute()` is not part of this model: `process_command` returns the command it would pass, as strtok left it, and the kernel type.
- `.bin` prints the command; the model returns it as an `Echo` action.
- The two `malloc`s in `process_command` are taken to succeed.
- `CliCommand.ProcessCommand`: requires a first token at least 4 characters long. With none, the source passes NULL to strlen. With a shorter one, it reads before the start of the name.
- MAX_CMDLINE_LEN (256), MAX_COMMAND_ARGS (40), COMMAND_DELIM (space, tab, newline) and my_isspace (every character up to the space) come from headers that are not part of this model. The model uses Syslinux's values.
- Key codes: mygetkey and the key-code constants are not part of this model. `Typed(code)` stands for any code that matches no case label, and the aliases (Ctrl-J, Ctrl-C, Del, Ctrl-D, Ctrl-B, Ctrl-F, Ctrl-A, Ctrl-E) share one constructor each.
- Screen drawing, the cursor's row and column, the width query, the timeout and the `pDraw_Menu` and `show_fkey` callbacks are left out. Ctrl-L and function keys leave the line unchanged.
- `CliEdit.StepEdits`: history entries are assumed shorter than MAX_CMDLINE_LEN and free of NUL (`HistoryOk`). The history list (`cli_history_head`) and its filling are not part of this model.
- The static `cmdline` buffer keeps its contents across calls to edit_cmdline. The model starts every call from a fresh copy of the input.
- Strings are values; `strtok`'s writes into the caller's buffer are modelled only by `CmdAfterStrtok`, the string the buffer then holds.

## Findings

| source | as written | input that shows it | evidently intended | confidence | as-written member | corrected member |
|---|---|---|---|---|---|---|
| core/mem/free.c:139 | the inner loop starts with `fp = head` and runs while `fp != head`, so it runs no iteration | any heap holding a USED block with the tag, e.g. a single block tagged 7 | start at `head->a.next` and release every block with the tag | high, not executed | Arena.Heaps.FreeTaggedAsWritten | Arena.Heaps.FreeTagged |
| com32/lib/sys/module/exec.c:184 | `*args = NULL` stores the terminator over the first argument; the slot after the last argument stays uninitialised | argv = ["x", NULL] gives main [NULL, junk] | `args[argc] = NULL` | high, not executed | Exec.CopyArgsAsWritten | Exec.CopyArgs |
| core/elflink/cli.c:314-340 | temp_cmdline gets its terminator only when a key is appended at the end; an insertion moves len - cursor + 1 bytes of it, and a full array can be left with no NUL. Reaching the list head then copies it with strcpy past its end | 255 typed characters, Backspace, Home, a key, Up, Up, with one history entry | keep temp_cmdline NUL-terminated within its MAX_CMDLINE_LEN bytes | medium, not executed | CliEdit.TempOverrun | CliEdit.HistoryRecall |
| core/elflink/cli.c:356-409 | strtok cuts `cmd` after the name, so execute() receives only the name, while the full command sits unused in temp_cmd | "pxelinux.0 keeppxe" | pass temp_cmd, the whole command line, to execute() | medium, not executed | CliCommand.ExecuteSeesNameOnly | CliCommand.ExecuteKeepsArguments |
