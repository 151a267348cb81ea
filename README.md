# Pintos user-process loader and wait/exit bookkeeping, in Dafny

This project models the core of `pintos/src/userprog/process.c` from the
Pintos teaching kernel and proves properties of the model. It covers four
parts:

- **ELF checks.** `load` checks the ELF executable header, scans the program
  headers and sizes each loadable segment. `validate_segment` decides
  whether a `PT_LOAD` header may be mapped. The layouts follow the Tool
  Interface Standard ELF Specification v1.2, Book I: the ELF header on
  pp. 1-4 to 1-8, the program header on pp. 2-2 to 2-4.
- **Segments and pages.** `load_segment` fills a segment page by page from
  the file. `install_page` adds one mapping to the page directory.
- **The initial stack.** `setup_stack` splits the command line on spaces
  like `strtok_r`. It copies the words below `PHYS_BASE` and pushes the
  cdecl `main (argc, argv)` frame: `argv[argc] = 0`, the `argv` entries,
  `argv`, `argc` and a null return address.
- **Wait and exit.** `process_wait` and the reference counting of
  `process_exit` act on the `wait_status` records that a parent shares
  with each child. This part is a sequential state machine over a table
  of records.

Modules:

- `Wrappers`: the `Option` type.
- `Bytes`: bytes, little-endian 16- and 32-bit fields and 32-bit wrap-around.
- `Vaddr`: `PGSIZE = 4096`, `PHYS_BASE = 0xC0000000` and page rounding.
- `Elf`: header decoding, the header check, `validate_segment` and the segment plan.
- `PageDir`: the address space, as a class over the page directory, the frame contents and the free user frames.
- `Strtok`: the tokeniser.
- `Segment`: `load_segment`.
- `Stack`: `setup_stack`.
- `Loader`: `load`.
- `Lifecycle`: `process_wait` and `process_exit`.

Where the C code changes state, the model is imperative:

- The address space and the process table are classes.
- The stack page is an `array`.
- `load_segment`, the program-header scan, the stack builder and the
  children loops of `process_wait` and `process_exit` are methods with
  loops.

Each such method is proved equal to a specification function of the old
state: `SegmentSpec`, `ScanSpec`, `LoadSpec`, `SetupStackSpec`, `WaitSpec`
or `ExitSpec`. Lemmas then prove what the C code promises about those
functions.

Inputs and the world around the code are modelled as follows:

- The executable file is a byte sequence.
- The file system is a map from names to byte sequences.
- The user page allocator is a list of free frames. Allocation fails when
  the list is empty.

## Model

| member | source | states |
|---|---|---|
| Elf.DecodeEncodeEhdr | pintos/src/userprog/process.c:265-281 | decoding the 52 little-endian bytes of an encoded `Elf32_Ehdr` gives back every field |
| Elf.DecodeEncodePhdr | pintos/src/userprog/process.c:286-296 | decoding the 32 bytes of an encoded `Elf32_Phdr` gives back every field |
| Elf.ReadHeader | pintos/src/userprog/process.c:362-368 | the header is accepted iff the file has 52 bytes, the first 7 ident bytes are `\177ELF\1\1\1`, `e_type == 2`, `e_machine == 3`, `e_version == 1`, `e_phentsize == 32` and `e_phnum <= 1024`; the accepted entry, phoff and phnum are the bytes at 24, 28 and 44 |
| Elf.PhdrOffset | pintos/src/userprog/process.c:375-387 | header i is read at `e_phoff + 32 i` while `e_phoff` is a non-negative `off_t` |
| Elf.ReadPhdr | pintos/src/userprog/process.c:380-385 | a program header is read iff its offset is non-negative and 32 bytes fit in the file |
| Elf.Classify | pintos/src/userprog/process.c:388-400 | `PT_LOAD` is loaded; `PT_DYNAMIC`, `PT_INTERP` and `PT_SHLIB` and only they fail the load; `PT_NULL`, `PT_NOTE`, `PT_PHDR`, `PT_STACK` and every unknown type are ignored |
| Elf.ValidateSegment | pintos/src/userprog/process.c:456-497 | true iff the page offsets of `p_offset` and `p_vaddr` agree, `p_offset <= file_length`, `p_filesz <= p_memsz`, `p_memsz != 0`, `p_vaddr >= PGSIZE` and `p_vaddr + p_memsz < PHYS_BASE` in exact arithmetic (the one-past-end address is itself below `PHYS_BASE`, and the 32-bit sum does not wrap); every `p_vaddr < PGSIZE` is rejected |
| Elf.PlanSegment | pintos/src/userprog/process.c:404-423 | `file_page` and `mem_page` are page-aligned and at most one page below `p_offset` and `p_vaddr`; `writable` iff the `PF_W` bit is set; `read_bytes == 0` when `p_filesz == 0` |
| Elf.PlanOfValidSegment | pintos/src/userprog/process.c:404-423 | for a validated segment `read_bytes + zero_bytes == ROUND_UP(page_offset + p_memsz, PGSIZE)`, a multiple of PGSIZE; the first page starts at or above PGSIZE, the last page ends at or below `PHYS_BASE`, and the pages cover the segment; the read part ends at `p_offset + p_filesz` |
| Elf.PlanCovers | pintos/src/userprog/process.c:413-422 | the 32-bit read and zero byte counts of a validated segment add up to the exact page-rounded span |
| Elf.PlanFits | pintos/src/userprog/process.c:475-480 | the page-rounded span of a validated segment ends at or below `PHYS_BASE` |
| PageDir.Install | pintos/src/userprog/process.c:656-665 | install succeeds iff `upage` is unmapped; on success it adds exactly `upage -> (kpage, writable)`; on failure nothing changes |
| PageDir.InstallExtends | pintos/src/userprog/process.c:656-665 | installing a frame keeps the address space well formed and every earlier mapping and page contents |
| PageDir.ExtendsKeepsResident | pintos/src/userprog/process.c:656-665 | a page resident with given contents stays so in any extension of the address space |
| PageDir.AddressSpace.AllocPage | pintos/src/userprog/process.c:531-533 | allocation fails, changing nothing, iff no user frame is free; otherwise it takes the first free frame, zeroed |
| PageDir.AddressSpace.FreePage | pintos/src/userprog/process.c:538 | an unmapped frame returns to the free list |
| PageDir.AddressSpace.FillPage | pintos/src/userprog/process.c:536-541 | exactly the given frame's contents change |
| PageDir.AddressSpace.InstallPage | pintos/src/userprog/process.c:656-665 | the new state and result are those of `Install`, and the address space is extended |
| PageDir.AddressSpace.InstallOrFree | pintos/src/userprog/process.c:544-548 | on success the mapping is added; on failure the frame is freed and the page directory is unchanged |
| Strtok.NextToken | pintos/src/userprog/process.c:589 | one `strtok_r` call finds nothing iff only spaces remain; otherwise it returns a non-empty, space-free word and a rest that is a suffix of the line, together no longer than the line |
| Strtok.NextTokenFirstWord | pintos/src/userprog/process.c:585-589 | on a line of any number of spaces, then a word, then a space or the end, one `strtok_r` call returns exactly that word and the rest after the space: the token is the first maximal run of non-space bytes |
| Strtok.NextTokenSplits | pintos/src/userprog/process.c:585-589 | one `strtok_r` call yields nothing iff no words remain, else the first word and a rest whose words are the remaining ones |
| Strtok.TokensAreWords | pintos/src/userprog/process.c:603-613 | tokens are non-empty and space-free, NUL-free for a C string, and at most (length + 1) / 2 of them |
| Strtok.TokensOfSpread | pintos/src/userprog/process.c:585-589 | the tokens of any line made of words separated by runs of one or more spaces, with any number of leading and trailing spaces, are exactly those words in order: runs of spaces collapse and no empty token appears |
| Strtok.SpreadOfTokens | pintos/src/userprog/process.c:585-589 | every line is its tokens laid out over its runs of spaces, with a non-empty run between any two tokens, so `TokensOfSpread` determines the tokens of every line |
| Strtok.TokensOfJoin | pintos/src/userprog/process.c:585-589 | splitting words joined by single spaces gives back the words |
| Strtok.TokensIdempotent | pintos/src/userprog/process.c:585-589 | re-joining the tokens of a line with single spaces and splitting again gives the same tokens |
| Segment.PageReadBytes | pintos/src/userprog/process.c:527-528 | the bytes read into page k are at most PGSIZE and lie within `read_bytes` |
| Segment.PageImageContents | pintos/src/userprog/process.c:536-541 | a filled page holds the `page_read_bytes` file bytes from the read position and zeros after them |
| Segment.SegmentPageContents | pintos/src/userprog/process.c:522-554 | page k of a segment holds file byte `ofs + k PGSIZE + i` below `read_bytes` and zero beyond |
| Segment.SuccessUsesFrames | pintos/src/userprog/process.c:531-533 | a successful load of n pages takes exactly the first n free frames and the file holds all `read_bytes` |
| Segment.SuccessAddsPages | pintos/src/userprog/process.c:543-548 | a successful load adds exactly n mappings |
| Segment.SuccessFreshPages | pintos/src/userprog/process.c:544-548 | a load succeeds only if every one of its n consecutive user pages was unmapped |
| Segment.SuccessFillsPage | pintos/src/userprog/process.c:522-554 | after a successful load, page k is mapped at `upage + k PGSIZE` with the requested writability and holds segment page k |
| Segment.SegmentSpecSucceeds | pintos/src/userprog/process.c:513-556 | with enough free frames, the file long enough and the target pages unmapped, the load succeeds |
| Segment.SegmentSpecExtends | pintos/src/userprog/process.c:513-556 | whether or not it succeeds, a load keeps the address space well formed and every earlier mapping and page |
| Segment.LoadPage | pintos/src/userprog/process.c:527-548 | one iteration succeeds iff a frame is free, the read is full and the page is unmapped, and then it maps the filled frame; otherwise nothing changes |
| Segment.LoadSegment | pintos/src/userprog/process.c:513-556 | the loop produces the state and result of `SegmentSpec` over `(read_bytes + zero_bytes) / PGSIZE` pages, stopping at the first failure |
| Stack.ArgsDisjoint | pintos/src/userprog/process.c:603-613 | later arguments are copied strictly below earlier ones, each with its NUL ending exactly where the previous argument starts |
| Stack.TokensBytes | pintos/src/userprog/process.c:603-613 | the copied strings with their NULs take at most `|cmdline| + 1` bytes |
| Stack.ShortCommandLineFits | pintos/src/userprog/process.c:576-645 | a command line of at most 1358 bytes always fits the argument block in the one stack page |
| Stack.StackImageLayout | pintos/src/userprog/process.c:603-643 | the built page has, from esp up: 0, argc, esp + 12, the addresses of the tokens in original order, 0; each token is stored NUL-terminated at its address |
| Stack.StackImageKeeps | pintos/src/userprog/process.c:615-618 | bytes below esp and the alignment gap are left as they were |
| Stack.CopyString | pintos/src/userprog/process.c:609 | copies one token and its NUL and changes no other byte |
| Stack.WriteWord | pintos/src/userprog/process.c:621 | stores one 32-bit little-endian word |
| Stack.CountTokens | pintos/src/userprog/process.c:581-591 | the counting loop returns the number of tokens |
| Stack.PushToken | pintos/src/userprog/process.c:605-611 | one pass of the copy loop: the cursor drops to the token's offset below the earlier tokens, the token and its NUL are written there and its user address is stored in `arg_addrs[i]`, and nothing else changes |
| Stack.PushStrings | pintos/src/userprog/process.c:599-613 | the copy loop leaves the cursor below all strings and records every token's user address |
| Stack.PushArgv | pintos/src/userprog/process.c:620-629 | pushes `argv[argc] = 0` and then `argv[argc-1] .. argv[0]` |
| Stack.WriteBlock | pintos/src/userprog/process.c:615-643 | the aligned block of argv, argc and return address is written at the final esp |
| Stack.BuildStack | pintos/src/userprog/process.c:576-643 | the page becomes the argument block for the command line's tokens and esp is `PHYS_BASE` minus its size |
| Stack.MapStack | pintos/src/userprog/process.c:566-574 | the zeroed frame is mapped writable at `PHYS_BASE - PGSIZE` iff that page was unmapped, and is freed otherwise |
| Stack.FillStack | pintos/src/userprog/process.c:576-643 | the stack frame's contents become the argument block over a zero page, nothing else changes |
| Stack.SetupStackSpecFacts | pintos/src/userprog/process.c:560-645 | setup succeeds iff a frame is free and the stack page unmapped; then the page is resident, writable, laid out as the cdecl frame and zero below it; the address space is only extended |
| Stack.SetupStack | pintos/src/userprog/process.c:560-645 | produces the state and result of `SetupStackSpec`, with esp at the fake return address |
| Loader.HeaderAt | pintos/src/userprog/process.c:375-387 | header i exists iff `e_phoff + 32 i + 32` fits in the file (for a non-negative `e_phoff`) |
| Loader.ActionOf | pintos/src/userprog/process.c:388-430 | a header fails the load iff it is missing, of an unsupported type, or a `PT_LOAD` that fails validation; it loads iff it is a valid `PT_LOAD`, with a page-aligned plan whose read bytes fit its pages |
| Loader.LoadPlanInUserMemory | pintos/src/userprog/process.c:402-427 | a loaded segment's pages start at or above PGSIZE, end at or below `PHYS_BASE` and cover `[p_vaddr, p_vaddr + p_memsz)` |
| Loader.ScanExtends | pintos/src/userprog/process.c:376-432 | the scan, whether it succeeds or stops at a failing header, keeps the address space well formed and only extends it |
| Loader.HeaderStepExtends | pintos/src/userprog/process.c:388-431 | one header step keeps the address space well formed and only extends it; a failing header always fails the step |
| Loader.ScanAccepts | pintos/src/userprog/process.c:376-432 | a successful scan met no failing header |
| Loader.ScanLoadsSegment | pintos/src/userprog/process.c:401-427 | after a successful scan, every page k of every loaded segment is resident at `mem_page + k PGSIZE` with its contents and writability |
| Loader.LoadSpecFacts | pintos/src/userprog/process.c:323-448 | load keeps the address space well formed and only extends it; on success the program named by the first word exists, its header passes the check, every program header is acceptable, and the stack page holds the argument block |
| Loader.LoadedSegmentResident | pintos/src/userprog/process.c:401-436 | after a successful load every page of every `PT_LOAD` segment is resident with its file bytes and zeros, even after the stack is set up |
| Loader.LoadHeader | pintos/src/userprog/process.c:388-431 | one turn of the scan: ignore, fail, or `load_segment` with the header's plan |
| Loader.ScanHeaders | pintos/src/userprog/process.c:374-432 | the header loop, advancing `file_ofs` by 32, produces the state and result of `ScanSpec` |
| Loader.Load | pintos/src/userprog/process.c:323-448 | produces the state and result of `LoadSpec`; on success the entry point is `e_entry` (bytes 24..27) and esp is at the fake return address |
| Lifecycle.FindChild | pintos/src/userprog/process.c:141-152 | no record is found iff no child record has that pid; otherwise the result is the first child in list order with that pid, where the walk breaks |
| Lifecycle.WaitFacts | pintos/src/userprog/process.c:133-160 | wait returns -1 and changes nothing when no child has that pid; for the first child with that pid it returns -1 and changes nothing if that child was already waited for, blocks without change while it runs, and otherwise sets exactly its `parent_waited` and returns its `exit_code` |
| Lifecycle.WaitTwice | pintos/src/userprog/process.c:154-159 | a second wait for the same child returns -1 |
| Lifecycle.WaitKeepsValid | pintos/src/userprog/process.c:133-160 | wait keeps the table invariant (every count equals its live holders) |
| Lifecycle.ProcessTable.ProcessWait | pintos/src/userprog/process.c:133-160 | the children walk and flag update produce the state and outcome of `WaitSpec` |
| Lifecycle.ExitOwn | pintos/src/userprog/process.c:169-178 | the exit code becomes -1 only when none was recorded, a recorded one is kept; the count drops by one and the record is marked exited |
| Lifecycle.ReleaseOwn | pintos/src/userprog/process.c:169-181 | the own record is freed iff its count was 1; no other record changes |
| Lifecycle.DecrementAllAt | pintos/src/userprog/process.c:193-205 | after the children loop each child record has lost exactly one from its count, others none |
| Lifecycle.DeadChildrenAre | pintos/src/userprog/process.c:193-205 | a child goes into `dead_children` iff its count was 1 |
| Lifecycle.FreeAll | pintos/src/userprog/process.c:207-210 | freeing the `dead_children` removes exactly those records |
| Lifecycle.ExitFacts | pintos/src/userprog/process.c:164-213 | exit removes the process, finishes its own record, takes exactly one from every record it holds and frees exactly the records whose count reaches 0; nothing else changes, nothing is allocated |
| Lifecycle.ExitKeepsValid | pintos/src/userprog/process.c:164-213 | exit keeps the table invariant: no count goes to 0 while a live process holds the record, and no live process is left with a freed record |
| Lifecycle.LastHolderFrees | pintos/src/userprog/process.c:180-210 | an exit frees a record iff the exiting process is its last holder, so whether parent or child exits first the record is freed exactly once, by the second exit |
| Lifecycle.SpawnKeepsValid | pintos/src/userprog/process.c:68 | creating a child (the `thread_create` call) with a record held by parent and child keeps the invariant; the record's `ref_count = 2` initialisation is in thread code, which is not part of this model |
| Lifecycle.ProcessTable.ProcessExit | pintos/src/userprog/process.c:164-213 | the field updates and the two loops over the children produce the table of `ExitSpec` |
| Lifecycle.ProcessTable.ReleaseOwnRecord | pintos/src/userprog/process.c:169-181 | updates and possibly frees the own record as `ReleaseOwn` says |
| Lifecycle.ProcessTable.ReleaseChildren | pintos/src/userprog/process.c:189-205 | the loop decrements every child record once and fills `dead_children` with those that reached 0, in list order |
| Lifecycle.ProcessTable.FreeDead | pintos/src/userprog/process.c:207-210 | the second loop frees the `dead_children` |

## Left out

- Bytes are the integers 0..255, not a bit-vector type. Bit masks (`& PGMASK`, `& ~PGMASK`, `& PF_W`) are written as division and remainder, which is exact for these masks.
- The file system, `filesys_open`, `file_read` and `file_seek` are a map from names to byte sequences and a byte sequence. A short read is a failed read. `add_fd`, `file_deny_write` and the unclosed existence-check open in `process_execute` are not modelled.
- A command line with no word would make `filesys_open` receive a null name. Here it is an open failure.
- `Loader.HeaderAt`: the header offset is `e_phoff` read as a signed 32-bit `off_t`. The file length is not bounded, although `off_t` keeps it below 2^31 in the C code. For files below that bound the checks are the same.
- `pagedir_create`, `process_activate`, `tss_update`, page-directory teardown and the NULL-page-directory failure of `load` are left out. They are CPU and allocator state.
- `pagedir_set_page` is taken never to fail for lack of memory: `install_page` fails only when the page is already mapped.
- `palloc_get_page` internals are modelled as the list of free frames. Every allocated frame reads as zero, so the stale contents of a frame obtained without `PAL_ZERO` are not modelled. `load_segment` overwrites every byte of its frames anyway.
- The three `palloc_get_page (0)` copies of the command line (two in `load`, one in `setup_stack`) are not modelled. Nor are `strtok_r`'s NUL writes into them. The tokeniser is a function on the original line.
- `Stack.SetupStack`: when the stack page cannot be allocated or installed, the C code goes on writing through an uninitialised `*esp`. The model returns failure before writing instead.
- `Stack.SetupStack`, `Loader.Load`: the command line is required to be a C string (no NUL byte) shorter than a page, as the `strlcpy` in `process_execute` makes it. Its argument block is required to fit in the stack page; nothing in the C code checks this.
- User addresses are unbounded integers in the page directory. `upage += PGSIZE` cannot wrap for validated segments, which end below `PHYS_BASE`.
- `process_execute` and `start_process` are left out: thread creation, the `load_synch` handshake, the interrupt frame and the jump to `intr_exit`. The record a new child gets is modelled by `Lifecycle.SpawnSpec`. That record is made by thread code, which is not part of this model; it starts with count 2 and no recorded exit code.
- The exit system call, which records an exit code and sets `valid`, is not part of this model. `Lifecycle.ExitOwn` states what `process_exit` does with a recorded code.
- Locks and semaphores are left out. A wait on a child that has not exited returns `Blocked` with no change and is taken again after the child exits. In the C code `parent_waited` is set before blocking, which no other step can observe. `ref_count` is read after its lock is released in `process_exit`, and that race is not expressible in a sequential model.
- Closing the working directory, `dir_reopen` and `dir_open_root` are left out.
- `printf` diagnostics and the unused semaphore `temporary` are left out.
