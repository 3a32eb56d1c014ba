# Unikraft KVM x86 early boot: command line and memory layout

This project models `plat/kvm/x86/setup.c`, the first C code a Unikraft
guest runs on KVM/x86 after the Multiboot loader hands over. Before
anything else, `_libkvmplat_entry` does two things with the Multiboot
information structure. It copies the boot command line into the static
`cmdline[MAX_CMDLINE_SIZE]` buffer (`_mb_get_cmdline`). It walks the
Multiboot memory map to find the RAM region loaded at 1 MiB, and from it
sets the three globals `_libkvmplat_heap_start`, `_libkvmplat_mem_end` and
`_libkvmplat_stack_top` (`_mb_init_mem`). Finally it switches to the new
stack at the end of memory.

Modules:

- `Bytes`: bytes, the u32/u64 ranges, little-endian decoding and encoding.
- `Multiboot`: the fields of the information structure the code reads.
  Also the 24-byte memory-map entry of section 3.3 of the Multiboot
  Specification 0.6.96: `size`, `base_addr`, `length`, `type`, with a
  stride of `size + 4`.
- `Cmdline`: `_mb_get_cmdline`. It is a method over an `array` of bytes
  and is proved against `CmdlineImage`, which gives the bytes written, and
  `CmdlineMessages`, which gives the diagnostics emitted.
- `MemoryMap`: the stride walk of `_mb_init_mem`. It is a `while` loop
  proved against the specification function `FirstMatch`. A reference
  view treats the map as a list of entries that carry their own `size`.
  The walk over the encoded list is proved to find the list's first
  matching entry.
- `Layout`: the cap at `PLATFORM_MAX_MEM_ADDR`, `ALIGN_UP`, the stack-top
  subtraction and the two `UK_ASSERT`s. Together they form the
  specification function `MemLayout`.
- `Setup`: class `Platform`. It holds the `cmdline` buffer and the three
  globals. `InitMem` models `_mb_init_mem`, which assigns them in place.
  `Entry` models `_libkvmplat_entry` and records its calls in order as a
  sequence of `Step`s.
- `Scenarios`: concrete boots stated as lemmas.

Each failed `UK_ASSERT` is an explicit result: `Halted(NoMemoryAtStart)`,
`Halted(ImageBeyondMemEnd)`, or `Some(reason)` from `InitMem`. Some values come from the linker script and
from headers outside this model, so they are parameters:

- `_end` is `imageEnd`;
- `__PAGE_SIZE` is `pageSize`, which must be a power of two;
- `__STACK_SIZE` is `stackSize`;
- `UK_NAME` is `ukName`.

Physical addresses are not dereferenced. Instead, the model speaks of the
bytes found at `mi->cmdline` and at `mi->mmap_addr`.

`size_t` arithmetic is written out where it can wrap modulo 2^64:

- `m->addr + m->len` (`CappedEnd`);
- `max_addr - __STACK_SIZE` (`StackTop`).

The loop's `offset` cannot wrap. It stays below 2^32 before each step, and
a step adds at most 2^32 + 3.

The model follows the code in these places:

- **The heap and the stack may overlap.** The code never checks that
  `heap_start <= stack_top`, and the model does not claim it.
  `OrderedWhenStackFits` states when the two are in order.
  `StackMayUndercutHeap` gives a region where they are not.
- **`mem_end` is not page-aligned.** It is the capped region end as is.
- **The cap applies only to a region that reaches past `PLATFORM_MAX_MEM_ADDR`.**
  A region that ends below 0x40000000 sets `mem_end` to its own end.
  For example, 0x3F00_0000 bytes at 1 MiB end at 0x3F10_0000
  (`Scenarios.ShortRegionLayout`).
- **The memory-map flag is not tested.** The code never checks the
  `MULTIBOOT_INFO_MEM_MAP` flag, so the model never reads it.
- **The new stack starts at `mem_end`.** The code switches to the stack at
  `_libkvmplat_mem_end`, not at `_libkvmplat_stack_top`, and
  `Setup.Platform.Entry` records exactly that.
- **The walk trusts the map's bounds.** The code reads every entry whose
  offset is below `mmap_length` without checking that all 24 of its bytes
  lie inside the map. The model therefore requires `ScanInBounds` of its
  caller.

## Model

| member | source | states |
|---|---|---|
| Multiboot.HasCmdline | plat/kvm/x86/setup.c:59 | the flag test `mi->flags & MULTIBOOT_INFO_CMDLINE` holds exactly when bit 2 of the flags is set |
| Multiboot.EntrySize | plat/kvm/x86/setup.c:89 | body: `m->size`, the little-endian u32 at bytes 0-3 of the entry |
| Multiboot.EntryAddr | plat/kvm/x86/setup.c:91 | body: `m->addr`, the little-endian u64 at bytes 4-11 of the entry |
| Multiboot.EntryLen | plat/kvm/x86/setup.c:102 | body: `m->len`, the little-endian u64 at bytes 12-19 of the entry |
| Multiboot.EntryType | plat/kvm/x86/setup.c:92 | body: `m->type`, the little-endian u32 at bytes 20-23 of the entry |
| MemoryMap.IsMatch | plat/kvm/x86/setup.c:91-92 | body: the break test, true exactly when the entry's `addr` is 0x100000 and its `type` is 1 (available) |
| Cmdline.CmdlineSourceOk | plat/kvm/x86/setup.c:59-76 | body: what a caller must supply: `maxlen >= 1`; with the flag set, the command line `strlen` reads contains a NUL; with it clear, `UK_NAME` has no NUL and it fits, NUL included, in `maxlen` bytes, since `strcpy` does not check |
| Multiboot.NextEntry | plat/kvm/x86/setup.c:88-89 | the next entry's offset is at least 4 bytes beyond the current one, so the walk advances on every step |
| MemoryMap.FirstMatch | plat/kvm/x86/setup.c:88-95 | the offset where the walk stops is at or after `off`, below `mmap_length`, and inside memory, and the entry there is available RAM at `PLATFORM_MEM_START` |
| MemoryMap.FirstMatchIsFirst | plat/kvm/x86/setup.c:88-95 | the walk stops at `o` if and only if `o` is reached by stepping over non-matching entries below `mmap_length` and the entry at `o` matches (the first-match rule) |
| MemoryMap.NoMatchMeansNoneReached | plat/kvm/x86/setup.c:88-96 | the walk finds nothing if and only if no entry it can reach matches, which is the case where the first assertion fires |
| MemoryMap.FirstMatchIgnoresLaterBytes | plat/kvm/x86/setup.c:88-95 | once a match is found, no later byte of memory affects the result: two memories that agree up to the end of the matched entry give the same walk |
| MemoryMap.ScanMemoryMap | plat/kvm/x86/setup.c:88-95 | the loop terminates; its final `offset` is below `mmap_length` exactly when a match exists, and it is then the first match; all entries before it were stepped over |
| MemoryMap.FirstMatchingEntry | plat/kvm/x86/setup.c:91-92 | on the list view: the index of the first entry with base `PLATFORM_MEM_START` and type available, with no earlier entry matching, or None when no entry matches |
| MemoryMap.DecodeEntry | plat/kvm/x86/setup.c:89-92 | the `size`, `addr`, `len` and `type` read at an encoded entry are that entry's fields, whatever memory follows |
| MemoryMap.ScanFindsFirstMatchingEntry | plat/kvm/x86/setup.c:88-95 | walking the bytes of an encoded list of entries stops at the byte offset of the list's first matching entry, or finds nothing when none matches |
| Cmdline.StrLen | plat/kvm/x86/setup.c:61 | `strlen` is the index of the first NUL: the byte there is NUL and no byte before it is |
| Cmdline.StrLenIsFirstNul | plat/kvm/x86/setup.c:61 | any NUL with no NUL before it is the one `strlen` finds |
| Cmdline.CopyLength | plat/kvm/x86/setup.c:61-67 | the copied length is below `maxlen` and at most `strlen`; it equals `strlen` unless `strlen >= maxlen`, in which case it is `maxlen - 1` |
| Cmdline.CmdlineImage | plat/kvm/x86/setup.c:59-76 | the bytes written are between 1 and `maxlen` long, end in a NUL, and hold no NUL before it |
| Cmdline.CmdlineMessages | plat/kvm/x86/setup.c:63-67 | at most one diagnostic: "no command line" exactly when the flag is clear, and "truncated" exactly when the flag is set and `strlen >= maxlen` |
| Cmdline.GetCmdline | plat/kvm/x86/setup.c:53-77 | the buffer afterwards holds the image followed by its old contents, so nothing at or beyond `maxlen` and nothing after the terminator is written; the diagnostics are those above |
| Cmdline.ExtractedString | plat/kvm/x86/setup.c:68-75 | read back as a C string, the buffer gives `UK_NAME` when the flag is clear, the whole command line when it fits, and its first `maxlen - 1` bytes otherwise, whatever follows the terminator |
| Cmdline.FitsCopiedWhole | plat/kvm/x86/setup.c:59-72 | flag set and `L < maxlen`: the first L bytes are the source, byte L is NUL, and no diagnostic is emitted |
| Cmdline.LongTruncated | plat/kvm/x86/setup.c:63-72 | flag set and `L >= maxlen`: exactly `maxlen - 1` source bytes, NUL at `maxlen - 1`, and exactly one truncation diagnostic |
| Cmdline.AbsentGivesDefault | plat/kvm/x86/setup.c:73-76 | flag clear: `UK_NAME` and a NUL, and exactly one "no command line" diagnostic |
| Layout.AlignUp | plat/kvm/x86/setup.c:107 | the result is a multiple of the alignment, at least the value, and below the value plus the alignment |
| Layout.CappedEnd | plat/kvm/x86/setup.c:102-104 | the minimum of `addr + len` (mod 2^64) and `PLATFORM_MAX_MEM_ADDR` |
| Layout.StackTop | plat/kvm/x86/setup.c:109 | `max_addr - __STACK_SIZE` in 64-bit arithmetic: the plain difference when the stack fits, and 2^64 minus the shortfall when it does not |
| Layout.MemLayout | plat/kvm/x86/setup.c:96-109 | halts with the first assertion exactly when no entry matches; halts with the second exactly when `_end` is above the capped end; otherwise `mem_end` is the capped end, `_end <= mem_end <= PLATFORM_MAX_MEM_ADDR`, the heap start is page-aligned in `[_end, _end + page)`, and the stack top is `mem_end - __STACK_SIZE` (wrapped) |
| Layout.OrderedWhenStackFits | plat/kvm/x86/setup.c:107-109 | when the stack fits above the aligned heap start, `_end <= heap_start <= stack_top < mem_end` |
| Setup.Platform.constructor | plat/kvm/x86/setup.c:43-48 | the static buffer has `MAX_CMDLINE_SIZE` bytes, all zero, and the globals start at zero |
| Setup.Platform.InitMem | plat/kvm/x86/setup.c:79-110 | on success the three globals are set to the layout of `MemLayout`; when an assertion fires, the reason is returned and the globals are unchanged |
| Setup.Platform.Entry | plat/kvm/x86/setup.c:131-159 | console, CPU features and CPU come first, then the command-line copy, then the memory scan; on success the stack switch to `mem_end` hands over the buffer, and on a failed assertion nothing follows; the buffer and globals are as above |
| Scenarios.OneRegionLayout | plat/kvm/x86/setup.c:88-109 | a map of one available region at 1 MiB yields the capped end of that region, or halts when `_end` lies above it |
| Scenarios.FullRegionLayout | plat/kvm/x86/setup.c:102-109 | a 1 GiB − 1 MiB region at 1 MiB with `_end` = 0x150000 and 4 KiB pages gives heap 0x150000, mem_end 0x40000000, and stack top 0x40000000 − `__STACK_SIZE` |
| Scenarios.ShortRegionLayout | plat/kvm/x86/setup.c:102-109 | a 0x3F000000-byte region at 1 MiB ends at 0x3F100000, below the cap, so mem_end is 0x3F100000, the heap starts at 0x150000 and the stack top is 0x3F100000 − `__STACK_SIZE` |
| Scenarios.ReservedRegionHalts | plat/kvm/x86/setup.c:91-96 | a region at 1 MiB that is not available RAM makes the first assertion fire |
| Scenarios.StackMayUndercutHeap | plat/kvm/x86/setup.c:107-109 | a concrete region where the computed stack top lies below the heap start: the code does not order them |
| Scenarios.ShortCmdlineCopied | plat/kvm/x86/setup.c:59-72 | the command line "boot=verbose" is copied whole with its terminator and no diagnostic |

## Left out

- `_init_cpufeatures` (`fninit`, `ldmxcsr`) is left out: it is inline assembly with only a hardware effect. It appears as the step `InitCpuFeatures`.
- `_libkvmplat_init_console` and `cpu_init` are left out: their code is not part of this model. They appear only as the steps `InitConsole` and `InitCpu`.
- `_libkvmplat_newstack` and `_libkvmplat_entry2` are not modelled: they are an assembly stack switch and a call into `ukplat_entry_argp`. They appear as the steps `NewStack(mem_end)` and `PlatformEntry(buffer)`.
- `uk_printd` output is kept only as the list of command-line diagnostics. The formatted address printouts of `_libkvmplat_entry` are left out.
- Pointer casts and reads of physical memory are replaced by byte sequences. Any aliasing between the command-line or memory-map memory and the `cmdline` buffer or the globals is not modelled.
- Layout.AlignUp: `(v + a - 1) & ~(a - 1)` is modelled as rounding up to the next multiple of `a`. The bit-mask identity for a power-of-two `a` is not proved at the bit level, and the 64-bit wrap of `v + a - 1` for `_end` near 2^64 is not modelled.
- `strcpy(cmdline, UK_NAME)` does not check the buffer size. The model requires `UK_NAME` with its NUL to fit in `maxlen` bytes, rather than modelling an overflow.
- `UK_ASSERT` is taken to be compiled in. With assertions compiled out, the code goes on after a failed scan and builds a layout anyway. It uses the last entry it read, or an uninitialised `m` when `mmap_length` is 0 (setup.c:82, 88-102). Likewise, it goes on with `_end` above `mem_end`. The model does not cover either case.
- A `UK_ASSERT` that fires stops the boot. The model returns the reason instead, and whatever the real assertion handler does afterwards is not modelled.
