/** The platform state `setup.c` writes once at boot: the static command-line
    buffer and the three layout globals, with `_mb_init_mem` and the call
    order of `_libkvmplat_entry`. */
module Setup {
  import opened Bytes
  import opened Multiboot
  import opened MemoryMap
  import opened Layout
  import Cmdline

  /** The calls `_libkvmplat_entry` makes, in order. The ones whose code is
      not part of this model (console, CPU, the stack switch, the
      platform-independent entry) appear only as steps. */
  datatype Step =
    | InitConsole                      // _libkvmplat_init_console()
    | InitCpuFeatures                  // _init_cpufeatures()
    | InitCpu                          // cpu_init()
    | CopyCmdline                      // _mb_get_cmdline(mi, cmdline, sizeof(cmdline))
    | ScanMemory                       // _mb_init_mem(mi)
    | AssertFailed(reason: Fatal)      // a UK_ASSERT of _mb_init_mem fired: the boot stops
    | NewStack(stackStart: nat)        // _libkvmplat_newstack(mem_end, _libkvmplat_entry2, 0)
    | PlatformEntry(args: seq<Byte>)   // _libkvmplat_entry2: ukplat_entry_argp(NULL, cmdline, sizeof(cmdline))

  class Platform {
    /** static char cmdline[MAX_CMDLINE_SIZE] */
    const cmdline: array<Byte>
    /** _libkvmplat_heap_start, _libkvmplat_stack_top, _libkvmplat_mem_end */
    var heapStart: nat
    var stackTop: nat
    var memEnd: nat

    ghost predicate Valid() {
      cmdline.Length == Cmdline.MaxCmdlineSize
    }

    /** Static storage starts zeroed. */
    constructor ()
      ensures Valid() && fresh(cmdline)
      ensures forall i :: 0 <= i < cmdline.Length ==> cmdline[i] == 0
      ensures heapStart == 0 && stackTop == 0 && memEnd == 0
    {
      cmdline := new Byte[Cmdline.MaxCmdlineSize](_ => 0);
      heapStart, stackTop, memEnd := 0, 0, 0;
    }

    /** `_mb_init_mem(mi)`: find the region, cap it, check the image fits,
        then set the three globals. `imageEnd` is `&_end`, `pageSize` is
        __PAGE_SIZE, `stackSize` is __STACK_SIZE. A failed UK_ASSERT is
        returned and leaves the globals as they were. */
    method InitMem(mi: MultibootInfo, imageEnd: nat, pageSize: nat, stackSize: nat)
      returns (failed: Option<Fatal>)
      requires ScanInBounds(mi.mmap, mi.mmapLength, 0) && IsPowerOfTwo(pageSize)
      modifies this
      ensures match MemLayout(mi.mmap, mi.mmapLength, imageEnd, pageSize, stackSize)
        case Laid(l) =>
          failed == None && heapStart == l.heapStart && stackTop == l.stackTop && memEnd == l.memEnd
        case Halted(f) =>
          failed == Some(f) && heapStart == old(heapStart) && stackTop == old(stackTop) && memEnd == old(memEnd)
    {
      var offset := ScanMemoryMap(mi.mmap, mi.mmapLength);
      // UK_ASSERT(offset < mi->mmap_length)
      if offset >= mi.mmapLength {
        return Some(NoMemoryAtStart);
      }
      var maxAddr := (EntryAddr(mi.mmap, offset) + EntryLen(mi.mmap, offset)) % Word;
      if maxAddr > PlatformMaxMemAddr {
        maxAddr := PlatformMaxMemAddr;
      }
      // UK_ASSERT((size_t)&_end <= max_addr)
      if imageEnd > maxAddr {
        return Some(ImageBeyondMemEnd);
      }
      heapStart := AlignUp(imageEnd, pageSize);
      memEnd := maxAddr;
      stackTop := (maxAddr - stackSize) % Word;
      failed := None;
    }

    /** `_libkvmplat_entry(mi)`: the command line is copied out before the
        memory layout is committed, and the stack switch is the last step,
        handing the command-line buffer to the platform-independent entry. */
    method Entry(mi: MultibootInfo, imageEnd: nat, pageSize: nat, stackSize: nat, ukName: seq<Byte>)
      returns (steps: seq<Step>, log: seq<Cmdline.Diagnostic>)
      requires Valid()
      requires Cmdline.CmdlineSourceOk(mi, Cmdline.MaxCmdlineSize, ukName)
      requires ScanInBounds(mi.mmap, mi.mmapLength, 0) && IsPowerOfTwo(pageSize)
      modifies this, cmdline
      ensures var img := Cmdline.CmdlineImage(mi, Cmdline.MaxCmdlineSize, ukName);
        cmdline[..] == img + old(cmdline[..])[|img|..]
      ensures log == Cmdline.CmdlineMessages(mi, Cmdline.MaxCmdlineSize, ukName)
      ensures match MemLayout(mi.mmap, mi.mmapLength, imageEnd, pageSize, stackSize)
        case Laid(l) =>
          && heapStart == l.heapStart && stackTop == l.stackTop && memEnd == l.memEnd
          && steps == [InitConsole, InitCpuFeatures, InitCpu, CopyCmdline, ScanMemory,
                       NewStack(l.memEnd), PlatformEntry(cmdline[..])]
        case Halted(f) =>
          && heapStart == old(heapStart) && stackTop == old(stackTop) && memEnd == old(memEnd)
          && steps == [InitConsole, InitCpuFeatures, InitCpu, CopyCmdline, ScanMemory, AssertFailed(f)]
    {
      steps := [InitConsole, InitCpuFeatures, InitCpu];
      log := Cmdline.GetCmdline(mi, cmdline, Cmdline.MaxCmdlineSize, ukName);
      steps := steps + [CopyCmdline];
      var failed := InitMem(mi, imageEnd, pageSize, stackSize);
      steps := steps + [ScanMemory];
      if failed.Some? {
        steps := steps + [AssertFailed(failed.value)];
        return;
      }
      steps := steps + [NewStack(memEnd), PlatformEntry(cmdline[..])];
    }
  }
}
