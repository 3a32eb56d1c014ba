/** Worked boots: concrete memory maps and command lines run through the
    model, each stated as a lemma. */
module Scenarios {
  import opened Bytes
  import opened Multiboot
  import opened MemoryMap
  import opened Layout
  import opened Cmdline

  /** One available region at the load address. */
  function Region(base: U64, len: U64, kind: U32): MmapEntry {
    MmapEntry(20, base, len, kind)
  }

  /** A map of one entry with a 20-byte size field: 24 bytes, read back as
      that entry, matched exactly when the entry matches. */
  lemma OneEntryMap(e: MmapEntry)
    requires e.size == 20
    ensures var m := EncodeMap([e]);
      && |m| == 24 && ScanInBounds(m, 24, 0)
      && FirstMatch(m, 24, 0) == (if EntryMatches(e) then Some(0) else None)
      && EntryAddr(m, 0) == e.addr && EntryLen(m, 0) == e.len
  {
    var m := EncodeMap([e]);
    assert [e][1..] == [];
    assert m == EncodeEntry(e) + EncodeMap([]);
    assert m + [] == m;
    ScanFindsFirstMatchingEntry([e], []);
    DecodeEntry(e, []);
    assert MatchOffset([e]) == (if EntryMatches(e) then Some(0) else None);
  }

  /** The layout of a map holding one available region at the load address. */
  lemma OneRegionLayout(len: U64, imageEnd: nat, pageSize: nat, stackSize: nat)
    requires IsPowerOfTwo(pageSize)
    ensures var m := EncodeMap([Region(PlatformMemStart, len, MemoryAvailable)]);
      ScanInBounds(m, 24, 0)
      && MemLayout(m, 24, imageEnd, pageSize, stackSize)
         == var e := CappedEnd(PlatformMemStart, len);
            if imageEnd > e then Halted(ImageBeyondMemEnd)
            else Laid(MemoryLayout(AlignUp(imageEnd, pageSize), StackTop(e, stackSize), e))
  {
    OneEntryMap(Region(PlatformMemStart, len, MemoryAvailable));
  }

  /** 4 KiB, the x86 page size. */
  lemma PageSizeIsPowerOfTwo()
    ensures IsPowerOfTwo(0x1000)
  {
    assert IsPowerOfTwo(1) && IsPowerOfTwo(2) && IsPowerOfTwo(4) && IsPowerOfTwo(8);
    assert IsPowerOfTwo(0x10) && IsPowerOfTwo(0x20) && IsPowerOfTwo(0x40) && IsPowerOfTwo(0x80);
    assert IsPowerOfTwo(0x100) && IsPowerOfTwo(0x200) && IsPowerOfTwo(0x400) && IsPowerOfTwo(0x800);
  }

  /** A 1 GiB - 1 MiB region at 1 MiB, the image ending at 0x150000 and
      4 KiB pages: the heap starts at 0x150000 and memory ends at the cap. */
  lemma FullRegionLayout(stackSize: nat)
    requires stackSize <= PlatformMaxMemAddr
    ensures var es := [Region(PlatformMemStart, 0x3FF0_0000, MemoryAvailable)];
      IsPowerOfTwo(0x1000) && ScanInBounds(EncodeMap(es), 24, 0)
      && MemLayout(EncodeMap(es), 24, 0x15_0000, 0x1000, stackSize)
         == Laid(MemoryLayout(0x15_0000, PlatformMaxMemAddr - stackSize, PlatformMaxMemAddr))
  {
    PageSizeIsPowerOfTwo();
    OneRegionLayout(0x3FF0_0000, 0x15_0000, 0x1000, stackSize);
    assert PlatformMemStart + 0x3FF0_0000 == PlatformMaxMemAddr < Word;
    assert (PlatformMemStart + 0x3FF0_0000) % Word == PlatformMaxMemAddr;
    assert CappedEnd(PlatformMemStart, 0x3FF0_0000) == PlatformMaxMemAddr;
    ImageEndAligned();
    assert StackTop(PlatformMaxMemAddr, stackSize) == PlatformMaxMemAddr - stackSize;
  }

  /** An image ending on a page boundary is its own heap start. */
  lemma ImageEndAligned()
    ensures AlignUp(0x15_0000, 0x1000) == 0x15_0000
  {
    assert (0x15_0000 + 0x1000 - 1) / 0x1000 == 0x150;
  }

  /** A region of 0x3F00_0000 bytes at 1 MiB ends at 0x3F10_0000, below
      PLATFORM_MAX_MEM_ADDR: the cap does not apply and memory ends there. */
  lemma ShortRegionLayout(stackSize: nat)
    requires stackSize <= 0x3F10_0000
    ensures var es := [Region(PlatformMemStart, 0x3F00_0000, MemoryAvailable)];
      IsPowerOfTwo(0x1000) && ScanInBounds(EncodeMap(es), 24, 0)
      && MemLayout(EncodeMap(es), 24, 0x15_0000, 0x1000, stackSize)
         == Laid(MemoryLayout(0x15_0000, 0x3F10_0000 - stackSize, 0x3F10_0000))
  {
    PageSizeIsPowerOfTwo();
    OneRegionLayout(0x3F00_0000, 0x15_0000, 0x1000, stackSize);
    assert (PlatformMemStart + 0x3F00_0000) % Word == 0x3F10_0000;
    assert CappedEnd(PlatformMemStart, 0x3F00_0000) == 0x3F10_0000;
    ImageEndAligned();
    assert StackTop(0x3F10_0000, stackSize) == 0x3F10_0000 - stackSize;
  }

  /** The record at the load address is reserved, not available: the first
      assertion fires. */
  lemma ReservedRegionHalts(imageEnd: nat, stackSize: nat)
    ensures var es := [Region(PlatformMemStart, 0x3F00_0000, 2)];
      IsPowerOfTwo(0x1000) && ScanInBounds(EncodeMap(es), 24, 0)
      && MemLayout(EncodeMap(es), 24, imageEnd, 0x1000, stackSize) == Halted(NoMemoryAtStart)
  {
    PageSizeIsPowerOfTwo();
    OneEntryMap(Region(PlatformMemStart, 0x3F00_0000, 2));
  }

  /** Nothing orders the heap and the stack: a region ending on the page
      boundary just above `_end` leaves the stack top below the heap start. */
  lemma StackMayUndercutHeap()
    ensures var es := [Region(PlatformMemStart, 0x10_1000, MemoryAvailable)];
      IsPowerOfTwo(0x1000) && ScanInBounds(EncodeMap(es), 24, 0)
      && var r := MemLayout(EncodeMap(es), 24, 0x20_0001, 0x1000, 0x1_0000);
      r.Laid? && r.layout.stackTop < r.layout.heapStart
  {
    PageSizeIsPowerOfTwo();
    OneRegionLayout(0x10_1000, 0x20_0001, 0x1000, 0x1_0000);
  }

  /** "boot=verbose" as the loader leaves it: twelve bytes and a NUL. */
  function BootVerbose(): (s: seq<Byte>)
    ensures |s| == 13 && s[12] == Nul
  {
    [98, 111, 111, 116, 61, 118, 101, 114, 98, 111, 115, 101, 0]
  }

  lemma BootVerboseLength()
    ensures Nul in BootVerbose() && StrLen(BootVerbose()) == 12
  {
    var src := BootVerbose();
    assert forall i :: 0 <= i < 12 ==> src[i] != Nul;
    StrLenIsFirstNul(src, 12);
  }

  /** "boot=verbose" is copied whole, terminator at index 12, no diagnostic. */
  lemma ShortCmdlineCopied(ukName: seq<Byte>)
    ensures var mi := MultibootInfo(InfoCmdline, BootVerbose(), 0, []);
      CmdlineSourceOk(mi, MaxCmdlineSize, ukName)
      && CmdlineImage(mi, MaxCmdlineSize, ukName) == BootVerbose()
      && CmdlineMessages(mi, MaxCmdlineSize, ukName) == []
  {
    var src := BootVerbose();
    var mi := MultibootInfo(InfoCmdline, src, 0, []);
    BootVerboseLength();
    assert HasCmdline(mi.flags);
    FitsCopiedWhole(mi, MaxCmdlineSize, ukName);
    PrefixAndLast(CmdlineImage(mi, MaxCmdlineSize, ukName), src, 12);
  }

  lemma PrefixAndLast(a: seq<Byte>, b: seq<Byte>, k: nat)
    requires |a| == |b| == k + 1 && a[..k] == b[..k] && a[k] == b[k]
    ensures a == b
  {
    assert a == a[..k] + [a[k]] && b == b[..k] + [b[k]];
  }
}
