/** The part of the Multiboot information structure the setup code reads
    (section 3.3 of the Multiboot Specification 0.6.96, "Boot information
    format"), and the fields of one memory-map entry. */
module Multiboot {
  import opened Bytes

  /** Bit 2 of `flags`: `cmdline` holds the address of a command line. */
  const InfoCmdline: bv32 := 0x0000_0004

  /** The `type` value of a memory-map entry that describes available RAM. */
  const MemoryAvailable: nat := 1

  /** Every memory-map entry is read as a packed `{size: u32; base_addr: u64;
      length: u64; type: u32}`, 24 bytes; `size` does not count itself. */
  const EntryBytes: nat := 24

  /** The boot information as this layer sees it. Physical addresses are
      replaced by the memory they point to: `cmdline` is the memory from the
      command-line address onwards, `mmap` the memory from `mmap_addr`
      onwards, of which `mmapLength` bytes belong to the map. */
  datatype MultibootInfo = MultibootInfo(
    flags: bv32,
    cmdline: seq<Byte>,
    mmapLength: U32,
    mmap: seq<Byte>)

  /** `mi->flags & MULTIBOOT_INFO_CMDLINE`: bit 2 of the flags is set. */
  predicate HasCmdline(flags: bv32)
    ensures HasCmdline(flags) <==> (flags >> 2) & 1 == 1
  {
    flags & InfoCmdline != 0
  }

  /** The entry at `off` lies wholly inside the modelled memory. */
  predicate EntryInBounds(mmap: seq<Byte>, off: nat) {
    off + EntryBytes <= |mmap|
  }

  function EntrySize(mmap: seq<Byte>, off: nat): U32
    requires EntryInBounds(mmap, off)
  {
    ReadU32(mmap, off)
  }

  function EntryAddr(mmap: seq<Byte>, off: nat): U64
    requires EntryInBounds(mmap, off)
  {
    ReadU64(mmap, off + 4)
  }

  function EntryLen(mmap: seq<Byte>, off: nat): U64
    requires EntryInBounds(mmap, off)
  {
    ReadU64(mmap, off + 12)
  }

  function EntryType(mmap: seq<Byte>, off: nat): U32
    requires EntryInBounds(mmap, off)
  {
    ReadU32(mmap, off + 20)
  }

  /** The offset of the entry after the one at `off`: the stride is the
      entry's own `size` field plus the 4 bytes of that field. */
  function NextEntry(mmap: seq<Byte>, off: nat): (next: nat)
    requires EntryInBounds(mmap, off)
    ensures next >= off + 4
  {
    off + EntrySize(mmap, off) + 4
  }
}
