/** The memory layout `_mb_init_mem` derives from the matched region: the
    cap at the top of the statically mapped range, the page-aligned heap
    start, the end of memory and the stack top. */
module Layout {
  import opened Bytes
  import opened Multiboot
  import opened MemoryMap

  /** PLATFORM_MAX_MEM_ADDR: the boot page tables map memory up to here. */
  const PlatformMaxMemAddr: nat := 0x4000_0000

  datatype MemoryLayout = MemoryLayout(heapStart: nat, stackTop: nat, memEnd: nat)

  /** The two UK_ASSERTs of `_mb_init_mem`. */
  datatype Fatal =
    | NoMemoryAtStart     // no available region at PLATFORM_MEM_START below mmap_length
    | ImageBeyondMemEnd   // `_end` lies above the capped end of that region

  datatype LayoutResult = Laid(layout: MemoryLayout) | Halted(reason: Fatal)

  predicate IsPowerOfTwo(n: nat)
    decreases n
  {
    n == 1 || (n >= 2 && n % 2 == 0 && IsPowerOfTwo(n / 2))
  }

  /** ALIGN_UP(v, a) = (v + a - 1) & ~(a - 1): for a power of two `a`,
      clearing the low bits subtracts the remainder modulo `a`. */
  function AlignUp(v: nat, a: nat): (r: nat)
    requires a > 0
    ensures r % a == 0
    ensures v <= r < v + a
  {
    var q := (v + a - 1) / a;
    MultipleIsAligned(q, a);
    q * a
  }

  lemma MultipleIsAligned(q: nat, a: nat)
    requires a > 0
    ensures (q * a) % a == 0
  {
    var x := q * a;
    var d, m := x / a, x % a;
    assert x == a * d + m && 0 <= m < a;
    var k := q - d;
    assert a * k == m by {
      assert a * k == a * q - a * d;
    }
  }

  /** `max_addr = m->addr + m->len` in size_t arithmetic (it may wrap),
      then lowered to PLATFORM_MAX_MEM_ADDR: the minimum of the two. */
  function CappedEnd(addr: nat, len: nat): (e: nat)
    ensures e <= PlatformMaxMemAddr && e <= (addr + len) % Word
    ensures e == PlatformMaxMemAddr || e == (addr + len) % Word
  {
    var maxAddr := (addr + len) % Word;
    if maxAddr > PlatformMaxMemAddr then PlatformMaxMemAddr else maxAddr
  }

  /** `max_addr - __STACK_SIZE` in size_t arithmetic: the plain difference
      when the stack fits below `max_addr`, wrapped around otherwise. */
  function StackTop(memEnd: nat, stackSize: nat): (t: nat)
    ensures t < Word
    ensures stackSize <= memEnd < Word ==> t == memEnd - stackSize
    ensures memEnd < stackSize <= Word ==> t == Word - (stackSize - memEnd)
  {
    (memEnd - stackSize) % Word
  }

  /** The layout `_mb_init_mem` computes, or the assertion that stops it.
      `imageEnd` is `&_end`, `pageSize` is __PAGE_SIZE, `stackSize` is
      __STACK_SIZE. */
  function MemLayout(mmap: seq<Byte>, mmapLength: U32, imageEnd: nat, pageSize: nat, stackSize: nat)
    : (r: LayoutResult)
    requires ScanInBounds(mmap, mmapLength, 0) && IsPowerOfTwo(pageSize)
    ensures r == Halted(NoMemoryAtStart) <==> FirstMatch(mmap, mmapLength, 0).None?
    ensures r == Halted(ImageBeyondMemEnd) <==>
      var m := FirstMatch(mmap, mmapLength, 0);
      m.Some? && imageEnd > CappedEnd(EntryAddr(mmap, m.value), EntryLen(mmap, m.value))
    ensures r.Laid? ==>
      var o, l := FirstMatch(mmap, mmapLength, 0).value, r.layout;
      && l.memEnd == CappedEnd(EntryAddr(mmap, o), EntryLen(mmap, o))
      && imageEnd <= l.memEnd <= PlatformMaxMemAddr
      && l.heapStart % pageSize == 0 && imageEnd <= l.heapStart < imageEnd + pageSize
      && (stackSize <= l.memEnd ==> l.stackTop == l.memEnd - stackSize)
      && (l.memEnd < stackSize <= Word ==> l.stackTop == Word - (stackSize - l.memEnd))
  {
    match FirstMatch(mmap, mmapLength, 0)
    case None => Halted(NoMemoryAtStart)
    case Some(o) =>
      var maxAddr := CappedEnd(EntryAddr(mmap, o), EntryLen(mmap, o));
      if imageEnd > maxAddr then Halted(ImageBeyondMemEnd)
      else Laid(MemoryLayout(AlignUp(imageEnd, pageSize), StackTop(maxAddr, stackSize), maxAddr))
  }

  /** The source never checks that the heap and the stack are in order; they
      are when the aligned heap start leaves room for the stack. */
  lemma OrderedWhenStackFits(mmap: seq<Byte>, mmapLength: U32, imageEnd: nat, pageSize: nat, stackSize: nat)
    requires ScanInBounds(mmap, mmapLength, 0) && IsPowerOfTwo(pageSize)
    requires var r := MemLayout(mmap, mmapLength, imageEnd, pageSize, stackSize);
      r.Laid? && 0 < stackSize && r.layout.heapStart + stackSize <= r.layout.memEnd
    ensures var l := MemLayout(mmap, mmapLength, imageEnd, pageSize, stackSize).layout;
      imageEnd <= l.heapStart <= l.stackTop < l.memEnd
  {
  }
}
