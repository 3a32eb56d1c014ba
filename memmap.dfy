/** The memory-map walk of `_mb_init_mem`: the search, in stride order, for
    the first available region that starts at the fixed load address. */
module MemoryMap {
  import opened Bytes
  import opened Multiboot

  /** PLATFORM_MEM_START: the physical address the guest image is loaded at. */
  const PlatformMemStart: nat := 0x100000

  datatype Option<T> = None | Some(value: T)

  /** The entry at `off` is the one the loop stops on. */
  predicate IsMatch(mmap: seq<Byte>, off: nat)
    requires EntryInBounds(mmap, off)
  {
    EntryAddr(mmap, off) == PlatformMemStart && EntryType(mmap, off) == MemoryAvailable
  }

  /** Well-formedness of the map from `off`: every entry the walk reads
      before it stops lies inside the modelled memory. The source reads
      each entry whose offset is below `mmap_length` without checking that
      its 24 bytes are, so this is demanded of the caller. */
  predicate ScanInBounds(mmap: seq<Byte>, len: nat, off: nat)
    decreases len - off
  {
    off < len ==>
      EntryInBounds(mmap, off) && (IsMatch(mmap, off) || ScanInBounds(mmap, len, NextEntry(mmap, off)))
  }

  /** The offset at which the walk from `off` stops on a match, or None when
      it reaches `len` first. */
  function FirstMatch(mmap: seq<Byte>, len: nat, off: nat): (r: Option<nat>)
    requires ScanInBounds(mmap, len, off)
    ensures r.Some? ==> off <= r.value < len && EntryInBounds(mmap, r.value) && IsMatch(mmap, r.value)
    decreases len - off
  {
    if off >= len then None
    else if IsMatch(mmap, off) then Some(off)
    else FirstMatch(mmap, len, NextEntry(mmap, off))
  }

  /** `o` is reached from `off` by stepping over entries that lie below
      `len`, inside memory, and do not match. */
  ghost predicate Reaches(mmap: seq<Byte>, len: nat, off: nat, o: nat)
    decreases len - off
  {
    off == o ||
    (off < len && EntryInBounds(mmap, off) && !IsMatch(mmap, off) && Reaches(mmap, len, NextEntry(mmap, off), o))
  }

  ghost predicate MatchAt(mmap: seq<Byte>, len: nat, o: nat) {
    o < len && EntryInBounds(mmap, o) && IsMatch(mmap, o)
  }

  /** First-match rule: the walk stops at `o` exactly when `o` matches and
      every entry stepped over on the way from `off` does not. */
  lemma {:induction false} FirstMatchIsFirst(mmap: seq<Byte>, len: nat, off: nat, o: nat)
    requires ScanInBounds(mmap, len, off)
    ensures FirstMatch(mmap, len, off) == Some(o) <==> Reaches(mmap, len, off, o) && MatchAt(mmap, len, o)
    decreases len - off
  {
    if off < len && !IsMatch(mmap, off) {
      var next := NextEntry(mmap, off);
      FirstMatchIsFirst(mmap, len, next, o);
      if o == off {
        // `off` itself does not match, and the walk never comes back to it
        assert FirstMatch(mmap, len, next) != Some(o);
      }
    }
  }

  /** The walk fails exactly when no entry it reaches matches. */
  lemma {:induction false} NoMatchMeansNoneReached(mmap: seq<Byte>, len: nat, off: nat)
    requires ScanInBounds(mmap, len, off)
    ensures FirstMatch(mmap, len, off) == None <==> forall o :: Reaches(mmap, len, off, o) ==> !MatchAt(mmap, len, o)
  {
    if FirstMatch(mmap, len, off) == None {
      forall o | Reaches(mmap, len, off, o) ensures !MatchAt(mmap, len, o) {
        FirstMatchIsFirst(mmap, len, off, o);
      }
    } else {
      var o := FirstMatch(mmap, len, off).value;
      FirstMatchIsFirst(mmap, len, off, o);
    }
  }

  /** Nothing after the matched entry is read: any memory that agrees with
      the map up to the end of that entry gives the same answer. */
  lemma {:induction false} FirstMatchIgnoresLaterBytes(mmap: seq<Byte>, mmap': seq<Byte>, len: nat, off: nat)
    requires ScanInBounds(mmap, len, off)
    requires FirstMatch(mmap, len, off).Some?
    requires var o := FirstMatch(mmap, len, off).value;
      o + EntryBytes <= |mmap'| && mmap'[..o + EntryBytes] == mmap[..o + EntryBytes]
    ensures ScanInBounds(mmap', len, off) && FirstMatch(mmap', len, off) == FirstMatch(mmap, len, off)
    decreases len - off
  {
    var o := FirstMatch(mmap, len, off).value;
    PrefixSameEntry(mmap, mmap', off, o + EntryBytes);
    if !IsMatch(mmap, off) {
      FirstMatchIgnoresLaterBytes(mmap, mmap', len, NextEntry(mmap, off));
    }
  }

  /** Two memories that agree up to `k` decode the entries below `k` alike. */
  lemma PrefixSameEntry(mmap: seq<Byte>, mmap': seq<Byte>, off: nat, k: nat)
    requires off + EntryBytes <= k <= |mmap| && k <= |mmap'| && mmap'[..k] == mmap[..k]
    ensures EntryInBounds(mmap', off)
    ensures IsMatch(mmap', off) == IsMatch(mmap, off)
    ensures NextEntry(mmap', off) == NextEntry(mmap, off)
  {
    assert mmap[off..off + EntryBytes] == mmap[..k][off..off + EntryBytes];
    assert mmap'[off..off + EntryBytes] == mmap'[..k][off..off + EntryBytes];
    SameEntry(mmap, mmap', off, off);
  }

  /** Two memories that agree on the 24 bytes of an entry decode it alike. */
  lemma SameEntry(s: seq<Byte>, t: seq<Byte>, i: nat, j: nat)
    requires EntryInBounds(s, i) && EntryInBounds(t, j)
    requires SameBytes(s, t, i, j, EntryBytes)
    ensures EntrySize(s, i) == EntrySize(t, j) && EntryAddr(s, i) == EntryAddr(t, j)
    ensures EntryLen(s, i) == EntryLen(t, j) && EntryType(s, i) == EntryType(t, j)
  {
    SubSlice(s, t, i, j, EntryBytes, 0, 4);
    SubSlice(s, t, i, j, EntryBytes, 4, 8);
    SubSlice(s, t, i, j, EntryBytes, 12, 8);
    SubSlice(s, t, i, j, EntryBytes, 20, 4);
    SameBytesU32(s, t, i, j);
    SameBytesU64(s, t, i + 4, j + 4);
    SameBytesU64(s, t, i + 12, j + 12);
    SameBytesU32(s, t, i + 20, j + 20);
  }

  /** The loop of `_mb_init_mem`, from `offset = 0` to the break or to
      `offset >= mmap_length`. The result is the final `offset`; it is below
      `mmapLength` exactly when a matching entry was found, and then it is
      that entry's offset. */
  method ScanMemoryMap(mmap: seq<Byte>, mmapLength: U32) returns (offset: nat)
    requires ScanInBounds(mmap, mmapLength, 0)
    ensures offset < mmapLength <==> FirstMatch(mmap, mmapLength, 0).Some?
    ensures offset < mmapLength ==> FirstMatch(mmap, mmapLength, 0) == Some(offset)
    ensures Reaches(mmap, mmapLength, 0, offset)
  {
    offset := 0;
    while offset < mmapLength
      invariant ScanInBounds(mmap, mmapLength, offset)
      invariant FirstMatch(mmap, mmapLength, offset) == FirstMatch(mmap, mmapLength, 0)
      invariant Reaches(mmap, mmapLength, 0, offset)
      decreases mmapLength - offset
    {
      if IsMatch(mmap, offset) {
        break;
      }
      ReachesStep(mmap, mmapLength, 0, offset);
      offset := offset + EntrySize(mmap, offset) + 4;
    }
  }

  /** Extending a walk by one non-matching entry. */
  lemma {:induction false} ReachesStep(mmap: seq<Byte>, len: nat, off: nat, o: nat)
    requires Reaches(mmap, len, off, o)
    requires o < len && EntryInBounds(mmap, o) && !IsMatch(mmap, o)
    ensures Reaches(mmap, len, off, NextEntry(mmap, o))
    decreases len - off
  {
    if off != o {
      ReachesStep(mmap, len, NextEntry(mmap, off), o);
    }
  }

  // ---------------------------------------------------------------------
  // A reference view: the map as a list of entries, each carrying its own
  // size field (at least 20, so that entries do not overlap).

  datatype MmapEntry = MmapEntry(size: U32, addr: U64, len: U64, kind: U32)

  predicate WellSized(es: seq<MmapEntry>) {
    forall i :: 0 <= i < |es| ==> es[i].size >= 20
  }

  function Zeros(n: nat): (z: seq<Byte>)
    ensures |z| == n && forall i :: 0 <= i < n ==> z[i] == 0
  {
    if n == 0 then [] else [0 as Byte] + Zeros(n - 1)
  }

  /** The bytes of one entry: its four fields and `size - 20` bytes of
      padding, `size + 4` bytes in all. */
  function EncodeEntry(e: MmapEntry): (s: seq<Byte>)
    requires e.size >= 20
    ensures |s| == e.size + 4
  {
    EncodeU32(e.size) + EncodeU64(e.addr) + EncodeU64(e.len) + EncodeU32(e.kind) + Zeros(e.size - 20)
  }

  function EncodeMap(es: seq<MmapEntry>): (s: seq<Byte>)
    requires WellSized(es)
  {
    if es == [] then [] else EncodeEntry(es[0]) + EncodeMap(es[1..])
  }

  predicate EntryMatches(e: MmapEntry) {
    e.addr == PlatformMemStart && e.kind == MemoryAvailable
  }

  /** The index of the first entry of the list at the load address that is
      available. */
  function FirstMatchingEntry(es: seq<MmapEntry>): (r: Option<nat>)
    ensures r.Some? ==>
              r.value < |es| && EntryMatches(es[r.value]) && forall j :: 0 <= j < r.value ==> !EntryMatches(es[j])
    ensures r.None? ==> forall j :: 0 <= j < |es| ==> !EntryMatches(es[j])
  {
    if es == [] then None
    else if EntryMatches(es[0]) then Some(0)
    else match FirstMatchingEntry(es[1..])
      case None => None
      case Some(i) => Some(i + 1)
  }

  /** The byte offset of entry `i`: the sum of the strides before it. */
  function OffsetOf(es: seq<MmapEntry>, i: nat): nat
    requires WellSized(es) && i <= |es|
  {
    if i == 0 then 0 else es[0].size + 4 + OffsetOf(es[1..], i - 1)
  }

  function Shift(r: Option<nat>, k: nat): Option<nat> {
    match r
    case None => None
    case Some(o) => Some(o + k)
  }

  /** The fields read at the start of an encoded entry are the entry's. */
  lemma DecodeEntry(e: MmapEntry, rest: seq<Byte>)
    requires e.size >= 20
    ensures var s := EncodeEntry(e) + rest;
      EntryInBounds(s, 0) && EntrySize(s, 0) == e.size && EntryAddr(s, 0) == e.addr
      && EntryLen(s, 0) == e.len && EntryType(s, 0) == e.kind
  {
    var a, b, c, d := EncodeU32(e.size), EncodeU64(e.addr), EncodeU64(e.len), EncodeU32(e.kind);
    var z := Zeros(e.size - 20);
    Regroup(a, b, c, d, z, rest);
    DecodeEncodedU32([], e.size, b + c + d + (z + rest));
    DecodeEncodedU64(a, e.addr, c + d + (z + rest));
    DecodeEncodedU64(a + b, e.len, d + (z + rest));
    DecodeEncodedU32(a + b + c, e.kind, z + rest);
  }

  /** The bytes of an entry followed by more memory, grouped around each field. */
  lemma Regroup(a: seq<Byte>, b: seq<Byte>, c: seq<Byte>, d: seq<Byte>, z: seq<Byte>, r: seq<Byte>)
    ensures var s := a + b + c + d + z + r;
      && s == [] + a + (b + c + d + (z + r))
      && s == a + b + (c + d + (z + r))
      && s == (a + b) + c + (d + (z + r))
      && s == (a + b + c) + d + (z + r)
  {
  }

  /** An entry read behind `pre` is the entry read without it. */
  lemma EntryShift(pre: seq<Byte>, s: seq<Byte>, off: nat)
    requires EntryInBounds(s, off)
    ensures EntryInBounds(pre + s, |pre| + off)
    ensures IsMatch(pre + s, |pre| + off) == IsMatch(s, off)
    ensures NextEntry(pre + s, |pre| + off) == |pre| + NextEntry(s, off)
  {
    var t, k := pre + s, |pre| + off;
    assert t[k..k + EntryBytes] == s[off..off + EntryBytes];
    SameEntry(t, s, k, off);
  }

  /** Placing bytes in front of the map shifts the walk and its answer. */
  lemma {:induction false} FirstMatchShift(pre: seq<Byte>, s: seq<Byte>, n: nat, off: nat)
    requires ScanInBounds(s, n, off)
    ensures ScanInBounds(pre + s, |pre| + n, |pre| + off)
    ensures FirstMatch(pre + s, |pre| + n, |pre| + off) == Shift(FirstMatch(s, n, off), |pre|)
    decreases n - off
  {
    if off < n {
      EntryShift(pre, s, off);
      if !IsMatch(s, off) {
        FirstMatchShift(pre, s, n, NextEntry(s, off));
      }
    }
  }

  /** The first entry of an encoded list, read from the map's bytes. */
  lemma HeadEntry(es: seq<MmapEntry>, rest: seq<Byte>)
    requires WellSized(es) && es != []
    ensures var s := EncodeMap(es) + rest;
      s == EncodeEntry(es[0]) + (EncodeMap(es[1..]) + rest)
      && |EncodeMap(es)| == es[0].size + 4 + |EncodeMap(es[1..])|
      && EntryInBounds(s, 0) && IsMatch(s, 0) == EntryMatches(es[0])
      && NextEntry(s, 0) == es[0].size + 4
  {
    DecodeEntry(es[0], EncodeMap(es[1..]) + rest);
  }

  /** Stepping over a first entry that does not match. */
  lemma StepOverHead(es: seq<MmapEntry>, rest: seq<Byte>)
    requires WellSized(es) && es != [] && !EntryMatches(es[0])
    requires ScanInBounds(EncodeMap(es) + rest, |EncodeMap(es)|, es[0].size + 4)
    ensures ScanInBounds(EncodeMap(es) + rest, |EncodeMap(es)|, 0)
    ensures FirstMatch(EncodeMap(es) + rest, |EncodeMap(es)|, 0)
         == FirstMatch(EncodeMap(es) + rest, |EncodeMap(es)|, es[0].size + 4)
  {
    HeadEntry(es, rest);
  }

  /** The walk from the second entry is the walk over the rest of the list,
      shifted by the first entry's stride. */
  lemma WalkTail(es: seq<MmapEntry>, rest: seq<Byte>, whole: seq<Byte>, wholeLen: nat, tail: seq<Byte>, tailLen: nat)
    requires WellSized(es) && es != []
    requires whole == EncodeMap(es) + rest && wholeLen == |EncodeMap(es)|
    requires tail == EncodeMap(es[1..]) + rest && tailLen == |EncodeMap(es[1..])|
    requires ScanInBounds(tail, tailLen, 0)
    ensures ScanInBounds(whole, wholeLen, es[0].size + 4)
    ensures FirstMatch(whole, wholeLen, es[0].size + 4) == Shift(FirstMatch(tail, tailLen, 0), es[0].size + 4)
  {
    SplitMap(es, rest);
    FirstMatchShiftFrom(EncodeEntry(es[0]), tail, tailLen, whole, wholeLen, es[0].size + 4);
  }

  lemma SplitMap(es: seq<MmapEntry>, rest: seq<Byte>)
    requires WellSized(es) && es != []
    ensures EncodeMap(es) + rest == EncodeEntry(es[0]) + (EncodeMap(es[1..]) + rest)
    ensures |EncodeMap(es)| == es[0].size + 4 + |EncodeMap(es[1..])|
  {
    var h, t := EncodeEntry(es[0]), EncodeMap(es[1..]);
    assert EncodeMap(es) == h + t;
    ConcatAssoc(h, t, rest);
  }

  /** FirstMatchShift, for a map already split into a head and a tail. */
  lemma FirstMatchShiftFrom(pre: seq<Byte>, s: seq<Byte>, n: nat, t: seq<Byte>, len: nat, k: nat)
    requires ScanInBounds(s, n, 0) && t == pre + s && len == |pre| + n && k == |pre|
    ensures ScanInBounds(t, len, k)
    ensures FirstMatch(t, len, k) == Shift(FirstMatch(s, n, 0), k)
  {
    FirstMatchShift(pre, s, n, 0);
  }

  /** The byte offset of the first matching entry of the list. */
  function MatchOffset(es: seq<MmapEntry>): Option<nat>
    requires WellSized(es)
  {
    match FirstMatchingEntry(es)
    case None => None
    case Some(i) => Some(OffsetOf(es, i))
  }

  lemma MatchOffsetTail(es: seq<MmapEntry>)
    requires WellSized(es) && es != [] && !EntryMatches(es[0])
    ensures MatchOffset(es) == Shift(MatchOffset(es[1..]), es[0].size + 4)
  {
    match FirstMatchingEntry(es[1..])
    case None =>
    case Some(i) =>
      assert OffsetOf(es, i + 1) == es[0].size + 4 + OffsetOf(es[1..], i);
  }

  /** The byte-level walk over an encoded list finds the first matching
      entry of the list, at its byte offset, whatever memory follows the map. */
  lemma {:induction false} ScanFindsFirstMatchingEntry(es: seq<MmapEntry>, rest: seq<Byte>)
    requires WellSized(es)
    ensures ScanInBounds(EncodeMap(es) + rest, |EncodeMap(es)|, 0)
    ensures FirstMatch(EncodeMap(es) + rest, |EncodeMap(es)|, 0) == MatchOffset(es)
  {
    if es != [] {
      if EntryMatches(es[0]) {
        HeadEntry(es, rest);
      } else {
        ScanFindsFirstMatchingEntry(es[1..], rest);
        WalkTail(es, rest, EncodeMap(es) + rest, |EncodeMap(es)|, EncodeMap(es[1..]) + rest, |EncodeMap(es[1..])|);
        StepOverHead(es, rest);
        MatchOffsetTail(es);
      }
    }
  }
}
