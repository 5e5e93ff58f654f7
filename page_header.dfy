/**
 * The 16-byte header every page begins with: page id, type flags, element
 * count and overflow count, all little-endian.
 */
module PageHeaders {
  import opened Wrappers
  import opened LittleEndian

  /** The page type bits. */
  const BranchPageFlag: bv16 := 0x01
  const LeafPageFlag: bv16 := 0x02
  const MetaPageFlag: bv16 := 0x04
  const FreeListPageFlag: bv16 := 0x10

  datatype PageHeader = PageHeader(id: u64, flags: u16, count: u16, overflow: u32)

  /**
   * The type predicates, each testing one bit of the flags word: bits 0, 1,
   * 2 and 4. FlagsAreMasks shows they are the source's `flags & mask != 0`.
   */
  predicate IsBranchPage(h: PageHeader) { h.flags % 2 == 1 }
  predicate IsLeafPage(h: PageHeader) { (h.flags / 2) % 2 == 1 }
  predicate IsMetaPage(h: PageHeader) { (h.flags / 4) % 2 == 1 }
  predicate IsFreeListPage(h: PageHeader) { (h.flags / 16) % 2 == 1 }

  /**
   * The header at `offset`, read field by field with a cursor. Any 16 bytes
   * decode; only a buffer too short for them fails.
   */
  function DecodePageHeader(page: seq<byte>, offset: nat): (r: Result<Read<PageHeader>>)
    ensures r.Success? <==> offset + 16 <= |page|
    ensures r.Success? ==> r.value.next == offset + 16
    ensures r.Success? ==> r.value.value.id == UIntAt(page, offset, 8)
    ensures r.Success? ==> r.value.value.flags == UIntAt(page, offset + 8, 2)
    ensures r.Success? ==> r.value.value.count == UIntAt(page, offset + 10, 2)
    ensures r.Success? ==> r.value.value.overflow == UIntAt(page, offset + 12, 4)
  {
    var id :- ReadUInt64(page, offset);
    var flags :- ReadUInt16(page, id.next);
    var count :- ReadUInt16(page, flags.next);
    var overflow :- ReadUInt32(page, count.next);
    Success(Read(PageHeader(id.value, flags.value, count.value, overflow.value), overflow.next))
  }

  /** The bytes `Write` emits: the same four fields, in the same order and widths. */
  function EncodePageHeader(h: PageHeader): (s: seq<byte>)
    ensures |s| == 16
  {
    EncodeLE(h.id, 8) + EncodeLE(h.flags, 2) + EncodeLE(h.count, 2) + EncodeLE(h.overflow, 4)
  }

  /** Decoding what `Write` emits gives the header back and consumes all 16 bytes. */
  lemma HeaderRoundTrip(h: PageHeader)
    ensures DecodePageHeader(EncodePageHeader(h), 0) == Success(Read(h, 16))
  {
    var s := EncodePageHeader(h);
    Widths();
    assert s[0..8] == EncodeLE(h.id, 8);
    assert s[8..10] == EncodeLE(h.flags, 2);
    assert s[10..12] == EncodeLE(h.count, 2);
    assert s[12..16] == EncodeLE(h.overflow, 4);
    DecodeEncodeLE(h.id, 8);
    DecodeEncodeLE(h.flags, 2);
    DecodeEncodeLE(h.count, 2);
    DecodeEncodeLE(h.overflow, 4);
  }

  /** Re-encoding a decoded header reproduces the 16 bytes it was read from. */
  lemma HeaderReencode(page: seq<byte>, offset: nat)
    requires offset + 16 <= |page|
    ensures DecodePageHeader(page, offset).Success?
    ensures EncodePageHeader(DecodePageHeader(page, offset).value.value) == page[offset..offset + 16]
  {
    var h := DecodePageHeader(page, offset).value.value;
    var s := page[offset..offset + 16];
    EncodeDecodeLE(page[offset..offset + 8]);
    EncodeDecodeLE(page[offset + 8..offset + 10]);
    EncodeDecodeLE(page[offset + 10..offset + 12]);
    EncodeDecodeLE(page[offset + 12..offset + 16]);
    assert s == page[offset..offset + 8] + page[offset + 8..offset + 10]
              + page[offset + 10..offset + 12] + page[offset + 12..offset + 16];
  }

  /**
   * The four type predicates are independent bit tests: every combination of
   * them, several at once included, is the reading of some flags word.
   */
  lemma FlagsAreIndependent(branch: bool, leaf: bool, meta: bool, freeList: bool) returns (h: PageHeader)
    ensures IsBranchPage(h) == branch && IsLeafPage(h) == leaf
    ensures IsMetaPage(h) == meta && IsFreeListPage(h) == freeList
  {
    var flags := (if branch then 0x01 else 0) + (if leaf then 0x02 else 0)
               + (if meta then 0x04 else 0) + (if freeList then 0x10 else 0);
    h := PageHeader(0, flags, 0, 0);
  }

  /** Each type predicate holds exactly when the flags word has a bit of that type's mask. */
  lemma FlagsAreMasks(h: PageHeader)
    ensures IsBranchPage(h) <==> (h.flags as bv16) & BranchPageFlag != 0
    ensures IsLeafPage(h) <==> (h.flags as bv16) & LeafPageFlag != 0
    ensures IsMetaPage(h) <==> (h.flags as bv16) & MetaPageFlag != 0
    ensures IsFreeListPage(h) <==> (h.flags as bv16) & FreeListPageFlag != 0
  {
  }
}
