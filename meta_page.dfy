/**
 * The 64-byte meta record that follows the header of each of the two meta
 * pages: magic, version, page size, flags, the root bucket's location, the
 * free-list page id, the page's own id, the transaction id and a checksum of
 * the 56 bytes before it.
 */
module MetaPages {
  import opened Wrappers
  import opened LittleEndian
  import opened BucketLocations

  const Signature: u32 := 0xED0CDAED
  const SupportedVersion: u32 := 2

  datatype MetaPage = MetaPage(
    magic: u32,
    version: u32,
    pageSize: u32,
    flags: u32,
    root: BucketLocation,
    freeList: u64,
    pageId: u64,
    txId: u64,
    checksum: u64)

  /** The default constructor: a meta page carrying the signature and the supported version. */
  function DefaultMetaPage(): (m: MetaPage)
    ensures m.magic == Signature && m.version == SupportedVersion
  {
    MetaPage(Signature, SupportedVersion, 0, 0, BucketLocation(0, 0), 0, 0, 0, 0)
  }

  /** The decoding constructor: nine fields read in order with a cursor. */
  function DecodeMetaPage(page: seq<byte>, offset: nat): (r: Result<Read<MetaPage>>)
    ensures r.Success? <==> offset + 64 <= |page|
    ensures r.Success? ==> r.value.next == offset + 64
    ensures r.Success? ==> var m := r.value.value;
      && m.magic == UIntAt(page, offset, 4)
      && m.version == UIntAt(page, offset + 4, 4)
      && m.pageSize == UIntAt(page, offset + 8, 4)
      && m.flags == UIntAt(page, offset + 12, 4)
      && m.root == BucketLocation(UIntAt(page, offset + 16, 8), UIntAt(page, offset + 24, 8))
      && m.freeList == UIntAt(page, offset + 32, 8)
      && m.pageId == UIntAt(page, offset + 40, 8)
      && m.txId == UIntAt(page, offset + 48, 8)
      && m.checksum == UIntAt(page, offset + 56, 8)
  {
    var magic :- ReadUInt32(page, offset);
    var version :- ReadUInt32(page, magic.next);
    var pageSize :- ReadUInt32(page, version.next);
    var flags :- ReadUInt32(page, pageSize.next);
    var root :- ReadBucketLocation(page, flags.next);
    var freeList :- ReadUInt64(page, root.next);
    var pageId :- ReadUInt64(page, freeList.next);
    var txId :- ReadUInt64(page, pageId.next);
    var checksum :- ReadUInt64(page, txId.next);
    Success(Read(MetaPage(magic.value, version.value, pageSize.value, flags.value, root.value,
                          freeList.value, pageId.value, txId.value, checksum.value), checksum.next))
  }

  /** The 56 bytes GetBytesExcludingChecksum produces: every field but the checksum, in decode order. */
  function HashedBytes(m: MetaPage): (s: seq<byte>)
    ensures |s| == 56
  {
    EncodeLE(m.magic, 4) + EncodeLE(m.version, 4) + EncodeLE(m.pageSize, 4) + EncodeLE(m.flags, 4)
    + EncodeBucketLocation(m.root)
    + EncodeLE(m.freeList, 8) + EncodeLE(m.pageId, 8) + EncodeLE(m.txId, 8)
  }

  /** The 64 bytes `Write` emits: the hashed bytes followed by the checksum. */
  function EncodeMetaPage(m: MetaPage): (s: seq<byte>)
    ensures |s| == 64
  {
    HashedBytes(m) + EncodeLE(m.checksum, 8)
  }

  /**
   * IsValid: the signature, then the version, then the stored checksum
   * against the hash of the re-encoded fields. `hash` is the 64-bit FNV-1a
   * function, not modelled here.
   */
  predicate IsValid(hash: seq<byte> -> u64, m: MetaPage)
    ensures IsValid(hash, m) ==> m.magic == Signature && m.version == SupportedVersion
    ensures IsValid(hash, m) ==> m.checksum == hash(HashedBytes(m))
  {
    if m.magic != Signature then false
    else if m.version != SupportedVersion then false
    else m.checksum == hash(HashedBytes(m))
  }

  /**
   * GetBytesExcludingChecksum: fills a fresh 56-byte buffer field by field,
   * advancing a cursor, and returns its contents.
   */
  method GetBytesExcludingChecksum(m: MetaPage) returns (bytes: seq<byte>)
    ensures bytes == HashedBytes(m)
  {
    var buffer := new byte[56];
    var offset := 0;
    offset := WriteUIntLE(buffer, offset, m.magic, 4);
    assert buffer[..4] == EncodeLE(m.magic, 4);
    offset := WriteUIntLE(buffer, offset, m.version, 4);
    assert buffer[..8] == EncodeLE(m.magic, 4) + EncodeLE(m.version, 4);
    offset := WriteUIntLE(buffer, offset, m.pageSize, 4);
    assert buffer[..12] == EncodeLE(m.magic, 4) + EncodeLE(m.version, 4) + EncodeLE(m.pageSize, 4);
    offset := WriteUIntLE(buffer, offset, m.flags, 4);
    ghost var fixed := EncodeLE(m.magic, 4) + EncodeLE(m.version, 4) + EncodeLE(m.pageSize, 4) + EncodeLE(m.flags, 4);
    assert buffer[..16] == fixed;
    offset := Write(m.root, buffer, offset);
    assert buffer[..32] == fixed + EncodeBucketLocation(m.root);
    offset := WriteUIntLE(buffer, offset, m.freeList, 8);
    assert buffer[..40] == fixed + EncodeBucketLocation(m.root) + EncodeLE(m.freeList, 8);
    offset := WriteUIntLE(buffer, offset, m.pageId, 8);
    assert buffer[..48] == fixed + EncodeBucketLocation(m.root) + EncodeLE(m.freeList, 8) + EncodeLE(m.pageId, 8);
    offset := WriteUIntLE(buffer, offset, m.txId, 8);
    assert buffer[..] == buffer[..56];
    bytes := buffer[..];
  }

  /** The checksum never enters the hashed bytes. */
  lemma ChecksumNotHashed(m: MetaPage, checksum: u64)
    ensures HashedBytes(m.(checksum := checksum)) == HashedBytes(m)
  {
  }

  /** Decoding what `Write` emits reproduces every field and consumes 64 bytes. */
  lemma MetaRoundTrip(m: MetaPage)
    ensures DecodeMetaPage(EncodeMetaPage(m), 0) == Success(Read(m, 64))
  {
    var s := EncodeMetaPage(m);
    Widths();
    assert s[0..4] == EncodeLE(m.magic, 4);
    assert s[4..8] == EncodeLE(m.version, 4);
    assert s[8..12] == EncodeLE(m.pageSize, 4);
    assert s[12..16] == EncodeLE(m.flags, 4);
    assert s[16..24] == EncodeLE(m.root.root, 8);
    assert s[24..32] == EncodeLE(m.root.sequence, 8);
    assert s[32..40] == EncodeLE(m.freeList, 8);
    assert s[40..48] == EncodeLE(m.pageId, 8);
    assert s[48..56] == EncodeLE(m.txId, 8);
    assert s[56..64] == EncodeLE(m.checksum, 8);
    DecodeEncodeLE(m.magic, 4);
    DecodeEncodeLE(m.version, 4);
    DecodeEncodeLE(m.pageSize, 4);
    DecodeEncodeLE(m.flags, 4);
    DecodeEncodeLE(m.root.root, 8);
    DecodeEncodeLE(m.root.sequence, 8);
    DecodeEncodeLE(m.freeList, 8);
    DecodeEncodeLE(m.pageId, 8);
    DecodeEncodeLE(m.txId, 8);
    DecodeEncodeLE(m.checksum, 8);
  }

  /**
   * Re-encoding a decoded meta record reproduces the 64 bytes it was read
   * from; in particular GetBytesExcludingChecksum returns exactly the first
   * 56 bytes the decoder consumed.
   */
  lemma MetaReencode(page: seq<byte>, offset: nat)
    requires offset + 64 <= |page|
    ensures DecodeMetaPage(page, offset).Success?
    ensures EncodeMetaPage(DecodeMetaPage(page, offset).value.value) == page[offset..offset + 64]
    ensures HashedBytes(DecodeMetaPage(page, offset).value.value) == page[offset..offset + 56]
  {
    var m := DecodeMetaPage(page, offset).value.value;
    FieldReencode(page, offset, 4);
    FieldReencode(page, offset + 4, 4);
    FieldReencode(page, offset + 8, 4);
    FieldReencode(page, offset + 12, 4);
    LocationReencode(page, offset + 16);
    FieldReencode(page, offset + 32, 8);
    FieldReencode(page, offset + 40, 8);
    FieldReencode(page, offset + 48, 8);
    FieldReencode(page, offset + 56, 8);
    SliceJoin(page, offset, offset + 4, offset + 8);
    SliceJoin(page, offset, offset + 8, offset + 12);
    SliceJoin(page, offset, offset + 12, offset + 16);
    SliceJoin(page, offset, offset + 16, offset + 32);
    SliceJoin(page, offset, offset + 32, offset + 40);
    SliceJoin(page, offset, offset + 40, offset + 48);
    SliceJoin(page, offset, offset + 48, offset + 56);
    SliceJoin(page, offset, offset + 56, offset + 64);
  }

  /**
   * Validity of a record read from disk: false on a wrong signature or
   * version, and otherwise exactly when the stored checksum is the hash of
   * the 56 bytes on disk that precede it.
   */
  lemma ValidOnDisk(hash: seq<byte> -> u64, page: seq<byte>, offset: nat)
    requires offset + 64 <= |page|
    ensures DecodeMetaPage(page, offset).Success?
    ensures var m := DecodeMetaPage(page, offset).value.value;
      IsValid(hash, m) <==>
        m.magic == Signature && m.version == SupportedVersion && m.checksum == hash(page[offset..offset + 56])
  {
    MetaReencode(page, offset);
  }

  /** The signature and version tests come first: failing either makes the record invalid. */
  lemma InvalidWithoutSignatureOrVersion(hash: seq<byte> -> u64, m: MetaPage)
    ensures m.magic != Signature ==> !IsValid(hash, m)
    ensures m.version != SupportedVersion ==> !IsValid(hash, m)
    ensures m.magic == Signature && m.version == SupportedVersion ==>
      (IsValid(hash, m) <==> m.checksum == hash(HashedBytes(m)))
  {
  }

  /** A record with its checksum recomputed over its other fields, as a writer stores it. */
  function Seal(hash: seq<byte> -> u64, m: MetaPage): MetaPage {
    m.(checksum := hash(HashedBytes(m)))
  }

  /**
   * Recomputing the checksum reproduces it bit for bit exactly on valid
   * records, and sealing any record with the signature and version makes it
   * valid.
   */
  lemma SealRoundTrip(hash: seq<byte> -> u64, m: MetaPage)
    ensures IsValid(hash, m) <==> m.magic == Signature && m.version == SupportedVersion && Seal(hash, m) == m
    ensures m.magic == Signature && m.version == SupportedVersion ==> IsValid(hash, Seal(hash, m))
  {
    ChecksumNotHashed(m, hash(HashedBytes(m)));
  }
}
