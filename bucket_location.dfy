/**
 * The 16-byte on-file record that locates a bucket: the page id of its root
 * page and its sequence counter. A root of 0 marks an inline bucket, whose
 * page is stored right after this record in the containing value.
 */
module BucketLocations {
  import opened Wrappers
  import opened LittleEndian

  datatype BucketLocation = BucketLocation(root: u64, sequence: u64)

  /** Inline exactly when the root page id is 0; the sequence plays no part. */
  predicate IsInlineBucket(loc: BucketLocation) {
    loc.root == 0
  }

  /** ReadBucketLocation: root, then sequence, each a little-endian u64, advancing the cursor. */
  function ReadBucketLocation(page: seq<byte>, offset: nat): (r: Result<Read<BucketLocation>>)
    ensures r.Success? <==> offset + 16 <= |page|
    ensures r.Success? ==> r.value.next == offset + 16
    ensures r.Success? ==> r.value.value.root == UIntAt(page, offset, 8)
    ensures r.Success? ==> r.value.value.sequence == UIntAt(page, offset + 8, 8)
  {
    var root :- ReadUInt64(page, offset);
    var sequence :- ReadUInt64(page, root.next);
    Success(Read(BucketLocation(root.value, sequence.value), sequence.next))
  }

  /** The 16 bytes either `Write` overload emits. */
  function EncodeBucketLocation(loc: BucketLocation): (s: seq<byte>)
    ensures |s| == 16
  {
    EncodeLE(loc.root, 8) + EncodeLE(loc.sequence, 8)
  }

  /** The buffer as `Write` leaves it. */
  function WrittenAt(buffer: seq<byte>, offset: nat, loc: BucketLocation): seq<byte>
    requires offset + 16 <= |buffer|
  {
    buffer[..offset] + EncodeBucketLocation(loc) + buffer[offset + 16..]
  }

  /**
   * Write(byte[], ref int): puts the root at [offset, offset + 8) and the
   * sequence at [offset + 8, offset + 16) of the buffer, in place, and
   * advances the cursor by 16.
   */
  method Write(loc: BucketLocation, buffer: array<byte>, offset: nat) returns (next: nat)
    requires offset + 16 <= buffer.Length
    modifies buffer
    ensures next == offset + 16
    ensures buffer[..] == WrittenAt(old(buffer[..]), offset, loc)
  {
    var mid := WriteUIntLE(buffer, offset, loc.root, 8);
    next := WriteUIntLE(buffer, mid, loc.sequence, 8);
  }

  /** `Write` changes no byte outside [offset, offset + 16) and keeps the buffer's length. */
  lemma WriteIsLocal(buffer: seq<byte>, offset: nat, loc: BucketLocation)
    requires offset + 16 <= |buffer|
    ensures |WrittenAt(buffer, offset, loc)| == |buffer|
    ensures forall k :: 0 <= k < |buffer| && !(offset <= k < offset + 16) ==> WrittenAt(buffer, offset, loc)[k] == buffer[k]
  {
  }

  /** Reading at the offset `Write` wrote to gives the same root and sequence back. */
  lemma ReadAfterWrite(buffer: seq<byte>, offset: nat, loc: BucketLocation)
    requires offset + 16 <= |buffer|
    ensures ReadBucketLocation(WrittenAt(buffer, offset, loc), offset) == Success(Read(loc, offset + 16))
  {
    var s := WrittenAt(buffer, offset, loc);
    var e := EncodeBucketLocation(loc);
    Widths();
    assert s[offset..offset + 16] == e;
    SliceJoin(s, offset, offset + 8, offset + 16);
    assert s[offset..offset + 8] == e[..8] == EncodeLE(loc.root, 8);
    assert s[offset + 8..offset + 16] == e[8..] == EncodeLE(loc.sequence, 8);
    DecodeEncodeLE(loc.root, 8);
    DecodeEncodeLE(loc.sequence, 8);
  }

  /** Re-encoding a decoded location reproduces the 16 bytes it was read from. */
  lemma LocationReencode(page: seq<byte>, offset: nat)
    requires offset + 16 <= |page|
    ensures ReadBucketLocation(page, offset).Success?
    ensures EncodeBucketLocation(ReadBucketLocation(page, offset).value.value) == page[offset..offset + 16]
  {
    EncodeDecodeLE(page[offset..offset + 8]);
    EncodeDecodeLE(page[offset + 8..offset + 16]);
    assert page[offset..offset + 16] == page[offset..offset + 8] + page[offset + 8..offset + 16];
  }
}
