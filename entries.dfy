/**
 * The decoded forms of page elements and of buckets. Keys are .NET strings,
 * that is sequences of UTF-16 code units, obtained from the key bytes by a
 * UTF-8 decoder that the model takes as a parameter.
 */
module Entries {
  import opened LittleEndian
  import opened BucketLocations

  /** A UTF-16 code unit. */
  type CodeUnit = u16

  /** A .NET string. */
  type Str = seq<CodeUnit>

  /**
   * A leaf value: raw bytes, the location of an out-of-line bucket, or a
   * bucket (an inline one straight from a leaf page, or a page-backed one
   * once the database reader has materialised a location).
   */
  datatype Value =
    | RawBytes(bytes: seq<byte>)
    | LocationValue(location: BucketLocation)
    | BucketValue(bucket: Bucket)

  /**
   * A bucket: either backed by the pages under a location, read on demand
   * through the database reader, or holding an already decoded element list.
   */
  datatype Bucket =
    | PageBacked(location: BucketLocation)
    | Inline(elements: seq<Element>)

  /** A key/value pair of a leaf page or of a bucket. */
  datatype Element = Element(key: Str, value: Value)

  /** A key/child-page pair of a branch page. */
  datatype BranchElement = BranchElement(key: Str, childPageId: u64)
}
