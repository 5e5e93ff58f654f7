/**
 * Leaf pages: after the header, `count` 16-byte descriptors (flags, key
 * position relative to the descriptor, key size, value size), then the keys
 * and values. A value whose descriptor has the bucket flag holds a bucket
 * location, and when that location is inline the rest of the value is a
 * whole leaf page of its own, decoded recursively.
 */
module LeafPages {
  import opened Wrappers
  import opened LittleEndian
  import opened BucketLocations
  import opened PageHeaders
  import opened Entries
  import opened Collecting

  /** The one element flag: the value is a bucket. */
  const BucketElementFlag: bv32 := 0x1

  /** Bit 0 of the element flags; BucketFlagIsMask shows it is the source's `flags & Bucket > 0`. */
  predicate IsBucketElement(flags: u32) {
    flags % 2 == 1
  }

  /** The bucket test is the mask test, so the other 31 bits of the flags are ignored. */
  lemma BucketFlagIsMask(flags: u32)
    ensures IsBucketElement(flags) <==> (flags as bv32) & BucketElementFlag != 0
    ensures forall other: u32 :: other % 2 == flags % 2 ==> IsBucketElement(other) == IsBucketElement(flags)
  {
    assert (flags as bv32) & 1 == (flags % 2) as bv32;
  }

  /**
   * The value of an element from its value bytes `vb`: the bytes themselves
   * unless the element is a bucket; for a bucket, the location in the first
   * 16 bytes, or, when that location is inline, the page right after it.
   */
  function LeafValue(utf8: seq<byte> -> Str, isBucket: bool, vb: seq<byte>): Result<Value>
    decreases |vb|, 4
  {
    if !isBucket then Success(RawBytes(vb))
    else
      var location :- ReadBucketLocation(vb, 0);
      if IsInlineBucket(location.value) then
        var bucket :- InlineBucketAt(utf8, vb, location.next);
        Success(BucketValue(bucket))
      else
        Success(LocationValue(location.value))
  }

  /** ReadInlineBucket: a header at `offset`, which must be a leaf's, then its elements. */
  function InlineBucketAt(utf8: seq<byte> -> Str, bytes: seq<byte>, offset: nat): Result<Bucket>
    decreases |bytes|, 3
  {
    var header :- DecodePageHeader(bytes, offset);
    if IsLeafPage(header.value) then
      var elements :- LeafElements(utf8, bytes, header.next, header.value.count);
      Success(Inline(elements))
    else
      Failure(InvalidData)
  }

  /**
   * The element whose descriptor starts at `d`. Every descriptor follows a
   * 16-byte header, so `d >= 16` and the value bytes are strictly shorter
   * than the page they come from.
   */
  function LeafElementAt(utf8: seq<byte> -> Str, page: seq<byte>, d: nat): Result<Element>
    requires d >= 16
    decreases |page|, 0
  {
    var flags :- ReadUInt32(page, d);
    var position :- ReadUInt32(page, flags.next);
    var keySize :- ReadUInt32(page, position.next);
    var valueSize :- ReadUInt32(page, keySize.next);
    var keyBytes :- ReadBytes(page, d + position.value, keySize.value);
    var valueBytes :- ReadBytes(page, d + position.value + keySize.value, valueSize.value);
    var value :- LeafValue(utf8, IsBucketElement(flags.value), valueBytes);
    Success(Element(utf8(keyBytes), value))
  }

  /** Descriptor i of the table at `start`, decoded. */
  function LeafDescriptors(utf8: seq<byte> -> Str, page: seq<byte>, start: nat): nat -> Result<Element>
    requires start >= 16
    decreases |page|, 1
  {
    (i: nat) => LeafElementAt(utf8, page, start + 16 * i)
  }

  /** The elements of the `count` descriptors laid out from `start`, 16 bytes apart. */
  function LeafElements(utf8: seq<byte> -> Str, page: seq<byte>, start: nat, count: nat): Result<seq<Element>>
    requires start >= 16
    decreases |page|, 2
  {
    Collect(LeafDescriptors(utf8, page, start), count)
  }

  /**
   * Descriptor layout: flags at `d`, then the key position (relative to `d`),
   * key size and value size; the key comes from the bytes at that position
   * and the value from the `valueSize` bytes right after the key.
   */
  lemma LeafElementLayout(utf8: seq<byte> -> Str, page: seq<byte>, d: nat)
    requires d >= 16
    ensures var r := LeafElementAt(utf8, page, d);
      r.Success? <==>
        && d + 16 <= |page|
        && var keyStart := d + UIntAt(page, d + 4, 4);
           var valueStart := keyStart + UIntAt(page, d + 8, 4);
           var valueEnd := valueStart + UIntAt(page, d + 12, 4);
           && valueEnd <= |page|
           && LeafValue(utf8, IsBucketElement(UIntAt(page, d, 4)), page[valueStart..valueEnd]).Success?
    ensures var r := LeafElementAt(utf8, page, d);
      r.Success? ==>
        var keyStart := d + UIntAt(page, d + 4, 4);
        var valueStart := keyStart + UIntAt(page, d + 8, 4);
        var valueEnd := valueStart + UIntAt(page, d + 12, 4);
        && r.value.key == utf8(page[keyStart..valueStart])
        && Success(r.value.value) == LeafValue(utf8, IsBucketElement(UIntAt(page, d, 4)), page[valueStart..valueEnd])
  {
  }

  /** The three kinds of value, and the errors on the way to each. */
  lemma LeafValueCases(utf8: seq<byte> -> Str, isBucket: bool, vb: seq<byte>)
    ensures !isBucket ==> LeafValue(utf8, isBucket, vb) == Success(RawBytes(vb))
    ensures isBucket && |vb| < 16 ==> LeafValue(utf8, isBucket, vb) == Failure(OutOfRange)
    ensures isBucket && 16 <= |vb| && UIntAt(vb, 0, 8) != 0 ==>
      LeafValue(utf8, isBucket, vb) == Success(LocationValue(BucketLocation(UIntAt(vb, 0, 8), UIntAt(vb, 8, 8))))
    ensures isBucket && 16 <= |vb| && UIntAt(vb, 0, 8) == 0 ==>
      match DecodePageHeader(vb, 16)
      case Failure(e) => LeafValue(utf8, isBucket, vb) == Failure(e)
      case Success(header) =>
        if IsLeafPage(header.value) then
          var elements := LeafElements(utf8, vb, 32, header.value.count);
          LeafValue(utf8, isBucket, vb) ==
            if elements.Success? then Success(BucketValue(Inline(elements.value))) else Failure(elements.error)
        else
          LeafValue(utf8, isBucket, vb) == Failure(InvalidData)
  {
  }

  /** A decoded location value never has root 0: inline locations are always expanded. */
  lemma LocationValuesAreNotInline(utf8: seq<byte> -> Str, isBucket: bool, vb: seq<byte>)
    requires LeafValue(utf8, isBucket, vb).Success?
    requires LeafValue(utf8, isBucket, vb).value.LocationValue?
    ensures isBucket && !IsInlineBucket(LeafValue(utf8, isBucket, vb).value.location)
  {
  }

  /**
   * A successful decode has exactly `count` elements, element i decoded from
   * the descriptor at `start + 16 * i`, in descriptor order.
   */
  lemma LeafElementsInOrder(utf8: seq<byte> -> Str, page: seq<byte>, start: nat, count: nat, i: nat)
    requires start >= 16
    requires LeafElements(utf8, page, start, count).Success?
    requires i < count
    ensures |LeafElements(utf8, page, start, count).value| == count
    ensures LeafElementAt(utf8, page, start + 16 * i) == Success(LeafElements(utf8, page, start, count).value[i])
  {
    var f := LeafDescriptors(utf8, page, start);
    CollectAt(f, count, i);
    assert f(i) == LeafElementAt(utf8, page, start + 16 * i);
  }

  /** A failed decode fails with the error of the first descriptor that fails, descriptor `i`. */
  lemma LeafElementsFirstFailure(utf8: seq<byte> -> Str, page: seq<byte>, start: nat, count: nat) returns (i: nat)
    requires start >= 16
    requires LeafElements(utf8, page, start, count).Failure?
    ensures i < count && LeafElementAt(utf8, page, start + 16 * i) == Failure(LeafElements(utf8, page, start, count).error)
    ensures forall j :: 0 <= j < i ==> LeafElementAt(utf8, page, start + 16 * j).Success?
  {
    var f := LeafDescriptors(utf8, page, start);
    i := CollectFirstFailure(f, count);
    forall j | 0 <= j < i
      ensures LeafElementAt(utf8, page, start + 16 * j).Success?
    {
      assert f(j).Success?;
    }
    assert LeafElementAt(utf8, page, start + 16 * i) == f(i);
  }

  /**
   * One pass of the LeafPage constructor's loop: the four descriptor fields
   * at the cursor `d`, the key and value bytes, then the value itself.
   */
  method ReadLeafElement(utf8: seq<byte> -> Str, page: seq<byte>, d: nat) returns (r: Result<Element>)
    requires d >= 16
    ensures r == LeafElementAt(utf8, page, d)
    decreases |page|, 0
  {
    var flags := ReadUInt32(page, d);
    if flags.Failure? {
      return Failure(flags.error);
    }
    var position := ReadUInt32(page, flags.value.next);
    if position.Failure? {
      return Failure(position.error);
    }
    var keySize := ReadUInt32(page, position.value.next);
    if keySize.Failure? {
      return Failure(keySize.error);
    }
    var valueSize := ReadUInt32(page, keySize.value.next);
    if valueSize.Failure? {
      return Failure(valueSize.error);
    }
    var isBucket := IsBucketElement(flags.value.value);
    var keyBytes := ReadBytes(page, d + position.value.value, keySize.value.value);
    if keyBytes.Failure? {
      return Failure(keyBytes.error);
    }
    var valueBytes := ReadBytes(page, d + position.value.value + keySize.value.value, valueSize.value.value);
    if valueBytes.Failure? {
      return Failure(valueBytes.error);
    }
    var value := ReadLeafValue(utf8, isBucket, valueBytes.value);
    if value.Failure? {
      return Failure(value.error);
    }
    r := Success(Element(utf8(keyBytes.value), value.value));
  }

  /**
   * The value branch of the LeafPage constructor: raw bytes, or for a bucket
   * element the location at the start of the value bytes, expanded through
   * ReadInlineBucket when it is inline.
   */
  method ReadLeafValue(utf8: seq<byte> -> Str, isBucket: bool, vb: seq<byte>) returns (r: Result<Value>)
    ensures r == LeafValue(utf8, isBucket, vb)
    decreases |vb|, 4
  {
    if !isBucket {
      return Success(RawBytes(vb));
    }
    var location := ReadBucketLocation(vb, 0);
    if location.Failure? {
      return Failure(location.error);
    }
    if IsInlineBucket(location.value.value) {
      var bucket := ReadInlineBucket(utf8, vb, location.value.next);
      if bucket.Failure? {
        return Failure(bucket.error);
      }
      r := Success(BucketValue(bucket.value));
    } else {
      r := Success(LocationValue(location.value.value));
    }
  }

  /** ReadInlineBucket: decodes the header at `offset` and, for a leaf, the page's elements. */
  method ReadInlineBucket(utf8: seq<byte> -> Str, bytes: seq<byte>, offset: nat) returns (r: Result<Bucket>)
    ensures r == InlineBucketAt(utf8, bytes, offset)
    decreases |bytes|, 3
  {
    var header := DecodePageHeader(bytes, offset);
    if header.Failure? {
      return Failure(header.error);
    }
    if IsLeafPage(header.value.value) {
      var elements, _ := DecodeLeafPage(utf8, bytes, header.value.next, header.value.value.count);
      if elements.Failure? {
        return Failure(elements.error);
      }
      r := Success(Inline(elements.value));
    } else {
      r := Failure(InvalidData);
    }
  }

  /**
   * The LeafPage constructor: a loop over `elementCount` descriptors that
   * advances the cursor by 16 each time and appends (key, value).
   */
  method DecodeLeafPage(utf8: seq<byte> -> Str, page: seq<byte>, offset: nat, elementCount: nat)
    returns (r: Result<seq<Element>>, next: nat)
    requires offset >= 16
    ensures r == LeafElements(utf8, page, offset, elementCount)
    ensures r.Success? ==> next == offset + 16 * elementCount
    decreases |page|, 2
  {
    var elements: seq<Element> := [];
    next := offset;
    var index := 0;
    while index < elementCount
      invariant 0 <= index <= elementCount
      invariant next == offset + 16 * index
      invariant LeafElements(utf8, page, offset, index) == Success(elements)
    {
      var element := ReadLeafElement(utf8, page, next);
      assert LeafDescriptors(utf8, page, offset)(index) == element;
      if element.Failure? {
        CollectStopsAt(LeafDescriptors(utf8, page, offset), index, elementCount);
        return Failure(element.error), next;
      }
      CollectStep(LeafDescriptors(utf8, page, offset), index);
      elements := elements + [element.value];
      next := next + 16;
      index := index + 1;
    }
    r := Success(elements);
  }
}
