/**
 * Branch pages: after the header, `count` 16-byte descriptors (key position
 * relative to the descriptor, key size, child page id), then the key bytes.
 */
module BranchPages {
  import opened Wrappers
  import opened LittleEndian
  import opened Entries
  import opened Collecting

  /**
   * The element whose descriptor starts at `d`: the key is the `keySize`
   * bytes found `position` bytes after the descriptor's start, and the child
   * page id is the u64 at `d + 8`.
   */
  function BranchElementAt(utf8: seq<byte> -> Str, page: seq<byte>, d: nat): Result<BranchElement> {
    var position :- ReadUInt32(page, d);
    var keySize :- ReadUInt32(page, position.next);
    var pageId :- ReadUInt64(page, keySize.next);
    var keyBytes :- ReadBytes(page, d + position.value, keySize.value);
    Success(BranchElement(utf8(keyBytes), pageId.value))
  }

  /**
   * Descriptor layout: the key is the `keySize` bytes found `position` bytes
   * after the descriptor's start, and the child page id is the u64 at `d + 8`.
   */
  lemma BranchElementLayout(utf8: seq<byte> -> Str, page: seq<byte>, d: nat)
    ensures var r := BranchElementAt(utf8, page, d);
      r.Success? <==> d + 16 <= |page| && d + UIntAt(page, d, 4) + UIntAt(page, d + 4, 4) <= |page|
    ensures var r := BranchElementAt(utf8, page, d);
      r.Success? ==>
        var keyStart := d + UIntAt(page, d, 4);
        r.value == BranchElement(utf8(page[keyStart..keyStart + UIntAt(page, d + 4, 4)]), UIntAt(page, d + 8, 8))
  {
  }

  /** The elements of the `count` descriptors laid out from `start`, 16 bytes apart. */
  function BranchElements(utf8: seq<byte> -> Str, page: seq<byte>, start: nat, count: nat): Result<seq<BranchElement>> {
    Collect(BranchDescriptors(utf8, page, start), count)
  }

  /** Descriptor i of the table at `start`, decoded. */
  function BranchDescriptors(utf8: seq<byte> -> Str, page: seq<byte>, start: nat): nat -> Result<BranchElement> {
    (i: nat) => BranchElementAt(utf8, page, start + 16 * i)
  }

  /**
   * A successful decode has exactly `count` elements, element i decoded from
   * the descriptor at `start + 16 * i`, in descriptor order with no sorting.
   */
  lemma BranchElementsInOrder(utf8: seq<byte> -> Str, page: seq<byte>, start: nat, count: nat, i: nat)
    requires BranchElements(utf8, page, start, count).Success?
    requires i < count
    ensures |BranchElements(utf8, page, start, count).value| == count
    ensures BranchElementAt(utf8, page, start + 16 * i) == Success(BranchElements(utf8, page, start, count).value[i])
  {
    var f := BranchDescriptors(utf8, page, start);
    CollectAt(f, count, i);
    assert f(i) == BranchElementAt(utf8, page, start + 16 * i);
  }

  /** A failed decode fails with the error of the first descriptor that fails, descriptor `i`. */
  lemma BranchElementsFirstFailure(utf8: seq<byte> -> Str, page: seq<byte>, start: nat, count: nat) returns (i: nat)
    requires BranchElements(utf8, page, start, count).Failure?
    ensures i < count && BranchElementAt(utf8, page, start + 16 * i) == Failure(BranchElements(utf8, page, start, count).error)
    ensures forall j :: 0 <= j < i ==> BranchElementAt(utf8, page, start + 16 * j).Success?
  {
    var f := BranchDescriptors(utf8, page, start);
    i := CollectFirstFailure(f, count);
    forall j | 0 <= j < i
      ensures BranchElementAt(utf8, page, start + 16 * j).Success?
    {
      assert f(j).Success?;
    }
    assert BranchElementAt(utf8, page, start + 16 * i) == f(i);
  }

  /**
   * One pass of the BranchPage constructor's loop: reads the descriptor at
   * the cursor `d` field by field, then the key bytes it points at.
   */
  method ReadBranchElement(utf8: seq<byte> -> Str, page: seq<byte>, d: nat) returns (r: Result<BranchElement>)
    ensures r == BranchElementAt(utf8, page, d)
  {
    var position := ReadUInt32(page, d);
    if position.Failure? {
      return Failure(position.error);
    }
    var keySize := ReadUInt32(page, position.value.next);
    if keySize.Failure? {
      return Failure(keySize.error);
    }
    var pageId := ReadUInt64(page, keySize.value.next);
    if pageId.Failure? {
      return Failure(pageId.error);
    }
    var keyBytes := ReadBytes(page, d + position.value.value, keySize.value.value);
    if keyBytes.Failure? {
      return Failure(keyBytes.error);
    }
    r := Success(BranchElement(utf8(keyBytes.value), pageId.value.value));
  }

  /**
   * The BranchPage constructor: a loop over `elementCount` descriptors that
   * advances the cursor by 16 each time and appends (key, child page id).
   */
  method DecodeBranchPage(utf8: seq<byte> -> Str, page: seq<byte>, offset: nat, elementCount: nat)
    returns (r: Result<seq<BranchElement>>, next: nat)
    ensures r == BranchElements(utf8, page, offset, elementCount)
    ensures r.Success? ==> next == offset + 16 * elementCount
  {
    var elements: seq<BranchElement> := [];
    next := offset;
    var index := 0;
    while index < elementCount
      invariant 0 <= index <= elementCount
      invariant next == offset + 16 * index
      invariant BranchElements(utf8, page, offset, index) == Success(elements)
    {
      var element := ReadBranchElement(utf8, page, next);
      assert BranchDescriptors(utf8, page, offset)(index) == element;
      if element.Failure? {
        CollectStopsAt(BranchDescriptors(utf8, page, offset), index, elementCount);
        return Failure(element.error), next;
      }
      CollectStep(BranchDescriptors(utf8, page, offset), index);
      elements := elements + [element.value];
      next := next + 16;
      index := index + 1;
    }
    r := Success(elements);
  }
}
