/**
 * Buckets: the element list of an inline or page-backed bucket, lookup of a
 * value by key, and the nested buckets of a bucket.
 *
 * Keys are compared ordinally, code unit by code unit. Lookup goes through a
 * lower-bound binary search over the element list, so it finds a key for
 * sure only when the list is sorted, which the pages of a Bolt file are.
 */
module Buckets {
  import opened Wrappers
  import opened BucketLocations
  import opened Entries
  import Database

  /** CompareKeys: ordinal comparison of two keys, as the sign of the result. */
  function CompareKeys(a: Str, b: Str): (c: int)
    ensures -1 <= c <= 1
  {
    if a == [] && b == [] then 0
    else if a == [] then -1
    else if b == [] then 1
    else if a[0] < b[0] then -1
    else if a[0] > b[0] then 1
    else CompareKeys(a[1..], b[1..])
  }

  /** Two keys compare equal exactly when they are the same key. */
  lemma {:induction false} CompareKeysZero(a: Str, b: Str)
    ensures CompareKeys(a, b) == 0 <==> a == b
  {
    if a != [] && b != [] && a[0] == b[0] {
      CompareKeysZero(a[1..], b[1..]);
      assert a == [a[0]] + a[1..] && b == [b[0]] + b[1..];
    }
  }

  /** Swapping the keys negates the comparison. */
  lemma {:induction false} CompareKeysAntisymmetric(a: Str, b: Str)
    ensures CompareKeys(a, b) == -CompareKeys(b, a)
  {
    if a != [] && b != [] && a[0] == b[0] {
      CompareKeysAntisymmetric(a[1..], b[1..]);
    }
  }

  /** The comparison orders keys transitively. */
  lemma {:induction false} CompareKeysTransitive(a: Str, b: Str, c: Str)
    requires CompareKeys(a, b) <= 0 && CompareKeys(b, c) <= 0
    ensures CompareKeys(a, c) <= 0
  {
    if a != [] && b != [] && c != [] && a[0] == b[0] == c[0] {
      CompareKeysTransitive(a[1..], b[1..], c[1..]);
    }
  }

  /** A key below another stays below everything at or above that one. */
  lemma CompareKeysStrictTransitive(a: Str, b: Str, c: Str)
    requires CompareKeys(a, b) < 0 && CompareKeys(b, c) <= 0
    ensures CompareKeys(a, c) < 0
  {
    CompareKeysTransitive(a, b, c);
    CompareKeysZero(a, c);
    CompareKeysAntisymmetric(a, b);
  }

  /** Elements in ascending key order, as a page lists them. */
  predicate Sorted(elements: seq<Element>) {
    forall i, j :: 0 <= i < j < |elements| ==> CompareKeys(elements[i].key, elements[j].key) <= 0
  }

  /** The first position holding `key`, or -1: the reference meaning of a lookup. */
  function KeyIndex(elements: seq<Element>, key: Str): (i: int)
    ensures -1 <= i < |elements|
    ensures i >= 0 ==> elements[i].key == key && forall j :: 0 <= j < i ==> elements[j].key != key
    ensures i == -1 ==> forall j :: 0 <= j < |elements| ==> elements[j].key != key
  {
    if elements == [] then -1
    else if elements[0].key == key then 0
    else
      var rest := KeyIndex(elements[1..], key);
      if rest == -1 then -1 else rest + 1
  }

  /** The first position in `lo .. hi` whose key is not below `key`, by halving the range. */
  function LowerBound(elements: seq<Element>, key: Str, lo: nat, hi: nat): (i: nat)
    requires lo <= hi <= |elements|
    ensures lo <= i <= hi
    decreases hi - lo
  {
    if lo == hi then lo
    else
      var mid := (lo + hi) / 2;
      if CompareKeys(elements[mid].key, key) < 0 then LowerBound(elements, key, mid + 1, hi)
      else LowerBound(elements, key, lo, mid)
  }

  /**
   * SortedList.FirstIndexOf with CompareKeys: the lower bound of `key`, when
   * the key there compares equal to `key`; -1 otherwise.
   */
  function FirstIndexOf(elements: seq<Element>, key: Str): (i: int)
    ensures i == -1 || (0 <= i < |elements| && elements[i].key == key)
    ensures (forall j :: 0 <= j < |elements| ==> elements[j].key != key) ==> i == -1
  {
    var i := LowerBound(elements, key, 0, |elements|);
    if i < |elements| && CompareKeys(elements[i].key, key) == 0 then
      CompareKeysZero(elements[i].key, key);
      i
    else -1
  }

  /** On a sorted list the lower bound splits the keys below `key` from the rest. */
  lemma {:induction false} LowerBoundSplits(elements: seq<Element>, key: Str, lo: nat, hi: nat)
    requires lo <= hi <= |elements|
    requires Sorted(elements)
    requires forall j :: 0 <= j < lo ==> CompareKeys(elements[j].key, key) < 0
    requires forall j :: hi <= j < |elements| ==> CompareKeys(elements[j].key, key) >= 0
    ensures var i := LowerBound(elements, key, lo, hi);
      && (forall j :: 0 <= j < i ==> CompareKeys(elements[j].key, key) < 0)
      && (forall j :: i <= j < |elements| ==> CompareKeys(elements[j].key, key) >= 0)
    decreases hi - lo
  {
    if lo < hi {
      var mid := (lo + hi) / 2;
      if CompareKeys(elements[mid].key, key) < 0 {
        BelowFromSorted(elements, key, mid);
        LowerBoundSplits(elements, key, mid + 1, hi);
      } else {
        AboveFromSorted(elements, key, mid);
        LowerBoundSplits(elements, key, lo, mid);
      }
    }
  }

  /** In a sorted list, every key up to one below `key` is below `key`. */
  lemma BelowFromSorted(elements: seq<Element>, key: Str, mid: nat)
    requires Sorted(elements)
    requires mid < |elements| && CompareKeys(elements[mid].key, key) < 0
    ensures forall j :: 0 <= j <= mid ==> CompareKeys(elements[j].key, key) < 0
  {
    forall j | 0 <= j < mid
      ensures CompareKeys(elements[j].key, key) < 0
    {
      CompareKeysStrictTransitiveLeft(elements[j].key, elements[mid].key, key);
    }
  }

  /** In a sorted list, every key from one not below `key` on is not below `key`. */
  lemma AboveFromSorted(elements: seq<Element>, key: Str, mid: nat)
    requires Sorted(elements)
    requires mid < |elements| && CompareKeys(elements[mid].key, key) >= 0
    ensures forall j :: mid <= j < |elements| ==> CompareKeys(elements[j].key, key) >= 0
  {
    forall j | mid < j < |elements|
      ensures CompareKeys(elements[j].key, key) >= 0
    {
      CompareKeysAtLeast(elements[mid].key, elements[j].key, key);
    }
  }

  /** A key at or below one that is below `c` is below `c`. */
  lemma CompareKeysStrictTransitiveLeft(a: Str, b: Str, c: Str)
    requires CompareKeys(a, b) <= 0 && CompareKeys(b, c) < 0
    ensures CompareKeys(a, c) < 0
  {
    CompareKeysTransitive(a, b, c);
    CompareKeysZero(a, c);
    CompareKeysAntisymmetric(b, c);
  }

  /** A key at or above one that is not below `c` is not below `c`. */
  lemma CompareKeysAtLeast(b: Str, a: Str, c: Str)
    requires CompareKeys(b, a) <= 0 && CompareKeys(b, c) >= 0
    ensures CompareKeys(a, c) >= 0
  {
    if CompareKeys(a, c) < 0 {
      CompareKeysTransitive(b, a, c);
      CompareKeysZero(b, c);
      CompareKeysZero(a, c);
    }
  }

  /** On a sorted list the binary search finds the first position holding the key, and -1 exactly when none does. */
  lemma FirstIndexOfSorted(elements: seq<Element>, key: Str)
    requires Sorted(elements)
    ensures FirstIndexOf(elements, key) == KeyIndex(elements, key)
  {
    var i := LowerBound(elements, key, 0, |elements|);
    LowerBoundSplits(elements, key, 0, |elements|);
    forall j | 0 <= j < i
      ensures elements[j].key != key
    {
      CompareKeysZero(elements[j].key, key);
    }
    if i < |elements| {
      CompareKeysZero(elements[i].key, key);
      if elements[i].key != key {
        forall j | i <= j < |elements|
          ensures elements[j].key != key
        {
          CompareKeysZero(elements[j].key, key);
          if j > i {
            CompareKeysAntisymmetric(elements[i].key, key);
            CompareKeysStrictTransitive(key, elements[i].key, elements[j].key);
            CompareKeysZero(key, elements[j].key);
          }
        }
      }
    }
  }

  /** The value a lookup of `key` in `elements` returns, if any. */
  function Lookup(elements: seq<Element>, key: Str): Option<Value> {
    var index := FirstIndexOf(elements, key);
    if index == -1 then None else Some(elements[index].value)
  }

  /**
   * A lookup only returns the value of an element with that key, returns
   * nothing when no element has it, and on a sorted list returns the value
   * of the first element holding it.
   */
  lemma LookupFinds(elements: seq<Element>, key: Str)
    ensures var r := Lookup(elements, key);
      r.Some? ==> exists i :: 0 <= i < |elements| && elements[i] == Element(key, r.value)
    ensures (forall i :: 0 <= i < |elements| ==> elements[i].key != key) ==> Lookup(elements, key) == None
    ensures Sorted(elements) ==>
      var i := KeyIndex(elements, key);
      Lookup(elements, key) == if i == -1 then None else Some(elements[i].value)
  {
    var index := FirstIndexOf(elements, key);
    if index != -1 {
      assert elements[index] == Element(key, elements[index].value);
    }
    if Sorted(elements) {
      FirstIndexOfSorted(elements, key);
    }
  }

  /** GetElements: an inline bucket's own list, or the list read from the pages under its location. */
  function Elements(rd: Database.Reader, bucket: Bucket): Result<seq<Element>> {
    match bucket
    case Inline(elements) => Success(elements)
    case PageBacked(location) => Database.ReadBucketSpec(rd, location)
  }

  /** A page-backed bucket's elements carry no bucket locations: every one was materialised. */
  lemma PageBackedElementsMaterialised(rd: Database.Reader, location: BucketLocation)
    requires Elements(rd, PageBacked(location)).Success?
    ensures forall e :: e in Elements(rd, PageBacked(location)).value ==> !e.value.LocationValue?
  {
    Database.ReadBucketElements(rd, location);
  }

  /** A nested bucket with its key. */
  datatype NamedBucket = NamedBucket(key: Str, bucket: Bucket)

  /** The bucket-valued elements, in list order. */
  function BucketsOf(elements: seq<Element>): seq<NamedBucket> {
    if elements == [] then []
    else
      var init := BucketsOf(elements[..|elements| - 1]);
      var last := elements[|elements| - 1];
      if last.value.BucketValue? then init + [NamedBucket(last.key, last.value.bucket)] else init
  }

  /**
   * BucketsOf is a filter: its entries are the bucket-valued elements at
   * strictly increasing positions, every bucket-valued element among them,
   * keys and buckets carried over.
   */
  lemma {:induction false} BucketsOfIsFilter(elements: seq<Element>) returns (positions: seq<nat>)
    ensures |positions| == |BucketsOf(elements)|
    ensures forall k :: 0 <= k < |positions| ==> positions[k] < |elements|
    ensures forall k, l :: 0 <= k < l < |positions| ==> positions[k] < positions[l]
    ensures forall k :: 0 <= k < |positions| ==>
      var e := elements[positions[k]];
      e.value.BucketValue? && BucketsOf(elements)[k] == NamedBucket(e.key, e.value.bucket)
    ensures forall i :: 0 <= i < |elements| && elements[i].value.BucketValue? ==> i in positions
  {
    if elements == [] {
      positions := [];
    } else {
      var n := |elements| - 1;
      var init := elements[..n];
      positions := BucketsOfIsFilter(init);
      assert forall i :: 0 <= i < n ==> init[i] == elements[i];
      if elements[n].value.BucketValue? {
        positions := positions + [n];
      }
    }
  }

  /** GetElements. */
  method GetElements(db: Database.BoltDatabase, bucket: Bucket) returns (r: Result<seq<Element>>)
    ensures r == Elements(db.State(), bucket)
  {
    match bucket
    case Inline(elements) =>
      r := Success(elements);
    case PageBacked(location) =>
      r := db.ReadBucket(location);
  }

  /** GetElementValueByKey: the lookup of `key` in the bucket's elements. */
  method GetElementValueByKey(db: Database.BoltDatabase, bucket: Bucket, key: Str) returns (r: Result<Option<Value>>)
    ensures r.Success? <==> Elements(db.State(), bucket).Success?
    ensures r.Failure? ==> r.error == Elements(db.State(), bucket).error
    ensures r.Success? ==> r.value == Lookup(Elements(db.State(), bucket).value, key)
  {
    var elements := GetElements(db, bucket);
    if elements.Failure? {
      return Failure(elements.error);
    }
    var index := FirstIndexOf(elements.value, key);
    if index == -1 {
      return Success(None);
    }
    r := Success(Some(elements.value[index].value));
  }

  /** GetStringValueByKey: the decoded text of a raw value under `key`; nothing for any other value. */
  method GetStringValueByKey(db: Database.BoltDatabase, bucket: Bucket, key: Str) returns (r: Result<Option<Str>>)
    ensures r.Success? <==> Elements(db.State(), bucket).Success?
    ensures r.Failure? ==> r.error == Elements(db.State(), bucket).error
    ensures r.Success? ==>
      var found := Lookup(Elements(db.State(), bucket).value, key);
      && (r.value.Some? <==> found.Some? && found.value.RawBytes?)
      && (r.value.Some? ==> r.value.value == db.utf8(found.value.bytes))
  {
    var value := GetElementValueByKey(db, bucket, key);
    if value.Failure? {
      return Failure(value.error);
    }
    if value.value.Some? && value.value.value.RawBytes? {
      return Success(Some(db.utf8(value.value.value.bytes)));
    }
    r := Success(None);
  }

  /** The nested bucket a lookup of `key` gives, if the value there is a bucket. */
  function BucketByKey(elements: seq<Element>, key: Str): (r: Option<Bucket>)
    ensures r.Some? <==> Lookup(elements, key).Some? && Lookup(elements, key).value.BucketValue?
    ensures r.Some? ==> Lookup(elements, key) == Some(BucketValue(r.value))
  {
    match Lookup(elements, key)
    case Some(BucketValue(bucket)) => Some(bucket)
    case _ => None
  }

  /** GetBucket(string): the bucket under `key`; nothing when the value there is not a bucket. */
  method GetBucket(db: Database.BoltDatabase, bucket: Bucket, key: Str) returns (r: Result<Option<Bucket>>)
    ensures r.Success? <==> Elements(db.State(), bucket).Success?
    ensures r.Failure? ==> r.error == Elements(db.State(), bucket).error
    ensures r.Success? ==> r.value == BucketByKey(Elements(db.State(), bucket).value, key)
  {
    var value := GetElementValueByKey(db, bucket, key);
    if value.Failure? {
      return Failure(value.error);
    }
    if value.value.Some? && value.value.value.BucketValue? {
      return Success(Some(value.value.value.bucket));
    }
    r := Success(None);
  }

  /** GetBuckets: the bucket-valued elements with their keys, in list order. */
  method GetBuckets(db: Database.BoltDatabase, bucket: Bucket) returns (r: Result<seq<NamedBucket>>)
    ensures r.Success? <==> Elements(db.State(), bucket).Success?
    ensures r.Failure? ==> r.error == Elements(db.State(), bucket).error
    ensures r.Success? ==> r.value == BucketsOf(Elements(db.State(), bucket).value)
  {
    var elements := GetElements(db, bucket);
    if elements.Failure? {
      return Failure(elements.error);
    }
    var result: seq<NamedBucket> := [];
    var index := 0;
    while index < |elements.value|
      invariant 0 <= index <= |elements.value|
      invariant result == BucketsOf(elements.value[..index])
    {
      var element := elements.value[index];
      assert elements.value[..index + 1][..index] == elements.value[..index];
      if element.value.BucketValue? {
        result := result + [NamedBucket(element.key, element.value.bucket)];
      }
      index := index + 1;
    }
    assert elements.value[..index] == elements.value;
    r := Success(result);
  }

  /**
   * BoltDatabase.GetBucket(string): the bucket under `key` in the root
   * bucket of the current meta page; an inline root location is refused.
   */
  method GetBucketByName(db: Database.BoltDatabase, key: Str) returns (r: Result<Option<Bucket>>)
    requires db.Valid()
    ensures var root := db.GetCurrentMetaPage().root;
      && (root.root == 0 ==> r == Failure(InvalidOperation))
      && (root.root != 0 ==>
        && (r.Success? <==> Elements(db.State(), PageBacked(root)).Success?)
        && (r.Failure? ==> r.error == Elements(db.State(), PageBacked(root)).error)
        && (r.Success? ==> r.value == BucketByKey(Elements(db.State(), PageBacked(root)).value, key)))
  {
    var rootBucket := db.GetRootBucket();
    if rootBucket.Failure? {
      return Failure(rootBucket.error);
    }
    r := GetBucket(db, rootBucket.value, key);
  }
}
