/**
 * The database reader: the file image, the page size and the two meta page
 * candidates found when the database is opened, and the page walks that
 * read a bucket's elements from its B+tree.
 *
 * The file is an immutable byte sequence; a stream read at a position is
 * `ReadAt`, which stops short at the end of the file. The FNV-1a checksum and
 * the UTF-8 decoder are parameters. The tree walk has no cycle check in the
 * source, so the model bounds its depth by `maxDepth`.
 */
module Database {
  import opened Wrappers
  import opened LittleEndian
  import opened PageHeaders
  import opened MetaPages
  import opened BucketLocations
  import opened Entries
  import opened BranchPages
  import opened LeafPages

  const DefaultPageSize: nat := 4096

  /** The size of the header in front of every page's elements. */
  const PageHeaderSize: nat := 16

  /** A decoded content page. */
  datatype Page =
    | BranchPageOf(branchElements: seq<BranchElement>)
    | LeafPageOf(leafElements: seq<Element>)

  /** What page reads depend on: the file, the page size, the key decoder and the walk's depth bound. */
  datatype Reader = Reader(file: seq<byte>, pageSize: nat, utf8: seq<byte> -> Str, maxDepth: nat)

  /** The outcome of reading the meta pages: the page size and the two candidates. */
  datatype MetaCandidates = MetaCandidates(pageSize: nat, meta1: Option<MetaPage>, meta2: Option<MetaPage>)

  /** A candidate that is present and valid. */
  predicate ValidCandidate(hash: seq<byte> -> u64, m: Option<MetaPage>) {
    m.Some? && IsValid(hash, m.value)
  }

  /** The meta record after `header`, read only when the header has the meta bit. */
  function MetaCandidate(header: Read<PageHeader>, page: seq<byte>): Result<Option<MetaPage>> {
    if IsMetaPage(header.value) then
      var meta :- DecodeMetaPage(page, header.next);
      Success(Some(meta.value))
    else
      Success(None)
  }

  /**
   * ReadMetaPages. The first block is read at 0 with the default size; a
   * valid first candidate sets the page size, and the second block is the
   * page-size bytes at the page size. The second candidate's header is
   * decoded from the FIRST block's bytes (BoltDatabase.cs line 58), so the
   * second record is looked at only when page 0 has the meta bit. Opening
   * fails when neither candidate is valid.
   */
  function LoadMetaPages(file: seq<byte>, hash: seq<byte> -> u64): Result<MetaCandidates> {
    var page1 := ReadAt(file, 0, DefaultPageSize);
    var header1 :- DecodePageHeader(page1, 0);
    var meta1 :- MetaCandidate(header1, page1);
    var pageSize := if ValidCandidate(hash, meta1) then meta1.value.pageSize as nat else DefaultPageSize;
    var page2 := ReadAt(file, pageSize, pageSize);
    var header2 := DecodePageHeader(page1, 0).value;
    var meta2 :- MetaCandidate(header2, page2);
    if !ValidCandidate(hash, meta1) && !ValidCandidate(hash, meta2) then
      Failure(InvalidData)
    else
      Success(MetaCandidates(pageSize, meta1, meta2))
  }

  /**
   * An opened database has a valid candidate; the first candidate exists
   * exactly when page 0 has the meta bit and is read right after its header;
   * the page size is the first candidate's only when that one is valid.
   */
  lemma LoadedMetaPages(file: seq<byte>, hash: seq<byte> -> u64)
    requires LoadMetaPages(file, hash).Success?
    ensures var c := LoadMetaPages(file, hash).value;
      ValidCandidate(hash, c.meta1) || ValidCandidate(hash, c.meta2)
    ensures var c := LoadMetaPages(file, hash).value;
      var page1 := ReadAt(file, 0, DefaultPageSize);
      && DecodePageHeader(page1, 0).Success?
      && (c.meta1.Some? <==> IsMetaPage(DecodePageHeader(page1, 0).value.value))
      && (c.meta1.Some? ==> DecodeMetaPage(page1, PageHeaderSize) == Success(Read(c.meta1.value, 80)))
    ensures var c := LoadMetaPages(file, hash).value;
      c.pageSize == if ValidCandidate(hash, c.meta1) then c.meta1.value.pageSize as nat else DefaultPageSize
  {
  }

  /**
   * When page 0's header and both candidates decode, opening succeeds
   * exactly when one of the candidates is valid, and otherwise fails with
   * InvalidData.
   */
  lemma OpensExactlyWithValidCandidate(file: seq<byte>, hash: seq<byte> -> u64, meta1: Option<MetaPage>, meta2: Option<MetaPage>)
    requires DecodePageHeader(ReadAt(file, 0, DefaultPageSize), 0).Success?
    requires MetaCandidate(DecodePageHeader(ReadAt(file, 0, DefaultPageSize), 0).value, ReadAt(file, 0, DefaultPageSize)) == Success(meta1)
    requires var pageSize := if ValidCandidate(hash, meta1) then meta1.value.pageSize as nat else DefaultPageSize;
      MetaCandidate(DecodePageHeader(ReadAt(file, 0, DefaultPageSize), 0).value, ReadAt(file, pageSize, pageSize)) == Success(meta2)
    ensures LoadMetaPages(file, hash).Success? <==> ValidCandidate(hash, meta1) || ValidCandidate(hash, meta2)
    ensures LoadMetaPages(file, hash).Success? ==>
      LoadMetaPages(file, hash).value.meta1 == meta1 && LoadMetaPages(file, hash).value.meta2 == meta2
    ensures LoadMetaPages(file, hash).Failure? ==> LoadMetaPages(file, hash).error == InvalidData
  {
  }

  /**
   * The line-58 defect: the second candidate is read from the block at the
   * page size, but whether it is read at all is decided by page 0's header,
   * so it exists exactly when the first one does.
   */
  lemma SecondCandidateFollowsFirstPage(file: seq<byte>, hash: seq<byte> -> u64)
    requires LoadMetaPages(file, hash).Success?
    ensures var c := LoadMetaPages(file, hash).value;
      (c.meta2.Some? <==> c.meta1.Some?)
    ensures var c := LoadMetaPages(file, hash).value;
      c.meta2.Some? ==> DecodeMetaPage(ReadAt(file, c.pageSize, c.pageSize), PageHeaderSize) == Success(Read(c.meta2.value, 80))
  {
  }

  /**
   * Consequence of the line-58 defect: when page 0 decodes but is not a meta
   * page, opening fails with InvalidData whatever the second block holds.
   */
  lemma NonMetaFirstPageFailsOpen(file: seq<byte>, hash: seq<byte> -> u64)
    requires DecodePageHeader(ReadAt(file, 0, DefaultPageSize), 0).Success?
    requires !IsMetaPage(DecodePageHeader(ReadAt(file, 0, DefaultPageSize), 0).value.value)
    ensures LoadMetaPages(file, hash) == Failure(InvalidData)
  {
  }

  /** GetCurrentMetaPage: the later transaction when both are valid (ties go to the second), else the valid one. */
  function SelectMeta(hash: seq<byte> -> u64, meta1: Option<MetaPage>, meta2: Option<MetaPage>): Option<MetaPage> {
    var firstValid := ValidCandidate(hash, meta1);
    var secondValid := ValidCandidate(hash, meta2);
    if firstValid && secondValid then
      if meta1.value.txId > meta2.value.txId then meta1 else meta2
    else if firstValid then meta1
    else meta2
  }

  /**
   * The selected candidate is one of the two; when either is valid it is a
   * valid one with the largest transaction id among the valid ones, and the
   * second wins a tie.
   */
  lemma SelectMetaChoice(hash: seq<byte> -> u64, meta1: Option<MetaPage>, meta2: Option<MetaPage>)
    ensures var m := SelectMeta(hash, meta1, meta2);
      m == meta1 || m == meta2
    ensures var m := SelectMeta(hash, meta1, meta2);
      ValidCandidate(hash, meta1) || ValidCandidate(hash, meta2) ==> ValidCandidate(hash, m)
    ensures var m := SelectMeta(hash, meta1, meta2);
      && (ValidCandidate(hash, meta1) && m.Some? ==> m.value.txId >= meta1.value.txId)
      && (ValidCandidate(hash, meta2) && m.Some? ==> m.value.txId >= meta2.value.txId)
    ensures ValidCandidate(hash, meta1) && ValidCandidate(hash, meta2) && meta1.value.txId == meta2.value.txId ==>
      SelectMeta(hash, meta1, meta2) == meta2
    ensures !ValidCandidate(hash, meta2) && ValidCandidate(hash, meta1) ==> SelectMeta(hash, meta1, meta2) == meta1
    ensures !ValidCandidate(hash, meta1) ==> SelectMeta(hash, meta1, meta2) == meta2
  {
  }

  /** The content of a page with header `h` whose bytes are `bytes`: branch first, then leaf, then free list. */
  function DecodePage(utf8: seq<byte> -> Str, bytes: seq<byte>, h: PageHeader): Result<Option<Page>> {
    if IsBranchPage(h) then
      var elements :- BranchElements(utf8, bytes, PageHeaderSize, h.count);
      Success(Some(BranchPageOf(elements)))
    else if IsLeafPage(h) then
      var elements :- LeafElements(utf8, bytes, PageHeaderSize, h.count);
      Success(Some(LeafPageOf(elements)))
    else if IsFreeListPage(h) then
      Success(None)
    else
      Failure(InvalidData)
  }

  /**
   * Dispatch on the type bits in a fixed order: a page with the branch bit is
   * a branch page whatever its other bits, one with the leaf bit but not the
   * branch bit is a leaf page, a free-list page has no content, and a page
   * with none of these bits is invalid.
   */
  lemma DecodePageDispatch(utf8: seq<byte> -> Str, bytes: seq<byte>, h: PageHeader)
    ensures var r := DecodePage(utf8, bytes, h);
      r.Success? && r.value.Some? && r.value.value.BranchPageOf? <==>
        IsBranchPage(h) && BranchElements(utf8, bytes, PageHeaderSize, h.count).Success?
    ensures var r := DecodePage(utf8, bytes, h);
      r.Success? && r.value.Some? && r.value.value.LeafPageOf? <==>
        !IsBranchPage(h) && IsLeafPage(h) && LeafElements(utf8, bytes, PageHeaderSize, h.count).Success?
    ensures DecodePage(utf8, bytes, h) == Success(None) <==> !IsBranchPage(h) && !IsLeafPage(h) && IsFreeListPage(h)
    ensures !IsBranchPage(h) && !IsLeafPage(h) && !IsFreeListPage(h) ==> DecodePage(utf8, bytes, h) == Failure(InvalidData)
  {
  }

  /** The meta record after a page header, read only when the header has the meta bit. */
  method ReadMetaCandidate(header: Read<PageHeader>, page: seq<byte>) returns (r: Result<Option<MetaPage>>)
    ensures r == MetaCandidate(header, page)
  {
    if IsMetaPage(header.value) {
      var meta := DecodeMetaPage(page, header.next);
      if meta.Failure? {
        return Failure(meta.error);
      }
      return Success(Some(meta.value.value));
    }
    r := Success(None);
  }

  /** The dispatch at the end of ReadPage: decodes the elements after the header by the page's type bits. */
  method DecodePageContent(utf8: seq<byte> -> Str, bytes: seq<byte>, h: PageHeader) returns (r: Result<Option<Page>>)
    ensures r == DecodePage(utf8, bytes, h)
  {
    if IsBranchPage(h) {
      var elements, _ := DecodeBranchPage(utf8, bytes, PageHeaderSize, h.count);
      if elements.Failure? {
        return Failure(elements.error);
      }
      r := Success(Some(BranchPageOf(elements.value)));
    } else if IsLeafPage(h) {
      var elements, _ := DecodeLeafPage(utf8, bytes, PageHeaderSize, h.count);
      if elements.Failure? {
        return Failure(elements.error);
      }
      r := Success(Some(LeafPageOf(elements.value)));
    } else if IsFreeListPage(h) {
      r := Success(None);
    } else {
      r := Failure(InvalidData);
    }
  }

  /** The byte offset of page `id`. */
  function PageOffset(rd: Reader, id: u64): nat {
    id * rd.pageSize
  }

  /** The bytes of page `id` whose header says `overflow`: its own block, then the overflow blocks that follow it. */
  function PageBytes(rd: Reader, id: u64, overflow: u32): seq<byte> {
    var first := ReadAt(rd.file, PageOffset(rd, id), rd.pageSize);
    if overflow > 0 then first + ReadAt(rd.file, PageOffset(rd, id) + rd.pageSize, rd.pageSize * overflow)
    else first
  }

  /** ReadPage: the header from the page's own block, then the content from the page and its overflow blocks. */
  function ReadPageSpec(rd: Reader, id: u64): Result<Option<Page>> {
    var header :- DecodePageHeader(ReadAt(rd.file, PageOffset(rd, id), rd.pageSize), 0);
    DecodePage(rd.utf8, PageBytes(rd, id, header.value.overflow), header.value)
  }

  /** A page with `overflow` overflow pages spans `1 + overflow` page sizes from its offset. */
  lemma PageBytesSpan(rd: Reader, id: u64, overflow: u32)
    ensures PageBytes(rd, id, overflow) == ReadAt(rd.file, PageOffset(rd, id), rd.pageSize * (1 + overflow))
  {
    var position, size := PageOffset(rd, id), rd.pageSize;
    var rest := size * overflow;
    OnePlusTimes(size, overflow);
    ReadAtSplit(rd.file, position, size, rest);
    if overflow == 0 {
      assert rest == 0;
      assert ReadAt(rd.file, position + size, rest) == [];
    }
  }

  lemma OnePlusTimes(a: nat, b: nat)
    ensures a + a * b == a * (1 + b)
  {
  }

  /** Page reads of `rd`, by page id. */
  function PageReads(rd: Reader): u64 -> Result<Option<Page>> {
    (id: u64) => ReadPageSpec(rd, id)
  }

  /**
   * ReadAllLeafPages over the page reads `read`: the element lists of the
   * leaves under page `id`, left to right. A walk deeper than `depth` pages
   * fails with DepthExceeded.
   */
  function ReadAllLeaves(read: u64 -> Result<Option<Page>>, id: u64, depth: nat): Result<seq<seq<Element>>>
    decreases depth, 0, 0
  {
    if depth == 0 then Failure(DepthExceeded)
    else
      var page :- read(id);
      match page
      case Some(LeafPageOf(elements)) => Success([elements])
      case Some(BranchPageOf(children)) => CollectChildren(read, children, depth - 1)
      case None => Failure(InvalidData)
  }

  /** The leaves under each child in turn, concatenated; the first failing child's error otherwise. */
  function CollectChildren(read: u64 -> Result<Option<Page>>, children: seq<BranchElement>, depth: nat): Result<seq<seq<Element>>>
    decreases depth, 1, |children|
  {
    if children == [] then Success([])
    else
      var init :- CollectChildren(read, children[..|children| - 1], depth);
      var last :- ReadAllLeaves(read, children[|children| - 1].childPageId, depth);
      Success(init + last)
  }

  /**
   * What the walk gives for each kind of page: the leaf's own list for a
   * leaf, its children's leaves for a branch, InvalidData for a free-list
   * page, and the read's error when the page cannot be read.
   */
  lemma ReadAllLeavesCases(read: u64 -> Result<Option<Page>>, id: u64, depth: nat)
    ensures depth == 0 ==> ReadAllLeaves(read, id, depth) == Failure(DepthExceeded)
    ensures depth > 0 && read(id).Failure? ==> ReadAllLeaves(read, id, depth) == Failure(read(id).error)
    ensures depth > 0 && read(id) == Success(None) ==> ReadAllLeaves(read, id, depth) == Failure(InvalidData)
    ensures depth > 0 && read(id).Success? && read(id).value.Some? && read(id).value.value.LeafPageOf? ==>
      ReadAllLeaves(read, id, depth) == Success([read(id).value.value.leafElements])
    ensures depth > 0 && read(id).Success? && read(id).value.Some? && read(id).value.value.BranchPageOf? ==>
      ReadAllLeaves(read, id, depth) == CollectChildren(read, read(id).value.value.branchElements, depth - 1)
  {
  }

  /** A single child contributes exactly the leaves under its page. */
  lemma CollectChildrenOne(read: u64 -> Result<Option<Page>>, child: BranchElement, depth: nat)
    ensures CollectChildren(read, [child], depth) == ReadAllLeaves(read, child.childPageId, depth)
  {
    assert [child][..0] == [];
    var last := ReadAllLeaves(read, child.childPageId, depth);
    if last.Success? {
      assert [] + last.value == last.value;
    }
  }

  /** Once a prefix of the children fails, all the children fail with the same error. */
  lemma {:induction false} ChildrenFailurePersists(read: u64 -> Result<Option<Page>>, children: seq<BranchElement>, k: nat, depth: nat)
    requires k <= |children|
    requires CollectChildren(read, children[..k], depth).Failure?
    ensures CollectChildren(read, children, depth) == CollectChildren(read, children[..k], depth)
    decreases |children|
  {
    if k < |children| {
      var init := children[..|children| - 1];
      assert init[..k] == children[..k];
      ChildrenFailurePersists(read, init, k, depth);
    } else {
      assert children[..k] == children;
    }
  }

  /** Collecting over two runs of children is collecting over each and concatenating, in order. */
  lemma {:induction false} CollectChildrenAppend(read: u64 -> Result<Option<Page>>, a: seq<BranchElement>, b: seq<BranchElement>, depth: nat)
    requires CollectChildren(read, a, depth).Success? && CollectChildren(read, b, depth).Success?
    ensures CollectChildren(read, a + b, depth) == Success(CollectChildren(read, a, depth).value + CollectChildren(read, b, depth).value)
    decreases |b|
  {
    if b != [] {
      var init, last := b[..|b| - 1], b[|b| - 1];
      var x, y := CollectChildren(read, a, depth).value, CollectChildren(read, init, depth).value;
      var leaves := ReadAllLeaves(read, last.childPageId, depth).value;
      assert CollectChildren(read, b, depth).value == y + leaves;
      CollectChildrenAppend(read, a, init, depth);
      assert (a + b)[..|a + b| - 1] == a + init;
      assert (a + b)[|a + b| - 1] == last;
      assert CollectChildren(read, a + b, depth) == Success((x + y) + leaves);
      assert (x + y) + leaves == x + (y + leaves);
    } else {
      assert a + b == a;
      assert CollectChildren(read, a, depth).value + CollectChildren(read, b, depth).value == CollectChildren(read, a, depth).value;
    }
  }

  /** A walk that succeeds within `depth` levels gives the same leaves with any larger bound. */
  lemma {:induction false} ReadAllLeavesDepth(read: u64 -> Result<Option<Page>>, id: u64, depth: nat, more: nat)
    requires ReadAllLeaves(read, id, depth).Success?
    requires depth <= more
    ensures ReadAllLeaves(read, id, more) == ReadAllLeaves(read, id, depth)
    decreases depth, 0, 0
  {
    match read(id).value {
      case Some(BranchPageOf(children)) => CollectChildrenDepth(read, children, depth - 1, more - 1);
      case _ =>
    }
  }

  /** Children that are all read within `depth` levels are read the same with any larger bound. */
  lemma {:induction false} CollectChildrenDepth(read: u64 -> Result<Option<Page>>, children: seq<BranchElement>, depth: nat, more: nat)
    requires CollectChildren(read, children, depth).Success?
    requires depth <= more
    ensures CollectChildren(read, children, more) == CollectChildren(read, children, depth)
    decreases depth, 1, |children|
  {
    if children != [] {
      CollectChildrenDepth(read, children[..|children| - 1], depth, more);
      ReadAllLeavesDepth(read, children[|children| - 1].childPageId, depth, more);
    }
  }

  /** The element lists of the leaves, one after the other. */
  function Concat(pages: seq<seq<Element>>): seq<Element> {
    if pages == [] then [] else Concat(pages[..|pages| - 1]) + pages[|pages| - 1]
  }

  /** A bucket location value becomes a page-backed bucket on the same location; any other value stays. */
  function Materialize(e: Element): Element {
    if e.value.LocationValue? then Element(e.key, BucketValue(PageBacked(e.value.location))) else e
  }

  function MaterializeAll(elements: seq<Element>): (r: seq<Element>)
    ensures |r| == |elements|
  {
    seq(|elements|, i requires 0 <= i < |elements| => Materialize(elements[i]))
  }

  /** ReadBucket: inline locations are refused; otherwise the leaves' elements in order, locations materialised. */
  function ReadBucketSpec(rd: Reader, location: BucketLocation): Result<seq<Element>> {
    if IsInlineBucket(location) then Failure(InvalidOperation)
    else
      var pages :- ReadAllLeaves(PageReads(rd), location.root, rd.maxDepth);
      Success(MaterializeAll(Concat(pages)))
  }

  /**
   * ReadBucket keeps every element's key and position; a location value
   * becomes a bucket on that location, every other value is unchanged, and
   * no location value is left.
   */
  lemma ReadBucketElements(rd: Reader, location: BucketLocation)
    requires ReadBucketSpec(rd, location).Success?
    ensures !IsInlineBucket(location) && ReadAllLeaves(PageReads(rd), location.root, rd.maxDepth).Success?
    ensures var r := ReadBucketSpec(rd, location).value;
      var elements := Concat(ReadAllLeaves(PageReads(rd), location.root, rd.maxDepth).value);
      && |r| == |elements|
      && forall i :: 0 <= i < |r| ==>
        && r[i].key == elements[i].key
        && !r[i].value.LocationValue?
        && (elements[i].value.LocationValue? ==> r[i].value == BucketValue(PageBacked(elements[i].value.location)))
        && (!elements[i].value.LocationValue? ==> r[i].value == elements[i].value)
  {
  }

  /** ReadBucket refuses an inline location. */
  lemma ReadBucketRefusesInline(rd: Reader, location: BucketLocation)
    ensures IsInlineBucket(location) ==> ReadBucketSpec(rd, location) == Failure(InvalidOperation)
  {
  }

  /** Materialising is done page by page or all at once alike. */
  lemma MaterializeAppend(a: seq<Element>, b: seq<Element>)
    ensures MaterializeAll(a + b) == MaterializeAll(a) + MaterializeAll(b)
  {
    assert forall i :: 0 <= i < |a + b| ==> MaterializeAll(a + b)[i] == (MaterializeAll(a) + MaterializeAll(b))[i];
  }

  /** GetBucket(BucketLocation): an inline location is refused; any other gives a page-backed bucket on it. */
  function GetBucket(location: BucketLocation): (r: Result<Bucket>)
    ensures r.Success? <==> !IsInlineBucket(location)
    ensures r.Failure? ==> r.error == InvalidOperation
    ensures r.Success? ==> r.value.PageBacked? && r.value.location == location
  {
    if IsInlineBucket(location) then Failure(InvalidOperation) else Success(PageBacked(location))
  }

  /** An opened database: the file, the checksum and key decoders, and the state ReadMetaPages leaves. */
  class BoltDatabase {
    const file: seq<byte>
    const hash: seq<byte> -> u64
    const utf8: seq<byte> -> Str
    const maxDepth: nat
    var pageSize: nat
    var meta1: Option<MetaPage>
    var meta2: Option<MetaPage>

    /** The state is the one reading the meta pages of `file` yields. */
    ghost predicate Valid()
      reads this
    {
      LoadMetaPages(file, hash) == Success(MetaCandidates(pageSize, meta1, meta2))
    }

    /** What page reads depend on. */
    function State(): Reader
      reads this
    {
      Reader(file, pageSize, utf8, maxDepth)
    }

    /** A database over `file` before its meta pages are read: default page size, no candidates. */
    constructor(file: seq<byte>, hash: seq<byte> -> u64, utf8: seq<byte> -> Str, maxDepth: nat)
      ensures this.file == file && this.hash == hash && this.utf8 == utf8 && this.maxDepth == maxDepth
      ensures pageSize == DefaultPageSize && meta1 == None && meta2 == None
    {
      this.file := file;
      this.hash := hash;
      this.utf8 := utf8;
      this.maxDepth := maxDepth;
      pageSize := DefaultPageSize;
      meta1 := None;
      meta2 := None;
    }

    /** The BoltDatabase(Stream) constructor: builds the database and reads its meta pages. */
    static method Open(file: seq<byte>, hash: seq<byte> -> u64, utf8: seq<byte> -> Str, maxDepth: nat)
      returns (r: Result<BoltDatabase>)
      ensures r.Success? <==> LoadMetaPages(file, hash).Success?
      ensures r.Failure? ==> r.error == LoadMetaPages(file, hash).error
      ensures r.Success? ==> fresh(r.value) && r.value.Valid()
      ensures r.Success? ==> r.value.file == file && r.value.hash == hash && r.value.utf8 == utf8 && r.value.maxDepth == maxDepth
    {
      var db := new BoltDatabase(file, hash, utf8, maxDepth);
      var outcome := db.ReadMetaPages();
      if outcome.Fail? {
        return Failure(outcome.error);
      }
      r := Success(db);
    }

    /**
     * ReadMetaPages: sets the page size and the two candidates step by step,
     * failing as the source throws.
     */
    method ReadMetaPages() returns (outcome: Outcome)
      requires meta1 == None && meta2 == None
      modifies this
      ensures outcome.Pass? <==> LoadMetaPages(file, hash).Success?
      ensures outcome.Fail? ==> outcome.error == LoadMetaPages(file, hash).error
      ensures outcome.Pass? ==> Valid()
    {
      pageSize := DefaultPageSize;
      var page1 := ReadAt(file, 0, pageSize);
      var header1 := DecodePageHeader(page1, 0);
      if header1.Failure? {
        return Fail(header1.error);
      }
      var candidate1 := ReadMetaCandidate(header1.value, page1);
      if candidate1.Failure? {
        return Fail(candidate1.error);
      }
      meta1 := candidate1.value;
      if IsMetaPage(header1.value.value) && IsValid(hash, meta1.value) {
        pageSize := meta1.value.pageSize;
      }
      // The stream stands at the default page size after the first block,
      // or is moved to the page size: either way the second block starts there.
      var page2 := ReadAt(file, pageSize, pageSize);
      var header2 := DecodePageHeader(page1, 0);
      assert header2 == header1;
      var candidate2 := ReadMetaCandidate(header2.value, page2);
      if candidate2.Failure? {
        return Fail(candidate2.error);
      }
      meta2 := candidate2.value;
      var isFirstPageValid := IsMetaPage(header1.value.value) && IsValid(hash, meta1.value);
      var isSecondPageValid := IsMetaPage(header2.value.value) && IsValid(hash, meta2.value);
      if !isFirstPageValid && !isSecondPageValid {
        return Fail(InvalidData);
      }
      outcome := Pass;
    }

    /** GetCurrentMetaPage on an opened database: a valid candidate, with the largest valid transaction id. */
    function GetCurrentMetaPage(): (m: MetaPage)
      requires Valid()
      reads this
      ensures Some(m) == meta1 || Some(m) == meta2
      ensures IsValid(hash, m)
      ensures ValidCandidate(hash, meta1) ==> m.txId >= meta1.value.txId
      ensures ValidCandidate(hash, meta2) ==> m.txId >= meta2.value.txId
    {
      LoadedMetaPages(file, hash);
      SelectMetaChoice(hash, meta1, meta2);
      SelectMeta(hash, meta1, meta2).value
    }

    /** ReadPage: the page's block, its overflow blocks when the header has any, then the dispatch. */
    method ReadPage(id: u64) returns (r: Result<Option<Page>>)
      ensures r == ReadPageSpec(State(), id)
    {
      var rd := State();
      var offsetInFile := id * pageSize;
      assert offsetInFile == PageOffset(rd, id);
      var pageBytes := ReadAt(file, offsetInFile, pageSize);
      var header := DecodePageHeader(pageBytes, 0);
      if header.Failure? {
        return Failure(header.error);
      }
      if header.value.value.overflow > 0 {
        var overflowPages := ReadAt(file, offsetInFile + pageSize, pageSize * header.value.value.overflow);
        pageBytes := pageBytes + overflowPages;
      }
      assert pageBytes == PageBytes(rd, id, header.value.value.overflow);
      r := DecodePageContent(utf8, pageBytes, header.value.value);
      assert r == DecodePage(rd.utf8, PageBytes(rd, id, header.value.value.overflow), header.value.value);
    }

    /** ReadAllLeafPages: a leaf is its own list; a branch appends its children's lists in element order. */
    method ReadAllLeafPages(id: u64, depth: nat) returns (r: Result<seq<seq<Element>>>)
      ensures r == ReadAllLeaves(PageReads(State()), id, depth)
      decreases depth, 0
    {
      if depth == 0 {
        return Failure(DepthExceeded);
      }
      ghost var read := PageReads(State());
      var page := ReadPage(id);
      assert read(id) == page;
      if page.Failure? {
        return Failure(page.error);
      }
      if page.value.None? {
        return Failure(InvalidData);
      }
      match page.value.value
      case LeafPageOf(elements) =>
        r := Success([elements]);
      case BranchPageOf(children) =>
        r := ReadChildren(children, depth - 1);
    }

    /** The loop of ReadAllLeafPages over a branch page's children, appending each child's leaves. */
    method ReadChildren(children: seq<BranchElement>, depth: nat) returns (r: Result<seq<seq<Element>>>)
      ensures r == CollectChildren(PageReads(State()), children, depth)
      decreases depth, 1
    {
      ghost var read := PageReads(State());
      var result: seq<seq<Element>> := [];
      var index := 0;
      while index < |children|
        invariant 0 <= index <= |children|
        invariant CollectChildren(read, children[..index], depth) == Success(result)
      {
        var elementPages := ReadAllLeafPages(children[index].childPageId, depth);
        assert children[..index + 1][..index] == children[..index];
        if elementPages.Failure? {
          ChildrenFailurePersists(read, children, index + 1, depth);
          return Failure(elementPages.error);
        }
        result := result + elementPages.value;
        index := index + 1;
      }
      assert children[..index] == children;
      r := Success(result);
    }

    /**
     * ReadBucket: refuses inline locations, then walks the leaves from the
     * root page, replacing location values in each leaf's list in place and
     * appending the list to the result.
     */
    method ReadBucket(location: BucketLocation) returns (r: Result<seq<Element>>)
      ensures r == ReadBucketSpec(State(), location)
    {
      if IsInlineBucket(location) {
        return Failure(InvalidOperation);
      }
      var pages := ReadAllLeafPages(location.root, maxDepth);
      if pages.Failure? {
        return Failure(pages.error);
      }
      var result: seq<Element> := [];
      var p := 0;
      while p < |pages.value|
        invariant 0 <= p <= |pages.value|
        invariant result == MaterializeAll(Concat(pages.value[..p]))
      {
        var leafElements := pages.value[p];
        var index := 0;
        while index < |leafElements|
          invariant 0 <= index <= |leafElements| == |pages.value[p]|
          invariant forall k :: 0 <= k < index ==> leafElements[k] == Materialize(pages.value[p][k])
          invariant forall k :: index <= k < |leafElements| ==> leafElements[k] == pages.value[p][k]
        {
          if leafElements[index].value.LocationValue? {
            leafElements := leafElements[index := Element(leafElements[index].key, BucketValue(PageBacked(leafElements[index].value.location)))];
          }
          index := index + 1;
        }
        assert leafElements == MaterializeAll(pages.value[p]);
        assert pages.value[..p + 1][..p] == pages.value[..p];
        MaterializeAppend(Concat(pages.value[..p]), pages.value[p]);
        result := result + leafElements;
        p := p + 1;
      }
      assert pages.value[..p] == pages.value;
      r := Success(result);
    }

    /** GetRootBucket: the bucket at the current meta page's root location, refused when that is inline. */
    method GetRootBucket() returns (r: Result<Bucket>)
      requires Valid()
      ensures r.Success? <==> GetCurrentMetaPage().root.root != 0
      ensures r.Success? ==> r.value == PageBacked(GetCurrentMetaPage().root)
      ensures r.Failure? ==> r.error == InvalidOperation
    {
      var metaPage := GetCurrentMetaPage();
      r := GetBucket(metaPage.root);
    }
  }
}
