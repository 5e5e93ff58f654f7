# BoltDB reader, modelled in Dafny

This project models the read-only BoltDB decoder of HewlettPackard/BoltDB, a C#
library that opens a Bolt key/value database file and walks its B+tree. The
model covers the following.

- **Page headers** (`PageHeaders`). These are the 16-byte headers that begin
  every page: page id, type flags, element count and overflow count.
- **Meta records** (`MetaPages`). These are the 64-byte records on the two meta
  pages. They hold the signature, version, page size, root bucket location,
  transaction id and an FNV-1a checksum of the preceding 56 bytes.
- **Bucket locations** (`BucketLocations`). A bucket location is a root page id
  plus a sequence counter. A root of 0 marks an inline bucket.
- **Branch and leaf pages** (`BranchPages`, `LeafPages`). Their element
  descriptors point at keys and values relative to the descriptor. A leaf
  value flagged as a bucket is a bucket location. When that location is
  inline, the value also holds a whole leaf page, which is decoded
  recursively.
- **The database reader** (`Database`). It reads and selects the meta pages
  and reads a page together with its overflow pages. It collects every leaf
  under a bucket's root page, and it materialises nested bucket locations into
  bucket handles.
- **Buckets** (`Buckets`). This covers a bucket's element list, lookup by key
  (a binary search with an ordinal key comparison), string values, nested
  buckets, and the database-level `GetBucket(string)`.

The file is an immutable byte sequence. A stream read at a position returns
what is there, stopping short at the end of the file. A read past the end of
an in-memory buffer fails with `OutOfRange`. Exceptions become `Result`
failures: `InvalidData` for an invalid database or page, `InvalidOperation`
for a request on an inline bucket, and `OutOfRange` for a short buffer. The
64-bit FNV-1a hash and the UTF-8 decoder are function parameters (`hash`,
`utf8`). Keys are .NET strings, that is, sequences of UTF-16 code units.

Three behaviours of the source are kept as written:

- **Second meta header.** `ReadMetaPages` decodes the second candidate's header
  from the first page's bytes (BoltDatabase.cs line 58). The second record is
  read from its own block, but only when page 0 has the meta bit. The model
  keeps this behaviour. `Database.SecondCandidateFollowsFirstPage` and
  `Database.NonMetaFirstPageFailsOpen` state what follows from it: a file
  whose page 0 is not a meta page never opens, whatever page 1 holds.
- **Equal transaction ids.** When both meta candidates are valid and their
  transaction ids are equal, the second one is selected.
- **Key comparison.** Keys are compared ordinally over UTF-16 code units of the
  decoded strings, not over the raw key bytes.

## Model

| member | source | states |
|---|---|---|
| LittleEndian.DecodeEncodeLE | BoltDB/Pages/PageHeader.cs:33-38 | a value written little-endian in `width` bytes reads back as the same value |
| LittleEndian.EncodeDecodeLE | BoltDB/Pages/PageHeader.cs:26-29 | bytes read as a little-endian integer are written back as the same bytes |
| LittleEndian.ReadBytes | BoltDB/Pages/BranchPage.cs:26 | a buffer read succeeds exactly when the range lies inside the buffer, and then it returns that slice |
| LittleEndian.ReadAtSplit | BoltDB/BoltDatabase.cs:101-107 | reading `m` bytes of the file and then the next `n` bytes is reading `m + n` bytes at once |
| LittleEndian.WriteUIntLE | BoltDB/Pages/MetaPage.cs:78-85 | writing an integer puts its little-endian bytes at the cursor, leaves every other byte alone and advances the cursor by the width |
| PageHeaders.DecodePageHeader | BoltDB/Pages/PageHeader.cs:24-31 | the header decodes exactly when 16 bytes are available; id, flags, count and overflow are the little-endian u64, u16, u16 and u32 at +0, +8, +10 and +12; the cursor moves by 16 |
| PageHeaders.HeaderRoundTrip | BoltDB/Pages/PageHeader.cs:33-40 | decoding the bytes `Write` emits gives the same header back and consumes 16 bytes |
| PageHeaders.HeaderReencode | BoltDB/Pages/PageHeader.cs:24-31 | re-encoding a decoded header reproduces the 16 bytes it came from |
| PageHeaders.FlagsAreMasks | BoltDB/Pages/PageHeader.cs:42-72 | each page-type test holds exactly when the flags word ANDed with that type's mask (0x01, 0x02, 0x04, 0x10) is non-zero |
| PageHeaders.IsBranchPage | BoltDB/Pages/PageHeader.cs:42-48 | a page is a branch page when bit 0 (mask 0x01) of its flags is set, whatever the other bits |
| PageHeaders.IsLeafPage | BoltDB/Pages/PageHeader.cs:50-56 | a page is a leaf page when bit 1 (mask 0x02) of its flags is set, whatever the other bits |
| PageHeaders.IsMetaPage | BoltDB/Pages/PageHeader.cs:58-64 | a page is a meta page when bit 2 (mask 0x04) of its flags is set, whatever the other bits |
| PageHeaders.IsFreeListPage | BoltDB/Pages/PageHeader.cs:66-72 | a page is a free-list page when bit 4 (mask 0x10) of its flags is set, whatever the other bits |
| PageHeaders.FlagsAreIndependent | BoltDB/Enums/PageFlags.cs:10-17 | every combination of the four type bits, several at once included, is the reading of some flags word |
| BucketLocations.ReadBucketLocation | BoltDB/BucketLocation.cs:51-56 | a location decodes exactly when 16 bytes are available; root and sequence are the little-endian u64s at +0 and +8; the cursor moves by 16 |
| BucketLocations.IsInlineBucket | BoltDB/BucketLocation.cs:43-49 | a location is inline exactly when its root page id is 0; the sequence plays no part |
| BucketLocations.Write | BoltDB/BucketLocation.cs:31-35 | the buffer becomes `WrittenAt` of its old contents: the old bytes before the offset, the 16 encoded bytes, then the old bytes after them, so WriteIsLocal and ReadAfterWrite apply to it; the cursor moves by 16 |
| BucketLocations.WriteIsLocal | BoltDB/BucketLocation.cs:31-35 | writing a location changes no byte outside its 16 bytes and keeps the buffer length |
| BucketLocations.ReadAfterWrite | BoltDB/BucketLocation.cs:31-35 | reading at the offset a location was written to gives the same root and sequence back |
| BucketLocations.LocationReencode | BoltDB/BucketLocation.cs:51-56 | re-encoding a decoded location reproduces the 16 bytes it came from |
| MetaPages.DefaultMetaPage | BoltDB/Pages/MetaPage.cs:38-42 | the default record carries the signature 0xED0CDAED and version 2 |
| MetaPages.DecodeMetaPage | BoltDB/Pages/MetaPage.cs:44-55 | the record decodes exactly when 64 bytes are available; the nine fields are read in order at fixed offsets; the cursor moves by 64 |
| MetaPages.GetBytesExcludingChecksum | BoltDB/Pages/MetaPage.cs:74-87 | filling the 56-byte buffer field by field yields exactly the encoding of every field but the checksum |
| MetaPages.ChecksumNotHashed | BoltDB/Pages/MetaPage.cs:74-87 | the checksum field never enters the hashed bytes |
| MetaPages.MetaRoundTrip | BoltDB/Pages/MetaPage.cs:89-101 | decoding the 64 bytes `Write` emits gives every field back |
| MetaPages.MetaReencode | BoltDB/Pages/MetaPage.cs:44-55 | re-encoding a decoded record reproduces its 64 bytes, and the hashed bytes are the first 56 bytes on disk |
| MetaPages.ValidOnDisk | BoltDB/Pages/MetaPage.cs:57-72 | a record read from disk is valid exactly when signature and version match and the stored checksum is the hash of the 56 bytes before it |
| MetaPages.IsValid | BoltDB/Pages/MetaPage.cs:57-72 | a valid record carries the signature and the supported version, and its stored checksum is the hash of its other fields |
| MetaPages.InvalidWithoutSignatureOrVersion | BoltDB/Pages/MetaPage.cs:57-72 | a wrong signature or version makes the record invalid whatever the checksum; otherwise validity is the checksum test |
| MetaPages.SealRoundTrip | BoltDB/Pages/MetaPage.cs:57-72 | a record is valid exactly when it has the signature and version and recomputing its checksum changes nothing; sealing such a record makes it valid |
| BranchPages.BranchElementLayout | BoltDB/Pages/BranchPage.cs:21-28 | a descriptor decodes exactly when its 16 bytes and the key range it points at (relative to the descriptor) are inside the page; the key is that range, the child id the u64 at +8 |
| BranchPages.BranchElementsInOrder | BoltDB/Pages/BranchPage.cs:16-30 | a decoded branch page has exactly `count` elements, element i coming from the descriptor 16·i bytes after the start |
| BranchPages.BranchElementsFirstFailure | BoltDB/Pages/BranchPage.cs:19-29 | a failed decode fails with the error of its first failing descriptor, all earlier ones decoding |
| BranchPages.ReadBranchElement | BoltDB/Pages/BranchPage.cs:21-28 | one loop pass reads the descriptor fields and key bytes at the cursor, agreeing with the descriptor's decoding |
| BranchPages.DecodeBranchPage | BoltDB/Pages/BranchPage.cs:16-30 | the constructor loop yields the decoded elements, or the first failure, and leaves the cursor 16·count bytes on |
| LeafPages.BucketFlagIsMask | BoltDB/Pages/LeafPage.cs:28 | the bucket test is `flags & 0x1 != 0`, so the other flag bits are ignored |
| LeafPages.LeafElementLayout | BoltDB/Pages/LeafPage.cs:22-30 | a descriptor decodes exactly when its 16 bytes, the key and the value right after it are inside the page and the value decodes; the key is the bytes at the relative position |
| LeafPages.LeafValueCases | BoltDB/Pages/LeafPage.cs:32-49 | a plain value is its bytes; a bucket value shorter than 16 bytes fails; a non-zero root gives a location; a zero root gives the inline leaf page after the 16-byte location, and any other page type there is invalid |
| LeafPages.LocationValuesAreNotInline | BoltDB/Pages/LeafPage.cs:36-44 | a location value comes only from a bucket element and never has root 0 |
| LeafPages.LeafElementsInOrder | BoltDB/Pages/LeafPage.cs:17-53 | a decoded leaf page has exactly `count` elements, element i coming from the descriptor 16·i bytes after the start |
| LeafPages.LeafElementsFirstFailure | BoltDB/Pages/LeafPage.cs:19-52 | a failed decode fails with the error of its first failing descriptor, all earlier ones decoding |
| LeafPages.ReadLeafElement | BoltDB/Pages/LeafPage.cs:22-51 | one loop pass reads the four descriptor fields, the key and value bytes and the value, agreeing with the descriptor's decoding |
| LeafPages.ReadLeafValue | BoltDB/Pages/LeafPage.cs:32-49 | the value branch of the loop agrees with the value's decoding |
| LeafPages.ReadInlineBucket | BoltDB/Pages/LeafPage.cs:55-68 | an inline bucket is the elements of the leaf page after its header; any other page type is invalid |
| LeafPages.DecodeLeafPage | BoltDB/Pages/LeafPage.cs:17-53 | the constructor loop yields the decoded elements, or the first failure, and leaves the cursor 16·count bytes on |
| Database.LoadMetaPages | BoltDB/BoltDatabase.cs:34-70 | opening: page 0's header and record at 0 with 4096 bytes, the page size from a valid first record, the second record from the block at the page size under page 0's header, and InvalidData when neither record is valid |
| Database.OpensExactlyWithValidCandidate | BoltDB/BoltDatabase.cs:34-70 | once page 0's header and both records decode, opening succeeds exactly when one of the two records is valid, keeps both records, and otherwise fails with InvalidData |
| Database.LoadedMetaPages | BoltDB/BoltDatabase.cs:34-70 | an opened database has a valid candidate; the first candidate exists exactly when page 0 has the meta bit; the page size is the first candidate's when that one is valid, 4096 otherwise |
| Database.SecondCandidateFollowsFirstPage | BoltDB/BoltDatabase.cs:56-62 | the second candidate exists exactly when the first does, and is the record after the header of the block at the page size |
| Database.NonMetaFirstPageFailsOpen | BoltDB/BoltDatabase.cs:58-69 | when page 0 is not a meta page, opening fails with InvalidData whatever the second block holds |
| Database.SelectMeta | BoltDB/BoltDatabase.cs:72-95 | the current meta page: the later transaction when both candidates are valid, with the second taking a tie, else whichever one is valid |
| Database.SelectMetaChoice | BoltDB/BoltDatabase.cs:72-95 | the current meta page is one of the candidates; it is valid when either is, it has the largest transaction id among the valid ones, and the second wins a tie |
| Database.DecodePageDispatch | BoltDB/BoltDatabase.cs:110-125 | a page with the branch bit decodes as a branch page, else with the leaf bit as a leaf page, else with the free-list bit as no page; none of them is InvalidData |
| Database.PageBytesSpan | BoltDB/BoltDatabase.cs:99-108 | a page with `overflow` overflow pages is read as (1 + overflow) page sizes from its offset |
| Database.ReadMetaCandidate | BoltDB/BoltDatabase.cs:42-45 | the record after a header is read exactly when the header has the meta bit |
| Database.DecodePageContent | BoltDB/BoltDatabase.cs:110-125 | the branches of the type dispatch decode the elements after the header as the page type requires |
| Database.ReadAllLeavesCases | BoltDB/BoltDatabase.cs:178-201 | a leaf page gives its own list, a branch page its children's leaves, a free-list page InvalidData, an unreadable page the read's error, and an exhausted depth bound DepthExceeded |
| Database.CollectChildrenOne | BoltDB/BoltDatabase.cs:189-194 | a single child contributes exactly the leaves under its page |
| Database.ChildrenFailurePersists | BoltDB/BoltDatabase.cs:189-194 | once one child's walk fails, the whole branch fails with that error |
| Database.CollectChildrenAppend | BoltDB/BoltDatabase.cs:187-195 | the leaves of a run of children are the leaves of each part, concatenated in child order |
| Database.ReadAllLeavesDepth | BoltDB/BoltDatabase.cs:178-201 | a walk that succeeds within a depth bound gives the same leaves under any larger bound |
| Database.CollectChildrenDepth | BoltDB/BoltDatabase.cs:189-194 | children read within a depth bound are read the same under any larger bound |
| Database.ReadBucketElements | BoltDB/BoltDatabase.cs:151-176 | a read bucket has the leaves' elements in order with their keys; each location value becomes a bucket on that location, other values are unchanged, and no location value remains |
| Database.ReadBucketRefusesInline | BoltDB/BoltDatabase.cs:153-156 | reading an inline location fails with InvalidOperation |
| Database.MaterializeAppend | BoltDB/BoltDatabase.cs:161-173 | replacing locations leaf by leaf and appending equals replacing them in the concatenation |
| Database.GetBucket | BoltDB/BoltDatabase.cs:141-149 | an inline location is refused with InvalidOperation; any other gives a bucket on that location |
| Database.BoltDatabase.constructor | BoltDB/BoltDatabase.cs:28-32 | a new database holds the file with the default page size and no meta candidates |
| Database.BoltDatabase.Open | BoltDB/BoltDatabase.cs:28-32 | opening succeeds exactly when the meta pages load, with the error of the meta reading otherwise, and gives a database in the loaded state |
| Database.BoltDatabase.ReadMetaPages | BoltDB/BoltDatabase.cs:34-70 | reading the meta pages step by step succeeds exactly when they load, fails with the same error otherwise, and leaves the page size and candidates they determine |
| Database.BoltDatabase.GetCurrentMetaPage | BoltDB/BoltDatabase.cs:72-95 | on an opened database the current meta page is a valid candidate with the largest valid transaction id |
| Database.BoltDatabase.ReadPage | BoltDB/BoltDatabase.cs:97-126 | reading a page agrees with the header, overflow and dispatch definition of a page read |
| Database.BoltDatabase.ReadAllLeafPages | BoltDB/BoltDatabase.cs:178-201 | the recursive walk gives the leaves under a page, left to right, and fails as the definition does |
| Database.BoltDatabase.ReadChildren | BoltDB/BoltDatabase.cs:187-196 | the loop over a branch page's children appends each child's leaves in order, stopping at the first failure |
| Database.BoltDatabase.ReadBucket | BoltDB/BoltDatabase.cs:151-176 | the nested loops over the leaves agree with the bucket read definition |
| Database.BoltDatabase.GetRootBucket | BoltDB/BoltDatabase.cs:128-132 | the root bucket is the bucket on the current meta page's root location; an inline root is refused with InvalidOperation |
| Buckets.CompareKeys | BoltDB/Bucket.cs:57-60 | the comparison result is -1, 0 or 1 |
| Buckets.CompareKeysZero | BoltDB/Bucket.cs:57-60 | two keys compare equal exactly when they are the same key |
| Buckets.CompareKeysAntisymmetric | BoltDB/Bucket.cs:57-60 | swapping the keys negates the comparison |
| Buckets.CompareKeysTransitive | BoltDB/Bucket.cs:57-60 | the comparison orders keys transitively |
| Buckets.KeyIndex | BoltDB/Bucket.cs:30-40 | the reference lookup returns the first position holding the key, or -1 exactly when none does |
| Buckets.FirstIndexOf | BoltDB/Bucket.cs:33 | a found position always holds the key, and a key no element holds is not found |
| Buckets.LowerBoundSplits | BoltDB/Bucket.cs:33 | on a sorted list the binary search stops where the keys below the search key end |
| Buckets.FirstIndexOfSorted | BoltDB/Bucket.cs:33 | on a sorted list the binary search returns the first position holding the key, and -1 exactly when there is none |
| Buckets.LookupFinds | BoltDB/Bucket.cs:30-40 | a lookup returns only the value of an element with that key, returns nothing when no element has it, and on a sorted list returns the first such element's value |
| Buckets.PageBackedElementsMaterialised | BoltDB/Bucket.cs:62-70 | the elements of a page-backed bucket carry no bucket locations |
| Buckets.BucketsOfIsFilter | BoltDB/Bucket.cs:72-85 | the nested buckets are exactly the bucket-valued elements, in list order, with their keys |
| Buckets.GetElements | BoltDB/Bucket.cs:62-70 | an inline bucket's elements are its own list; a page-backed one's are read from the database |
| Buckets.GetElementValueByKey | BoltDB/Bucket.cs:30-40 | the result is the lookup of the key in the bucket's elements, or the error of reading them |
| Buckets.GetStringValueByKey | BoltDB/Bucket.cs:42-50 | fails exactly when reading the bucket's elements fails, and with that error; otherwise a text is returned exactly when the value under the key is raw bytes, and it is their decoding |
| Buckets.BucketByKey | BoltDB/Bucket.cs:52-55 | a bucket is returned exactly when the value under the key is a bucket, and it is that bucket |
| Buckets.GetBucket | BoltDB/Bucket.cs:52-55 | fails exactly when reading the bucket's elements fails, and with that error; otherwise the nested bucket under the key, or nothing when the value there is not a bucket |
| Buckets.GetBuckets | BoltDB/Bucket.cs:72-85 | fails exactly when reading the bucket's elements fails, and with that error; otherwise the loop collects the bucket-valued elements with their keys in list order |
| Buckets.GetBucketByName | BoltDB/BoltDatabase.cs:134-139 | the bucket under the key in the root bucket of the current meta page; an inline root is refused with InvalidOperation; otherwise it fails exactly when reading the root's elements fails, and with that error |

## Left out

- The 64-bit FNV-1a hash and UTF-8 decoding are parameters. The Fnv1a and Encoding code is not part of this model.
- The Utilities helpers (LittleEndianReader, LittleEndianWriter, ByteReader, ByteUtils, SortedList) are not part of this model. They are given by their contracts in `LittleEndian` and `Buckets`.
- Buckets.FirstIndexOf: SortedList.FirstIndexOf is modelled as a lower-bound binary search followed by an equality check with CompareKeys. On an unsorted list its result is this model's and may differ from the library's.
- Buckets.CompareKeys: only the sign of `string.Compare(..., StringComparison.Ordinal)` is modelled. The source never uses the magnitude.
- Opening by path (`BoltDatabase(string)` and `File.Open`) is file I/O. `Open` takes the file's bytes instead.
- Database.BoltDatabase.Open: the stream handed to `BoltDatabase(Stream)` is assumed to stand at offset 0, as `File.Open` leaves it. The source does not rewind it: the first meta block is read from the stream's current position, and with a 4096-byte page size the second block follows it directly. A stream handed over at any other position makes the source read other blocks than the model's blocks at 0 and at the page size.
- Streams are not modelled. A stream read is `ReadAt` on the file image, which stops short at the end of the file. `ByteReader.ReadBytes(Stream, int)` is taken to return the bytes available.
- A file that changes while it is being read, and shared use of the stream by several threads, are not modelled.
- 32-bit and 64-bit casts are not modelled: `(int)position`, `(int)keySize`, `(int)valueSize`, `(int)PageSize`, `m_pageSize * (int)Overflow` and `(long)pageID * m_pageSize`. Offsets and sizes are unbounded integers here. Where the source's arithmetic wraps, the source can read other bytes, or fewer, than the model: a descriptor whose relative position wraps back into the page succeeds in the source while the model fails with OutOfRange; an overflow count whose byte size wraps to zero or below makes the source read no overflow bytes or fail, while the model reads (1 + overflow) · pageSize bytes; and a page offset whose 64-bit product wraps makes the source seek elsewhere or throw, while the model reads at the true offset.
- Database.BoltDatabase.ReadAllLeafPages: the walk takes a depth bound (`maxDepth`) and fails with DepthExceeded beyond it. A file whose branch pages form a cycle, which the source recurses on until the stack runs out, fails with DepthExceeded here.
- MetaPages.DefaultMetaPage: the source leaves `Root` null. The model uses location (0, 0).
- A bucket holds a reference to its database in the source. The model passes the database to the bucket operations instead. An inline bucket's null database is not represented, because an inline bucket never reads from it.
- The `Write(Stream)` overloads of PageHeader, MetaPage and BucketLocation are modelled as the byte sequences they emit (`EncodePageHeader`, `EncodeMetaPage`, `EncodeBucketLocation`).
- `ReadRootElements` and the header's `Pointer` field are commented out in the source.
