# neofs-node core helpers in Dafny

A Dafny model of three pieces of a NeoFS storage node and its admin tool,
with proofs of what they promise.

- **Metabase listing with a cursor** (`pkg/local_object_storage/metabase/list.go`).
  `listWithCursor` walks the top-level buckets of a bbolt read transaction in
  key order. For every container it meets for the first time, it reads the
  primary, tombstone and storage-group buckets in that fixed order through
  `selectNFromBucket`. It skips keys that name an inhumed object. It stops as
  soon as `count` addresses are collected. The page's cursor is the tag of
  the last bucket entered followed by the last key read. On a full page that
  key is the last address returned, and a later call resumes right after it.
  - The two routines are imperative methods (`ListWithCursor`, with its two
    loops split into `WalkContainers` and `WalkBuckets`, and
    `SelectNFromBucket`, with its key loop `ScanKeys`).
  - Each loop is first proved against a spec function that follows it step
    by step (`WalkFrom`, `ScanFrom`). A lemma then shows that function equal
    to the flat specification.
  - Each method is proved equal to a specification that flattens one call
    into a sequence of bucket visits (`ListVisits`, `ScanBuckets`,
    `KeyEvents`) and folds over it (`ListRun`, `SelectRun`).
  - Lemmas then state what a page means: the first live addresses in visit
    order, no inhumed address, each container visited once as one block in
    tag order, and a cursor that names the last address on a full page.
- **Blob store range reads** (`pkg/local_object_storage/blobstor/get_range.go`).
  These are pure functions over the storage backends, which are parameters:
  - the fs-tree `Get`, the decompressor, the object unmarshaller and the
    blobovnicza tree.
  - The storage identifier routes the request: nil means try the big store,
    then fall back to the small store only on "not found"; empty means the
    big store; non-empty means the small store.
  - The bounds guard is evaluated in uint64 arithmetic, including the
    wrap-around test `ln+off < off`.
- **Admin configuration helpers** (`cmd/neofs-adm/internal/modules/morph/config.go`).
  - `parseConfigPair` splits `key=value` at the first `=` and types the value
    by key:
    - `strconv.ParseInt(s, 10, 64)` for the nine integer keys, modelled
      exactly, including the value returned beside an error;
    - `strconv.ParseFloat` for the EigenTrust alpha, as a parameter;
    - `strconv.ParseBool` for the homomorphic-hashing flag.
    - A key that is not well known is refused unless forced.
  - `parseContractVersion` splits a packed version number with Go's
    truncating `/` and `%`.
  - Integer configuration values are read as 8 bytes, zero-padded and
    little-endian (config.go:200-202).

Go's `int`, `uint64` and `int64` are modelled as unbounded integers with the
bounds written out where the code depends on them (`uint64` subset type,
`AddUint64`, the int64 clamps of `ParseInt`). Go strings are `seq<char>`,
one character per byte.

A key that fails to parse as an address ends the scan of that one bucket
(list.go:186-188). It does not end the page: the walk goes on with the next
bucket and the next container.

On a page that is not full, the cursor is still the last key read and the
tag of the last bucket entered. list.go:182-183 records the key before
parsing it, so that key may be one that does not parse. Passing such a
cursor back is then refused as an invalid cursor address (list.go:93-95)
rather than answered with ErrEndOfListing. `PartialPageCursorMayNotParse`
shows this on a one-container store.

When the cursor's key has been removed from its bucket between two calls,
bbolt's `Seek` stops at the next key above it. The following `Next`
(list.go:173-174) then steps over that key. `ResumeSkipsKeyAfterMissingCursor`
states this behaviour. The model keeps it as the code has it.

## Model

| member | source | states |
|---|---|---|
| MetabaseList.ListWithCursor | pkg/local_object_storage/metabase/list.go:79-149 | The result is exactly the specified one: the cursor errors, ErrEndOfListing for an empty page, otherwise the page and the new cursor |
| MetabaseList.ListWithCursorSpec | pkg/local_object_storage/metabase/list.go:84-96 | InvalidCursorPrefix exactly when the first byte is not one of the three tags; InvalidCursorAddress exactly when the tag is valid and the rest does not parse; a success implies a well-formed cursor |
| MetabaseList.WalkContainers | pkg/local_object_storage/metabase/list.go:98-148 | The container loop from the Seek position returns the fold of the remaining visits: ErrEndOfListing when it collects nothing, else the addresses and tag plus last key |
| MetabaseList.WalkBuckets | pkg/local_object_storage/metabase/list.go:127-141 | The bucket loop of one container yields the fold of that container's visits (skipping buckets before the cursor's tag), and leaves the threshold set whenever the page is not full |
| MetabaseList.SelectNFromBucket | pkg/local_object_storage/metabase/list.go:153-199 | Reading one bucket appends exactly the live addresses of its keys read from the start or after the cursor, stops at the limit or at the first unparsable key, and returns the last key read |
| MetabaseList.ScanKeys | pkg/local_object_storage/metabase/list.go:166-196 | The key loop stops at the limit, at the end of the bucket, or just after the first key that does not parse; it appends every parsed address that is not inhumed and returns the last key read |
| MetabaseList.ScanFromIsSelectRun | pkg/local_object_storage/metabase/list.go:177-196 | The key loop's result is the fold over the bucket's key events from the same position |
| MetabaseList.Seek | pkg/local_object_storage/metabase/list.go:105 | The position of the first key that is not below the target; every earlier key is below it |
| MetabaseList.WalkFromIsListRun | pkg/local_object_storage/metabase/list.go:108-142 | Stopping the walk at the container that fills the page gives the same state as folding over all the visits |
| MetabaseList.WalkStep | pkg/local_object_storage/metabase/list.go:110-141 | A container seen for the first time contributes its bucket visits; the rest of the walk is reached only when they leave the page unfilled, with the container marked as seen and the cursor dropped |
| MetabaseList.ListRunAppend | pkg/local_object_storage/metabase/list.go:133-136 | Folding over two runs of visits is folding over the first, then over the second only if the page is not yet full |
| MetabaseList.SelectRunTakes | pkg/local_object_storage/metabase/list.go:177-196 | One bucket read appends the first live addresses of its keys, as many as fit below the limit |
| MetabaseList.ListRunTakes | pkg/local_object_storage/metabase/list.go:127-141 | The walk collects exactly the first `count` addresses of the whole visit sequence, or all of them when there are fewer |
| MetabaseList.PageIsFirstLiveAddresses | pkg/local_object_storage/metabase/list.go:79-149 | A page is non-empty, holds at most `count` addresses, is a prefix of the live addresses in visit order, and is either full or all of them |
| MetabaseList.EndOfListingWhenNothingLeft | pkg/local_object_storage/metabase/list.go:144-146 | ErrEndOfListing exactly when `count` is zero or no live address remains after the cursor |
| MetabaseList.KeyEventsShape | pkg/local_object_storage/metabase/list.go:177-196 | The keys a bucket scan reads are the bucket's keys in order from the start index; each contributes its address exactly when it parses and is not inhumed; the scan ends early only at a key that does not parse |
| MetabaseList.ContainerScanFacts | pkg/local_object_storage/metabase/list.go:118-141 | One container's visits belong to it, form one block with tags in primary, tombstone, storage-group order, and contribute only live addresses |
| MetabaseList.ListVisitsFacts | pkg/local_object_storage/metabase/list.go:99-141 | Each container appears as one contiguous block and never twice, none of them already in `unique`, and every visit has a valid tag and only live addresses |
| MetabaseList.PlanVisitsEachContainerOnce | pkg/local_object_storage/metabase/list.go:99-115 | The visits of one call never return to a container once they have left it, and follow the tag order inside it |
| MetabaseList.PageHasNoInhumedAddress | pkg/local_object_storage/metabase/list.go:190-192 | No address on a page is in the graveyard |
| MetabaseList.PageCursorNamesLastAddress | pkg/local_object_storage/metabase/list.go:132-148 | The returned cursor starts with a valid tag; on a full page the rest of it parses to the last address on the page, so the next call accepts it |
| MetabaseList.PartialPageCursorMayNotParse | pkg/local_object_storage/metabase/list.go:182-188 | For a bucket holding "a1" then an unparsable "zz", the first page is [C1/a1] with cursor "sC1/zz"; passing that cursor back fails with InvalidCursorAddress, not ErrEndOfListing |
| MetabaseList.ResumeStartsAfterSeekKey | pkg/local_object_storage/metabase/list.go:171-175 | In sorted keys, a resumed scan reads only keys above the seek key; when the seek key is present, exactly the keys above it |
| MetabaseList.ResumeSkipsKeyAfterMissingCursor | pkg/local_object_storage/metabase/list.go:171-175 | When the seek key is absent, Seek lands on the first key above it and the scan resumes one key later, skipping that key |
| MetabaseList.RemoveFirstOfPrefixed | pkg/local_object_storage/metabase/list.go:172 | Removing the container prefix from a cursor key built as prefix plus key gives back the key |
| MetabaseList.ResumedBucketReadsAfterCursor | pkg/local_object_storage/metabase/list.go:171-188 | A bucket resumed from a cursor `prefix + key` reads, in order and without gaps, keys above `key`, each prefixed with the container; when `key` is still in the bucket no key above it is skipped; the scan ends before the last key only at a key that does not parse |
| BlobstorGetRange.GetRange | pkg/local_object_storage/blobstor/get_range.go:16-29 | A non-empty storage ID goes to the small store, an empty one to the big store, a nil one to the big store with a fallback to the small store exactly when the fs tree reports the file missing |
| BlobstorGetRange.GetRangeBig | pkg/local_object_storage/blobstor/get_range.go:38-74 | ObjectNotFound exactly when the fs tree reports the file missing; a success holds exactly `length` bytes; out-of-range only for an object that was read |
| BlobstorGetRange.RangeRejected | pkg/local_object_storage/blobstor/get_range.go:63-69 | The uint64 guard, wrap-around test included, rejects exactly the ranges whose end lies past the payload |
| BlobstorGetRange.BigStoreReturnsPayloadRange | pkg/local_object_storage/blobstor/get_range.go:51-73 | For a stored object the big store returns `payload[off:off+ln]`, or ObjectOutOfRange when that range does not lie inside the payload |
| BlobstorGetRange.NoFallbackUnlessNotFound | pkg/local_object_storage/blobstor/get_range.go:19-22 | With no storage ID, any big-store result other than ObjectNotFound is returned as is |
| BlobstorGetRange.OutOfRangeIsNotNotFound | pkg/local_object_storage/blobstor/get_range.go:17-27 | A bad range on a stored object is ObjectOutOfRange, and the small store is not consulted |
| BlobstorGetRange.SmallStoreIrrelevantWhenBigIsUsed | pkg/local_object_storage/blobstor/get_range.go:17-27 | When the big store is used, the small store has no influence on the result |
| BlobstorGetRange.BigStoreIrrelevantWithLocator | pkg/local_object_storage/blobstor/get_range.go:25-28 | With a non-empty storage ID, the big store has no influence on the result |
| BlobstorGetRange.MissingEverywhereIsNotFound | pkg/local_object_storage/blobstor/get_range.go:17-23 | An object missing from both stores is ObjectNotFound |
| BlobstorGetRange.SuccessHasRequestedLength | pkg/local_object_storage/blobstor/get_range.go:71-73 | A successful read through the big store holds exactly the requested length |
| MorphConfig.SplitFirst | cmd/neofs-adm/internal/modules/morph/config.go:271-277 | No split exactly when there is no `=`; otherwise the argument is key, `=`, value, with no `=` in the key |
| MorphConfig.SplitFirstIsFirst | cmd/neofs-adm/internal/modules/morph/config.go:271-277 | The split is at the first `=`: any `=`-free key that splits the argument is the one found |
| MorphConfig.ParseUintFrom | cmd/neofs-adm/internal/modules/morph/config.go:285 | strconv's digit loop: no error gives a uint64, a syntax error gives 0, a range error gives the largest uint64 |
| MorphConfig.ParseUintFromDecimal | cmd/neofs-adm/internal/modules/morph/config.go:285 | On a digit string the loop returns the decimal value when it fits in a uint64, and a range error otherwise |
| MorphConfig.NotAllDigitsFails | cmd/neofs-adm/internal/modules/morph/config.go:285 | A string holding a non-digit is never accepted |
| MorphConfig.ParseInt64 | cmd/neofs-adm/internal/modules/morph/config.go:285 | The value is always within int64; a syntax error gives 0 |
| MorphConfig.ParseInt64Correct | cmd/neofs-adm/internal/modules/morph/config.go:285-288 | Accepted exactly when the text is an optionally signed decimal inside the int64 range, and then the value is that number |
| MorphConfig.ParseInt64Clamps | cmd/neofs-adm/internal/modules/morph/config.go:285-288 | A decimal outside the int64 range gives the nearer bound and a range error |
| MorphConfig.ParseFormatRoundTrip | cmd/neofs-adm/internal/modules/morph/config.go:285 | Parsing the decimal text of any int64 gives it back without error |
| MorphConfig.FormatNatDecimal | cmd/neofs-adm/internal/modules/morph/config.go:146 | The `%d` digits of a number denote that number |
| MorphConfig.ParseBool | cmd/neofs-adm/internal/modules/morph/config.go:299 | No error exactly for the six true and six false spellings; the value is true exactly for the true spellings |
| MorphConfig.ParseConfigPair | cmd/neofs-adm/internal/modules/morph/config.go:270-315 | Invalid format exactly when there is no `=`, with empty key and nil value; an unknown key is refused only without force; an accepted pair has a value and its key is the text before the first `=` |
| MorphConfig.IntKeyValue | cmd/neofs-adm/internal/modules/morph/config.go:280-288 | For an integer key, the pair is accepted exactly when the value is a decimal int64, and then carries that number |
| MorphConfig.AlphaKeyValue | cmd/neofs-adm/internal/modules/morph/config.go:289-297 | The alpha key keeps the raw text, `=` included, and is accepted exactly when it parses as a float |
| MorphConfig.BoolKeyValue | cmd/neofs-adm/internal/modules/morph/config.go:298-302 | The hashing flag is accepted exactly for the twelve boolean spellings; its value is true exactly for the true ones |
| MorphConfig.UnknownKeyNeedsForce | cmd/neofs-adm/internal/modules/morph/config.go:304-311 | An unknown key is refused without force and taken with its raw value as a string with it |
| Common.Rem | cmd/neofs-adm/internal/modules/morph/config.go:144-145 | Go's `%`: quotient times divisor plus remainder is the dividend, the remainder is below the divisor and takes the dividend's sign |
| MorphConfig.VersionParts | cmd/neofs-adm/internal/modules/morph/config.go:142-145 | major*1000000 + minor*1000 + patch is the version; minor and patch lie strictly between -1000 and 1000; all parts carry the version's sign |
| MorphConfig.VersionPartsOfPacked | cmd/neofs-adm/internal/modules/morph/config.go:143-145 | Splitting a version packed from major, minor and patch below 1000 gives them back |
| MorphConfig.ParseContractVersion | cmd/neofs-adm/internal/modules/morph/config.go:136-147 | "unknown" exactly when the item is not an integer, is zero, or lies outside int64 |
| MorphConfig.ContractVersionPrintsParts | cmd/neofs-adm/internal/modules/morph/config.go:142-146 | A packed version prints as `v<major>.<minor>.<patch>` |
| MorphConfig.PadTo8 | cmd/neofs-adm/internal/modules/morph/config.go:200-201 | The buffer has 8 bytes: the value's first bytes, then zeros |
| MorphConfig.DecodeConfigInt | cmd/neofs-adm/internal/modules/morph/config.go:200-202 | The decoded number is a uint64 |
| MorphConfig.ShortValueZeroExtended | cmd/neofs-adm/internal/modules/morph/config.go:200-202 | A value of at most 8 bytes reads as its own little-endian number |
| MorphConfig.LongValueTruncated | cmd/neofs-adm/internal/modules/morph/config.go:200-202 | Bytes after the eighth are ignored |
| MorphConfig.DecodeConfigIntRoundTrip | cmd/neofs-adm/internal/modules/morph/config.go:200-202 | Every uint64 comes back from its 8-byte little-endian encoding |

## Left out

- The bbolt database itself is reduced to a value with these parts:
  - top-level names in key order;
  - a map from bucket name to that bucket's sorted keys.
  - The read transaction (`View`, list.go:69-77), page buffers and concurrency are not modelled.
- A `Next` after a `Seek` past the last key is modelled as the end of the bucket.
- The collaborators of list.go are parameters (`Env`) because their files are not part of this model:
  - `object.Address.Parse`;
  - the container identifier encoded in a top-level name;
  - the three bucket-name functions;
  - `inGraveyard`.
- `parseContainerID` is the container decoding followed by the `unique` check.
- Error messages are not modelled, only the kind of each error.
- `count` is a natural number. `make` with a negative count panics in Go, and that case is not modelled.
- GetRangeSmall: only delegates to the blobovnicza tree, a parameter, so it has no contract of its own.
- The blob store backends (fs tree, compression, unmarshalling, blobovnicza tree) are parameters.
- An fs-tree, decompression or unmarshal failure that wraps ObjectNotFound is not modelled. These are kept as separate error kinds, so they never trigger the fallback.
- `strconv.ParseFloat` is a parameter (`isFloat`). Floating point is not modelled.
- `stackitem.Item.TryInteger` is replaced by its outcome, an optional integer.
- The key name strings come from the netmap contract's constants, which are defined outside config.go. That file is not part of this model; its names are used as the contract publishes them.
- These operations of config.go are I/O around the modelled helpers and are not modelled:
  - `dumpContractHashes`, `dumpNetworkConfig` and `setConfigCmd`, which make RPC calls, build transactions and print;
  - `invalidConfigValueErr`.
- Only the integer branch of `dumpNetworkConfig` is modelled (lines 200-202). The other branches only print.
- `pkg/services/session/storage/persistent/options.go` is not part of this model.
- MorphConfig.DecodeConfigInt: its own contract gives only the uint64 bound. Its value is stated by ShortValueZeroExtended, LongValueTruncated and DecodeConfigIntRoundTrip.
