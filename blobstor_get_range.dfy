/** Range reads of the blob store (pkg/local_object_storage/blobstor/get_range.go).

    The backends are parameters: the file-system tree that holds large
    objects, the decompressor, the object unmarshaller and the
    blobovnicza tree that packs small objects. Only the kind of an error
    is modelled, never its message text. */
module BlobstorGetRange {
  import opened Common

  /** A payload range as the request carries it: two uint64 values. */
  datatype Range = Range(offset: uint64, length: uint64)

  /** The storage identifier has three states: nil (`None`), empty
      (`Some([])`, the big store) and a non-empty blobovnicza locator. */
  datatype GetRangePrm = GetRangePrm(address: Address, range: Range, storageID: Option<seq<byte>>)

  /** Failure kinds of a range read. The three `...Failed` kinds are the
      wrapped errors of getRangeBig; `Other` is any failure of the small
      store that is neither "not found" nor "out of range". */
  datatype Error =
    | ObjectNotFound
    | ObjectOutOfRange
    | FsTreeReadFailed(cause: nat)
    | DecompressFailed(cause: nat)
    | UnmarshalFailed(cause: nat)
    | Other(cause: nat)

  /** Failures of the fs tree's Get: fstree.ErrFileNotFound, or another error. */
  datatype FsTreeError = ErrFileNotFound | FsTreeFailure(cause: nat)

  /** A Go slice is never longer than the largest int. */
  type Payload = p: seq<byte> | |p| <= MAX_INT64

  /** The part of an unmarshalled object a range read uses. */
  datatype Object = Object(payload: Payload)

  datatype Backends = Backends(
    fsTreeGet: Address -> Result<seq<byte>, FsTreeError>,
    decompress: seq<byte> -> Result<seq<byte>, nat>,
    unmarshal: seq<byte> -> Result<Object, nat>,
    blobovniczasGetRange: GetRangePrm -> Result<seq<byte>, Error>)

  /** uint64 addition, wrapping around at 2^64. */
  function AddUint64(a: uint64, b: uint64): uint64
  {
    (a + b) % UINT64_MODULUS
  }

  /** The bounds guard of getRangeBig, evaluated in uint64 arithmetic: it
      rejects exactly the ranges that do not end inside the payload. */
  function RangeRejected(off: uint64, ln: uint64, pLen: uint64): (rejected: bool)
    ensures rejected <==> off + ln > pLen
  {
    var end := AddUint64(ln, off);
    end < off || pLen < off || pLen < end
  }

  /** getRangeBig: read, decompress and unmarshal the object from the fs
      tree, then cut the requested range out of its payload. */
  function GetRangeBig(b: Backends, prm: GetRangePrm): (r: Result<seq<byte>, Error>)
    ensures r == Failure(ObjectNotFound) <==> b.fsTreeGet(prm.address) == Failure(ErrFileNotFound)
    ensures r.Success? ==> |r.value| == prm.range.length
    ensures r == Failure(ObjectOutOfRange) ==> b.fsTreeGet(prm.address).Success?
  {
    match b.fsTreeGet(prm.address)
    case Failure(ErrFileNotFound) => Failure(ObjectNotFound)
    case Failure(FsTreeFailure(cause)) => Failure(FsTreeReadFailed(cause))
    case Success(compressed) =>
      match b.decompress(compressed)
      case Failure(cause) => Failure(DecompressFailed(cause))
      case Success(data) =>
        match b.unmarshal(data)
        case Failure(cause) => Failure(UnmarshalFailed(cause))
        case Success(obj) =>
          var payload := obj.payload;
          var ln, off := prm.range.length, prm.range.offset;
          if RangeRejected(off, ln, |payload|) then Failure(ObjectOutOfRange)
          else Success(payload[off..off + ln])
  }

  /** getRangeSmall: the request goes to the blobovnicza tree unchanged. */
  function GetRangeSmall(b: Backends, prm: GetRangePrm): Result<seq<byte>, Error>
  {
    b.blobovniczasGetRange(prm)
  }

  /** GetRange: route by the storage identifier; with none, try the big store
      and fall back to the small store only when the big one lacks the object. */
  function GetRange(b: Backends, prm: GetRangePrm): (r: Result<seq<byte>, Error>)
    ensures prm.storageID.Some? && |prm.storageID.value| > 0 ==> r == GetRangeSmall(b, prm)
    ensures prm.storageID == Some([]) ==> r == GetRangeBig(b, prm)
    ensures prm.storageID.None? ==>
      r == if b.fsTreeGet(prm.address) == Failure(ErrFileNotFound) then GetRangeSmall(b, prm) else GetRangeBig(b, prm)
  {
    match prm.storageID
    case None =>
      var res := GetRangeBig(b, prm);
      if res.Success? || res.error != ObjectNotFound then res
      else GetRangeSmall(b, prm)
    case Some(id) =>
      if |id| == 0 then GetRangeBig(b, prm)
      else GetRangeSmall(b, prm)
  }

  /** The object getRangeBig reads for `addr`, when every stage succeeds. */
  ghost predicate StoresObject(b: Backends, addr: Address, obj: Object)
  {
    exists compressed, data ::
      b.fsTreeGet(addr) == Success(compressed)
      && b.decompress(compressed) == Success(data)
      && b.unmarshal(data) == Success(obj)
  }

  /** A stored object yields exactly the bytes `payload[off : off+ln]` of its
      payload, or ObjectOutOfRange when that range does not lie inside it. */
  lemma BigStoreReturnsPayloadRange(b: Backends, prm: GetRangePrm, obj: Object)
    requires StoresObject(b, prm.address, obj)
    ensures var off, ln := prm.range.offset, prm.range.length;
      GetRangeBig(b, prm)
        == if off + ln <= |obj.payload| then Success(obj.payload[off..off + ln]) else Failure(ObjectOutOfRange)
  {
    var compressed, data :| b.fsTreeGet(prm.address) == Success(compressed)
      && b.decompress(compressed) == Success(data) && b.unmarshal(data) == Success(obj);
  }

  /** Any failure of getRangeBig other than ObjectNotFound (an fs tree read
      error, a decompression or unmarshal error, a bad range) is returned by
      GetRange as it is: the small store is not consulted. */
  lemma NoFallbackUnlessNotFound(b: Backends, prm: GetRangePrm)
    requires prm.storageID.None?
    requires GetRangeBig(b, prm) != Failure(ObjectNotFound)
    ensures GetRange(b, prm) == GetRangeBig(b, prm)
  {
  }

  /** A stored object with a range outside its payload is reported as out of
      range even when the storage identifier is unknown; the small store is
      never asked. */
  lemma OutOfRangeIsNotNotFound(b: Backends, prm: GetRangePrm, obj: Object)
    requires prm.storageID.None? || prm.storageID == Some([])
    requires StoresObject(b, prm.address, obj)
    requires prm.range.offset + prm.range.length > |obj.payload|
    ensures GetRange(b, prm) == Failure(ObjectOutOfRange)
  {
    BigStoreReturnsPayloadRange(b, prm, obj);
  }

  /** Backends that differ only in their blobovnicza tree. */
  ghost predicate SameBigStore(b1: Backends, b2: Backends)
  {
    b1.fsTreeGet == b2.fsTreeGet && b1.decompress == b2.decompress && b1.unmarshal == b2.unmarshal
  }

  /** With an empty storage identifier, or with none while the fs tree has the
      object's file, the small store has no influence on the result. */
  lemma SmallStoreIrrelevantWhenBigIsUsed(b1: Backends, b2: Backends, prm: GetRangePrm)
    requires SameBigStore(b1, b2)
    requires prm.storageID == Some([])
      || (prm.storageID.None? && b1.fsTreeGet(prm.address) != Failure(ErrFileNotFound))
    ensures GetRange(b1, prm) == GetRange(b2, prm)
  {
  }

  /** With a non-empty storage identifier, the big store has no influence on
      the result. */
  lemma BigStoreIrrelevantWithLocator(b1: Backends, b2: Backends, prm: GetRangePrm)
    requires b1.blobovniczasGetRange == b2.blobovniczasGetRange
    requires prm.storageID.Some? && |prm.storageID.value| > 0
    ensures GetRange(b1, prm) == GetRange(b2, prm)
  {
  }

  /** An object missing from both stores is reported as ObjectNotFound. */
  lemma MissingEverywhereIsNotFound(b: Backends, prm: GetRangePrm)
    requires prm.storageID.None?
    requires b.fsTreeGet(prm.address) == Failure(ErrFileNotFound)
    requires b.blobovniczasGetRange(prm) == Failure(ObjectNotFound)
    ensures GetRange(b, prm) == Failure(ObjectNotFound)
  {
  }

  /** Whatever route is taken, a successful read through the big store holds
      exactly `length` bytes. */
  lemma SuccessHasRequestedLength(b: Backends, prm: GetRangePrm)
    requires GetRange(b, prm).Success?
    requires prm.storageID == Some([]) || (prm.storageID.None? && b.fsTreeGet(prm.address) != Failure(ErrFileNotFound))
    ensures |GetRange(b, prm).value| == prm.range.length
  {
  }
}
