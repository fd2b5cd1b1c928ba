/**
 * BlobStorageService: the Azure Blob Storage backend of the storage service.
 *
 * The blob container is a map from blob name to stored blob. A file is stored
 * under the text of a freshly generated Guid; its bytes, its Content-Type
 * header and an "UploadDate" metadata entry are kept with it. Every failure of
 * the Azure service is caught inside the backend and turned into a null
 * result (None), or into a normal return for delete.
 *
 * The Guid generator, the clock and the Azure service's failures are not part
 * of the model: they come in as parameters (newId, now, fault).
 */
module BlobStorage {
  import opened Wrappers
  import opened Guids
  import opened Models

  /** The custom metadata key under which the upload instant is kept. */
  const UploadDateKey: string := "UploadDate"

  /** One stored blob: its bytes, its Content-Type header and its custom metadata. */
  datatype Blob = Blob(content: seq<byte>, contentType: string, metadata: map<string, DateTime>)

  /** The blob container: blobs by name. */
  type Container = map<string, Blob>

  /**
   * How the Azure service answers the two calls of an upload: both succeed;
   * the content upload fails; the content is stored and the metadata call
   * that follows it fails without storing the metadata; or the metadata is
   * stored too but that call still reports a failure.
   */
  datatype UploadFault = NoFault | UploadRejected | SetMetadataRejected | SetMetadataReportedFailed

  /** Whether the UploadDate entry reaches the service under this fault. */
  predicate MetadataStored(fault: UploadFault)
  {
    fault == NoFault || fault == SetMetadataReportedFailed
  }

  /** A call made on the storage service, as a caller sees it. */
  datatype StorageCall = UploadCall(file: FormFile) | GetCall(id: Guid) | DeleteCall(id: Guid)

  /** The pair GetFileAsync returns: the content stream (as its bytes) and the file record. */
  datatype Download = Download(content: seq<byte>, info: FileModel)

  /** The container after UploadFileAsync(file) with generated Guid newId at instant now. */
  function Uploaded(c: Container, file: FormFile, newId: Guid, now: DateTime, fault: UploadFault): (r: Container)
    ensures fault == UploadRejected ==> r == c
    ensures fault != UploadRejected ==> r.Keys == c.Keys + {ToString(newId)}
    ensures forall name :: name in c && name != ToString(newId) ==> name in r && r[name] == c[name]
    ensures fault != UploadRejected ==>
              var blob := r[ToString(newId)];
              && blob.content == file.content
              && blob.contentType == file.contentType
              && (UploadDateKey in blob.metadata <==> MetadataStored(fault))
              && (MetadataStored(fault) ==> blob.metadata[UploadDateKey] == now)
  {
    var name := ToString(newId);
    match fault
    case UploadRejected => c
    case SetMetadataRejected => c[name := Blob(file.content, file.contentType, map[])]
    case NoFault | SetMetadataReportedFailed => c[name := Blob(file.content, file.contentType, map[UploadDateKey := now])]
  }

  /** An upload under a name not yet taken adds exactly one blob. */
  lemma UploadAddsOneBlob(c: Container, file: FormFile, newId: Guid, now: DateTime, fault: UploadFault)
    requires fault != UploadRejected && ToString(newId) !in c
    ensures |Uploaded(c, file, newId, now, fault)| == |c| + 1
  {
    var r := Uploaded(c, file, newId, now, fault);
    assert r.Keys == c.Keys + {ToString(newId)};
  }

  /** The record UploadFileAsync returns; None stands for null. */
  function UploadResult(file: FormFile, newId: Guid, now: DateTime, fault: UploadFault): Option<FileModel>
  {
    if fault == NoFault then Some(FileModel(newId, file.fileName, file.length, file.contentType, now, None))
    else None
  }

  /** What GetFileAsync(id) returns at instant now; None stands for (null, null). */
  function Fetch(c: Container, id: Guid, now: DateTime, fault: bool): Option<Download>
  {
    var name := ToString(id);
    if fault || name !in c then None
    else
      var blob := c[name];
      var uploadDate := if UploadDateKey in blob.metadata then blob.metadata[UploadDateKey] else now;
      Some(Download(blob.content, FileModel(id, name, |blob.content|, blob.contentType, uploadDate, None)))
  }

  /** The container after DeleteFileAsync(id). */
  function Deleted(c: Container, id: Guid, fault: bool): (r: Container)
    ensures fault || ToString(id) !in c ==> r == c
    ensures !fault ==> r.Keys == c.Keys - {ToString(id)}
    ensures forall name :: name in r ==> name in c && r[name] == c[name]
  {
    if fault then c else c - {ToString(id)}
  }

  /**
   * Upload followed by Get on the returned id gives back the same bytes, the
   * same content type, the size of those bytes and the instant recorded at
   * upload. The name read back is the blob name, the Guid's text, not the
   * original file name.
   */
  lemma GetAfterUpload(c: Container, file: FormFile, newId: Guid, now: DateTime, later: DateTime)
    ensures UploadResult(file, newId, now, NoFault).Some?
    ensures
      var id := UploadResult(file, newId, now, NoFault).value.id;
      Fetch(Uploaded(c, file, newId, now, NoFault), id, later, false)
        == Some(Download(file.content, FileModel(newId, ToString(newId), |file.content|, file.contentType, now, None)))
  {
  }

  /**
   * When the metadata call fails without storing the entry, upload reports
   * null but the content is stored anyway; a later Get of that Guid finds it
   * and falls back to the current instant for the upload date.
   */
  lemma GetAfterFailedMetadata(c: Container, file: FormFile, newId: Guid, now: DateTime, later: DateTime)
    ensures UploadResult(file, newId, now, SetMetadataRejected).None?
    ensures
      var got := Fetch(Uploaded(c, file, newId, now, SetMetadataRejected), newId, later, false);
      got.Some? && got.value.content == file.content && got.value.info.uploadDate == later
  {
  }

  /**
   * When the metadata call stores the entry but reports a failure, upload
   * reports null, yet a later Get of that Guid finds the blob with the
   * instant of the upload as its upload date.
   */
  lemma GetAfterReportedMetadataFailure(c: Container, file: FormFile, newId: Guid, now: DateTime, later: DateTime)
    ensures UploadResult(file, newId, now, SetMetadataReportedFailed).None?
    ensures
      var got := Fetch(Uploaded(c, file, newId, now, SetMetadataReportedFailed), newId, later, false);
      got.Some? && got.value.content == file.content && got.value.info.uploadDate == now
  {
  }

  /** An upload does not change what Get returns for any other Guid. */
  lemma UploadKeepsOthers(c: Container, file: FormFile, newId: Guid, now: DateTime, fault: UploadFault,
                          other: Guid, later: DateTime, getFault: bool)
    requires other != newId
    ensures Fetch(Uploaded(c, file, newId, now, fault), other, later, getFault) == Fetch(c, other, later, getFault)
  {
    ToStringInjective(other, newId);
  }

  /** Deleting twice leaves the container as deleting once does. */
  lemma DeleteIdempotent(c: Container, id: Guid)
    ensures Deleted(Deleted(c, id, false), id, false) == Deleted(c, id, false)
  {
  }

  /** After a delete that went through, Get of that Guid finds nothing. */
  lemma GetAfterDelete(c: Container, id: Guid, now: DateTime, getFault: bool)
    ensures Fetch(Deleted(c, id, false), id, now, getFault).None?
  {
  }

  /** A delete does not change what Get returns for any other Guid. */
  lemma DeleteKeepsOthers(c: Container, id: Guid, fault: bool, other: Guid, now: DateTime, getFault: bool)
    requires other != id
    ensures Fetch(Deleted(c, id, fault), other, now, getFault) == Fetch(c, other, now, getFault)
  {
    ToStringInjective(other, id);
  }

  class BlobStorageService {
    /** The blobs of the container, by name. */
    var container: Container
    /** Every call this service has received, oldest first. */
    ghost var calls: seq<StorageCall>

    /** The service over a container that already exists (CreateIfNotExists) with the given blobs. */
    constructor (existing: Container)
      ensures container == existing && calls == []
    {
      container := existing;
      calls := [];
    }

    /**
     * Stores the file under the text of the generated Guid, first its bytes
     * with the Content-Type header, then the UploadDate metadata, and returns
     * the record of the stored file; returns null (None) if either call fails.
     */
    method UploadFileAsync(file: FormFile, newId: Guid, now: DateTime, fault: UploadFault)
      returns (r: Option<FileModel>)
      modifies this
      ensures container == Uploaded(old(container), file, newId, now, fault)
      ensures calls == old(calls) + [UploadCall(file)]
      ensures r.Some? <==> fault == NoFault
      ensures r.Some? ==>
                && r.value.id == newId
                && r.value.name == file.fileName
                && r.value.size == file.length
                && r.value.contentType == file.contentType
                && r.value.uploadDate == now
                && r.value.versionId.None?
      ensures r == UploadResult(file, newId, now, fault)
    {
      calls := calls + [UploadCall(file)];
      var name := ToString(newId);
      if fault == UploadRejected {
        return None;
      }
      var stored := Blob(file.content, file.contentType, map[]);
      container := container[name := stored];
      if fault == SetMetadataRejected {
        return None;
      }
      container := container[name := stored.(metadata := map[UploadDateKey := now])];
      assert container == old(container)[name := Blob(file.content, file.contentType, map[UploadDateKey := now])];
      if fault == SetMetadataReportedFailed {
        return None;
      }
      ParseToString(newId);
      var id := Parse(name).value;
      r := Some(FileModel(id, file.fileName, file.length, file.contentType, now, None));
    }

    /**
     * Reads the blob named by the Guid's text: its bytes, and a record whose
     * size and content type are those stored, whose name is the blob name and
     * whose upload date is the stored metadata entry or, if there is none,
     * the current instant. Returns (null, null) (None) if the blob is missing
     * or the service fails. The container is left as it is.
     */
    method GetFileAsync(id: Guid, now: DateTime, fault: bool) returns (r: Option<Download>)
      modifies this`calls
      ensures calls == old(calls) + [GetCall(id)]
      ensures r == Fetch(container, id, now, fault)
    {
      calls := calls + [GetCall(id)];
      var name := ToString(id);
      if fault || name !in container {
        return None;
      }
      var blob := container[name];
      var uploadDate := now;
      if UploadDateKey in blob.metadata {
        uploadDate := blob.metadata[UploadDateKey];
      }
      r := Some(Download(blob.content, FileModel(id, name, |blob.content|, blob.contentType, uploadDate, None)));
    }

    /** Deletes the blob named by the Guid's text if there is one; never fails. */
    method DeleteFileAsync(id: Guid, fault: bool)
      modifies this
      ensures container == Deleted(old(container), id, fault)
      ensures calls == old(calls) + [DeleteCall(id)]
    {
      calls := calls + [DeleteCall(id)];
      var name := ToString(id);
      if !fault && name in container {
        container := container - {name};
      }
    }
  }
}
