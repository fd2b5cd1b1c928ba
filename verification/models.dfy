/**
 * The records the storage service and the queue adapter exchange
 * (StorageMicroservice/Models), and the uploaded-file value they pass around.
 */
module Models {
  import opened Wrappers
  import opened Guids

  type byte = x: int | 0 <= x < 256

  /** An instant (DateTime), counted in ticks. */
  type DateTime = nat

  /**
   * FileModel: what a backend reports about one stored object. VersionId is
   * never set by the Azure backend, so it stays null (None).
   */
  datatype FileModel = FileModel(
    id: Guid,
    name: string,
    size: int,
    contentType: string,
    uploadDate: DateTime,
    versionId: Option<string>)

  /**
   * An uploaded file (IFormFile): the bytes its read stream yields, the
   * length it declares, its file name and its Content-Type.
   */
  datatype FormFile = FormFile(
    content: seq<byte>,
    length: int,
    fileName: string,
    contentType: string)

  /** FileOperationRequest: one message of the request queue. */
  datatype FileOperationRequest = FileOperationRequest(
    action: string,
    fileId: Guid,
    fileName: string,
    fileContentBase64: string,
    contentType: string)

  /**
   * FileOperationResponse: one message of the response queue. FileName and
   * FileContentBase64 are None where the adapter leaves them unset (null).
   */
  datatype FileOperationResponse = FileOperationResponse(
    success: bool,
    action: string,
    fileId: Guid,
    fileName: Option<string>,
    fileContentBase64: Option<string>,
    message: string)
}
