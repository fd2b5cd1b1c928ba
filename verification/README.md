# Storage microservice: queue adapter and Azure blob backend, in Dafny

This project models the core of a file-storage microservice. The service stores files in a cloud blob
container and answers storage requests that arrive on a message queue.

- **`BlobStorageService`** (`blob_storage.dfy`) is the Azure Blob Storage backend. It is a class whose
  `container` field maps blob names to stored blobs. A stored blob holds its bytes, its Content-Type header
  and its custom metadata.
  - `UploadFileAsync` stores a file under the text of a newly generated Guid. It writes the bytes with the
    Content-Type header, then writes an `UploadDate` metadata entry.
  - `GetFileAsync` reads a blob back by Guid.
  - `DeleteFileAsync` deletes a blob if it exists.
  - Every failure of the Azure service is caught inside the class. Upload and get then return null
    (`None`), and delete returns normally.
  - The pure functions `Uploaded`, `UploadResult`, `Fetch` and `Deleted` give each operation's new
    container and result. The lemmas beside them state the round-trip, idempotence and
    nothing-else-changes properties.
- **`RabbitMqConsumerService`** (`rabbitmq_consumer.dfy`) is the queue adapter. It is a class holding the
  storage backend and an `outbox`, which stands for the response queue.
  - `Received` routes a request on its `Action` string to one of `HandleUploadFileAsync`,
    `HandleGetFileAsync` and `HandleDeleteFileAsync`.
  - Each handler publishes exactly one response, on success and on failure.
  - Any other action publishes nothing and makes no storage call.
  - The pure function `Dispatch` specifies one message. `Run` specifies a stream of messages.
- **`Guids`** (`guids.dfy`) models `Guid.ToString()` (the "D" format) and `Guid.Parse`. The backend needs
  both: a blob's name is the text of its Guid, and upload reads the Guid back from that name.
- **`Base64`** (`base64.dfy`) models `Convert.ToBase64String` and `Convert.FromBase64String`. The codec is
  the one in section 4 of RFC 4648, and decoding skips white space as .NET does.
- **`Models`** (`models.dfy`) holds `FileModel`, `FormFile` (the uploaded file), `FileOperationRequest`
  and `FileOperationResponse`. `Wrappers` holds `Option`, which stands for a null reference.

Randomness, the clock and the Azure service's failures are parameters. These are the generated Guid
`newId`, the current instant `now`, the `fault` arguments, and `copyFault`, a failure while the
adapter copies a downloaded blob's stream (collected in `Externals` for the adapter). `BlobStorageService.calls` is a ghost log of the calls the backend receives. It lets the
model state that a request made no storage call.

Three consequences of the code are worth stating outright:

- A get reports the blob name (the Guid's text) as the file name. It does not report the name the
  file was uploaded with, which the backend never stores.
- An upload whose metadata call fails still leaves the content stored, but returns null. So a
  failed upload can leave a blob behind that no reply names. That blob has no UploadDate entry
  if the service did not store it (`GetAfterFailedMetadata`). It has the upload instant if the
  service stored it and then reported a failure (`GetAfterReportedMetadataFailure`).
- With this backend, a delete request always gets a success reply. `DeleteFileAsync` never throws,
  so the handler's catch block cannot be reached.

## Model

| member | source | states |
|---|---|---|
| `Guids.ToString` | StorageMicroservice/Services/BlobStorageService.cs:29 | The blob name of a Guid is in the "D" format: 36 characters, hyphens at positions 8, 13, 18 and 23, and lower-case hexadecimal digits everywhere else |
| `Guids.Parse` | StorageMicroservice/Services/BlobStorageService.cs:48 | A text parses exactly when it is in the "D" format, with hexadecimal digits of either case; anything else is rejected |
| `Guids.ParseToString` | StorageMicroservice/Services/BlobStorageService.cs:48 | Parsing the text of a Guid gives back that Guid, so the Id an upload returns is the generated Guid |
| `Guids.ToStringInjective` | StorageMicroservice/Services/BlobStorageService.cs:66 | Distinct Guids give distinct blob names, so a get or delete by id can only reach the blob stored under that id |
| `Base64.Encode` | StorageMicroservice/Services/RabbitMqConsumerService.cs:114 | The encoding is whole blocks of four characters, each from the base64 alphabet or '=', and is empty exactly when the bytes are |
| `Base64.EncodeLength` | StorageMicroservice/Services/RabbitMqConsumerService.cs:114 | The encoding of n bytes has exactly 4·⌈n/3⌉ characters |
| `Base64.Decode` | StorageMicroservice/Services/RabbitMqConsumerService.cs:74 | Decoding fails (FormatException) unless the text without white space has a length that is a multiple of four |
| `Base64.DecodeEncode` | StorageMicroservice/Services/RabbitMqConsumerService.cs:114 | Decoding the encoding of any bytes gives back the same bytes |
| `BlobStorage.Uploaded` | StorageMicroservice/Services/BlobStorageService.cs:29-44 | After an upload the container has exactly the old names plus the new Guid's name. Every other blob is unchanged. The new blob holds the file's bytes and content type, and it holds the UploadDate entry (the upload instant) exactly when the metadata call stored it: when that call succeeded, or when it stored the entry and still reported a failure. A rejected upload changes nothing |
| `BlobStorage.UploadAddsOneBlob` | StorageMicroservice/Services/BlobStorageService.cs:29-44 | An upload under a newly generated name that the service accepts grows the container by exactly one blob |
| `BlobStorage.Deleted` | StorageMicroservice/Services/BlobStorageService.cs:93-96 | A delete removes the id's name and nothing else. Deleting a missing name, or a failed delete, leaves the container unchanged |
| `BlobStorage.GetAfterUpload` | StorageMicroservice/Services/BlobStorageService.cs:62-82 | Upload then get on the returned Id gives the same bytes, the same content type, their byte count as size, the upload instant, and the Guid's text as name |
| `BlobStorage.GetAfterFailedMetadata` | StorageMicroservice/Services/BlobStorageService.cs:39-44 | When the metadata call fails without storing the entry, upload returns null but the blob is stored. A later get finds it and uses the current instant as its upload date |
| `BlobStorage.GetAfterReportedMetadataFailure` | StorageMicroservice/Services/BlobStorageService.cs:39-58 | When the metadata call stores the entry but then reports a failure, upload returns null. A later get finds the blob with the upload instant as its upload date |
| `BlobStorage.UploadKeepsOthers` | StorageMicroservice/Services/BlobStorageService.cs:29-44 | An upload does not change what get returns for any other Guid |
| `BlobStorage.DeleteIdempotent` | StorageMicroservice/Services/BlobStorageService.cs:95-96 | Deleting twice leaves the same container as deleting once |
| `BlobStorage.GetAfterDelete` | StorageMicroservice/Services/BlobStorageService.cs:95-96 | After a delete, get of that Guid returns null |
| `BlobStorage.DeleteKeepsOthers` | StorageMicroservice/Services/BlobStorageService.cs:95-96 | A delete does not change what get returns for any other Guid |
| `BlobStorage.BlobStorageService.constructor` | StorageMicroservice/Services/BlobStorageService.cs:13-23 | The service starts over an existing container, with no calls made yet |
| `BlobStorage.BlobStorageService.UploadFileAsync` | StorageMicroservice/Services/BlobStorageService.cs:25-60 | The new container is `Uploaded` of the old one. The result is non-null exactly when both service calls succeed, and then Id = the generated Guid (read back via Parse), Name = file name, Size = file length, ContentType = the file's, UploadDate = the instant written to metadata, no VersionId |
| `BlobStorage.BlobStorageService.GetFileAsync` | StorageMicroservice/Services/BlobStorageService.cs:62-89 | Leaves the container unchanged and returns `Fetch`: null for a missing blob or a failing service; otherwise the bytes with Id = id, Name = blob name, stored size and content type, and the stored UploadDate or else the current instant |
| `BlobStorage.BlobStorageService.DeleteFileAsync` | StorageMicroservice/Services/BlobStorageService.cs:91-102 | The new container is `Deleted` of the old one. The method always returns normally |
| `RabbitMqConsumer.HandleUpload` | StorageMicroservice/Services/RabbitMqConsumerService.cs:69-98 | One reply, with action UploadFile. It succeeds exactly when the payload decodes and both backend calls succeed. A success carries the generated Guid and "File uploaded successfully.", and the stored blob holds the decoded bytes and the request's content type. When the payload decodes, the new container is `Uploaded` of the old one for the file built from those bytes, so every other blob is kept, a rejected upload changes nothing, and a failed metadata call leaves the blob with UploadDate exactly when the service stored the entry before reporting the failure. An invalid payload makes no storage call and replies with the FormatException text. A null record replies with the NullReferenceException text. Every failure has an empty FileId and no name or content |
| `RabbitMqConsumer.HandleGet` | StorageMicroservice/Services/RabbitMqConsumerService.cs:100-125 | One reply, with action GetFile; the container is unchanged. It succeeds exactly when the blob exists, the service answers and its content stream copies. A success carries the requested Guid, the blob name as FileName, the base64 of the whole content, and "File retrieved successfully.". A failed copy replies with that exception's message. A null stream (missing blob or failing service) replies with the NullReferenceException text. Every failure has an empty FileId and no name or content |
| `RabbitMqConsumer.HandleDelete` | StorageMicroservice/Services/RabbitMqConsumerService.cs:127-148 | One success reply, with action DeleteFile, that echoes the requested Guid and says "File deleted successfully." whether or not the blob existed. The container becomes `Deleted` |
| `RabbitMqConsumer.Dispatch` | StorageMicroservice/Services/RabbitMqConsumerService.cs:50-61 | A request gets exactly one reply if its action is UploadFile, GetFile or DeleteFile, and none otherwise. Every reply's action equals the request's. An unknown action changes nothing and calls no storage operation |
| `RabbitMqConsumer.Run` | StorageMicroservice/Services/RabbitMqConsumerService.cs:43-64 | Handling a stream of messages one at a time publishes at most one reply per message, every reply names a routed action, and a stream with no routed action leaves the container unchanged and calls no storage operation |
| `RabbitMqConsumer.OneReplyPerRoutableRequest` | StorageMicroservice/Services/RabbitMqConsumerService.cs:43-64 | Over any stream of messages, the responses answer the routable requests one for one and in order |
| `RabbitMqConsumer.QueueRoundTrip` | StorageMicroservice/Services/RabbitMqConsumerService.cs:69-125 | A successful upload request followed by a get for the Guid its reply carries, with the service answering and the stream copying, yields a successful get. The get's content decodes to the bytes the upload request carried |
| `RabbitMqConsumer.UploadScenario` | StorageMicroservice.Tests/RabbitMqConsumerService.cs:46-77 | The unit test's upload request (the base64 of the UTF-8 bytes of "dummy content", test.txt, text/plain), with a working backend, publishes exactly one success reply with the generated Guid and "File uploaded successfully.". The blob holds exactly those bytes as text/plain |
| `RabbitMqConsumer.RabbitMqConsumerService.constructor` | StorageMicroservice/Services/RabbitMqConsumerService.cs:19-37 | The adapter starts with its storage backend and nothing published |
| `RabbitMqConsumer.RabbitMqConsumerService.PublishResponse` | StorageMicroservice/Services/RabbitMqConsumerService.cs:150-156 | Appends exactly the given response to the response queue |
| `RabbitMqConsumer.RabbitMqConsumerService.HandleUploadFileAsync` | StorageMicroservice/Services/RabbitMqConsumerService.cs:69-98 | The backend's container and call log, and the outbox, change as `HandleUpload` says |
| `RabbitMqConsumer.RabbitMqConsumerService.HandleGetFileAsync` | StorageMicroservice/Services/RabbitMqConsumerService.cs:100-125 | The backend's container and call log, and the outbox, change as `HandleGet` says |
| `RabbitMqConsumer.RabbitMqConsumerService.HandleDeleteFileAsync` | StorageMicroservice/Services/RabbitMqConsumerService.cs:127-148 | The backend's container and call log, and the outbox, change as `HandleDelete` says |
| `RabbitMqConsumer.RabbitMqConsumerService.Received` | StorageMicroservice/Services/RabbitMqConsumerService.cs:44-62 | The backend's container and call log, and the outbox, change as `Dispatch` says |

## Left out

- S3StorageService, the Amazon S3 backend, is not part of this model. The adapter is modelled over
  the Azure backend only, so the law that the two backends are interchangeable is not stated.
- IStorageService as an interface with several implementations: the adapter holds the Azure backend
  directly.
- RabbitMQ I/O: the connection, the channel, the queue declarations, `BasicConsume` with automatic
  acknowledgement, and `Dispose`. A received message is a request value, and publishing appends to
  the outbox.
- Concurrency: the handler runs asynchronously, and several messages may be in flight at once.
  The model handles one message at a time.
- JSON and UTF-8 conversion of messages. Malformed message bodies, and fields absent from the JSON
  (which C# reads as null strings), are not modelled: every request field is a string.
- `DateTime.UtcNow` is the parameter `now`. The UploadDate metadata value is kept as an instant, so
  its "o"-format text and `DateTime.Parse` are not modelled, nor is a metadata value that fails to parse.
- `Guid.NewGuid()` is the parameter `newId`. `Guid.Parse` is modelled for the "D" format only, the
  only format it is given here.
- Failures of the Azure service are the `fault` parameters.
  - For the metadata call of an upload, `SetMetadataRejected` means the entry was not stored.
    `SetMetadataReportedFailed` means it was stored but the call still failed.
  - A failed copy of a downloaded blob's stream is `copyFault`. It carries the exception's message
    as an opaque string.
  - A delete that the service applies but then reports as failed is not modelled.
- Base64.Decode ignores the bits that padding leaves over in the last block; a text whose leftover
  bits are not zero is accepted. Encode always writes them as zero, so the round trip is unaffected.
- Logging.
- Azure client construction and `CreateIfNotExists`. The constructor takes the blobs the container
  already holds.
- StorageMicroservice/Program.cs (dependency injection, provider selection, logging setup) and
  StorageMicroservice/Controllers/FilesController.cs (the HTTP layer).
