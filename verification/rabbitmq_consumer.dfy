/**
 * RabbitMqConsumerService: the queue adapter. Each request message is routed
 * on its Action to one of three handlers, which call the storage backend and
 * publish exactly one response; any other Action is dropped without a reply.
 *
 * The broker is left out: a received message is a FileOperationRequest value,
 * and publishing appends to an outbox that stands for the response queue.
 * Messages are handled one at a time.
 */
module RabbitMqConsumer {
  import opened Wrappers
  import opened Guids
  import opened Models
  import Base64
  import opened BlobStorage

  const UploadFileAction: string := "UploadFile"
  const GetFileAction: string := "GetFile"
  const DeleteFileAction: string := "DeleteFile"

  const UploadedMessage: string := "File uploaded successfully."
  const RetrievedMessage: string := "File retrieved successfully."
  const DeletedMessage: string := "File deleted successfully."

  /** The message of the FormatException that Convert.FromBase64String throws. */
  const InvalidBase64Message: string :=
    "The input is not a valid Base-64 string as it contains a non-base 64 character, more than two padding characters, or an illegal character among the padding characters."

  /** The message of the NullReferenceException a handler raises on a null result. */
  const NullReferenceMessage: string := "Object reference not set to an instance of an object."

  /**
   * What the world outside the model decides while one message is handled:
   * the Guid the backend generates, the current instant, how the Azure
   * service answers each call, and, when copying a downloaded blob's stream
   * fails, the message of the exception that copy throws.
   */
  datatype Externals = Externals(
    newId: Guid,
    now: DateTime,
    uploadFault: UploadFault,
    getFault: bool,
    deleteFault: bool,
    copyFault: Option<string>)

  /** The actions the switch in the Received handler dispatches. */
  predicate IsRoutable(action: string)
  {
    action == UploadFileAction || action == GetFileAction || action == DeleteFileAction
  }

  /** The response a handler publishes from its catch block. */
  function Failed(action: string, message: string): FileOperationResponse
  {
    FileOperationResponse(false, action, Empty, None, None, message)
  }

  /** A failure response: Success false, FileId left empty, no file name, no content. */
  predicate IsFailureReply(r: FileOperationResponse)
  {
    !r.success && r.fileId == Empty && r.fileName.None? && r.fileContentBase64.None?
  }

  /** The effect of handling one message: the new container, what was published, what storage saw. */
  datatype Step = Step(container: Container, replies: seq<FileOperationResponse>, calls: seq<StorageCall>)

  /** The in-memory file HandleUploadFileAsync builds from the decoded bytes. */
  function RequestFile(request: FileOperationRequest, bytes: seq<byte>): FormFile
  {
    FormFile(bytes, |bytes|, request.fileName, request.contentType)
  }

  /** HandleUploadFileAsync. */
  function HandleUpload(c: Container, request: FileOperationRequest, ext: Externals): (s: Step)
    ensures |s.replies| == 1 && s.replies[0].action == UploadFileAction
    ensures s.replies[0].success <==> Base64.Decode(request.fileContentBase64).Some? && ext.uploadFault == NoFault
    ensures s.replies[0].success ==>
              && s.replies[0].fileId == ext.newId
              && s.replies[0].message == UploadedMessage
              && s.replies[0].fileName.None?
              && s.replies[0].fileContentBase64.None?
              && ToString(ext.newId) in s.container
              && Some(s.container[ToString(ext.newId)].content) == Base64.Decode(request.fileContentBase64)
              && s.container[ToString(ext.newId)].contentType == request.contentType
    ensures !s.replies[0].success ==> IsFailureReply(s.replies[0])
    ensures Base64.Decode(request.fileContentBase64).None? ==>
              s.container == c && s.calls == [] && s.replies[0].message == InvalidBase64Message
    ensures Base64.Decode(request.fileContentBase64).Some? ==>
              var bytes := Base64.Decode(request.fileContentBase64).value;
              && s.container == Uploaded(c, RequestFile(request, bytes), ext.newId, ext.now, ext.uploadFault)
              && s.calls == [UploadCall(RequestFile(request, bytes))]
              && (ext.uploadFault != NoFault ==> s.replies[0].message == NullReferenceMessage)
  {
    match Base64.Decode(request.fileContentBase64)
    case None => Step(c, [Failed(UploadFileAction, InvalidBase64Message)], [])
    case Some(bytes) =>
      var file := RequestFile(request, bytes);
      var reply :=
        match UploadResult(file, ext.newId, ext.now, ext.uploadFault)
        case None => Failed(UploadFileAction, NullReferenceMessage)
        case Some(record) => FileOperationResponse(true, UploadFileAction, record.id, None, None, UploadedMessage);
      Step(Uploaded(c, file, ext.newId, ext.now, ext.uploadFault), [reply], [UploadCall(file)])
  }

  /**
   * HandleGetFileAsync. A blob the backend found can still fail while its
   * content stream is copied; the reply then carries that exception's message.
   */
  function HandleGet(c: Container, request: FileOperationRequest, ext: Externals): (s: Step)
    ensures s.container == c && s.calls == [GetCall(request.fileId)]
    ensures |s.replies| == 1 && s.replies[0].action == GetFileAction
    ensures s.replies[0].success <==> !ext.getFault && ToString(request.fileId) in c && ext.copyFault.None?
    ensures s.replies[0].success ==>
              var blob := c[ToString(request.fileId)];
              && s.replies[0].fileId == request.fileId
              && s.replies[0].fileName == Some(ToString(request.fileId))
              && s.replies[0].fileContentBase64 == Some(Base64.Encode(blob.content))
              && s.replies[0].message == RetrievedMessage
    ensures !s.replies[0].success ==>
              && IsFailureReply(s.replies[0])
              && if !ext.getFault && ToString(request.fileId) in c then ext.copyFault == Some(s.replies[0].message)
                 else s.replies[0].message == NullReferenceMessage
  {
    var reply :=
      match Fetch(c, request.fileId, ext.now, ext.getFault)
      case None => Failed(GetFileAction, NullReferenceMessage)
      case Some(download) =>
        match ext.copyFault
        case Some(message) => Failed(GetFileAction, message)
        case None =>
          FileOperationResponse(true, GetFileAction, download.info.id, Some(download.info.name),
                                Some(Base64.Encode(download.content)), RetrievedMessage);
    Step(c, [reply], [GetCall(request.fileId)])
  }

  /**
   * HandleDeleteFileAsync. The backend never throws, so the reply is always a
   * success that echoes the requested Guid, whether or not the blob existed.
   */
  function HandleDelete(c: Container, request: FileOperationRequest, ext: Externals): (s: Step)
    ensures s.container == Deleted(c, request.fileId, ext.deleteFault)
    ensures s.calls == [DeleteCall(request.fileId)]
    ensures s.replies == [FileOperationResponse(true, DeleteFileAction, request.fileId, None, None, DeletedMessage)]
  {
    Step(Deleted(c, request.fileId, ext.deleteFault),
         [FileOperationResponse(true, DeleteFileAction, request.fileId, None, None, DeletedMessage)],
         [DeleteCall(request.fileId)])
  }

  /** The Received handler: the switch on request.Action. */
  function Dispatch(c: Container, request: FileOperationRequest, ext: Externals): (s: Step)
    ensures |s.replies| == (if IsRoutable(request.action) then 1 else 0)
    ensures forall r :: r in s.replies ==> r.action == request.action
    ensures !IsRoutable(request.action) ==> s.container == c && s.calls == []
  {
    if request.action == UploadFileAction then HandleUpload(c, request, ext)
    else if request.action == GetFileAction then HandleGet(c, request, ext)
    else if request.action == DeleteFileAction then HandleDelete(c, request, ext)
    else Step(c, [], [])
  }

  /** Messages handled one after the other, in the order the queue delivers them. */
  function Run(c: Container, requests: seq<FileOperationRequest>, exts: seq<Externals>): (s: Step)
    requires |requests| == |exts|
    ensures |s.replies| <= |requests|
    ensures forall k :: 0 <= k < |s.replies| ==> IsRoutable(s.replies[k].action)
    ensures (forall k :: 0 <= k < |requests| ==> !IsRoutable(requests[k].action)) ==> s.container == c && s.calls == []
    decreases |requests|
  {
    if requests == [] then Step(c, [], [])
    else
      var first := Dispatch(c, requests[0], exts[0]);
      var rest := Run(first.container, requests[1..], exts[1..]);
      Step(rest.container, first.replies + rest.replies, first.calls + rest.calls)
  }

  /** The actions of the requests that the switch routes, in order. */
  function RoutableActions(requests: seq<FileOperationRequest>): seq<string>
  {
    if requests == [] then []
    else (if IsRoutable(requests[0].action) then [requests[0].action] else []) + RoutableActions(requests[1..])
  }

  /** The actions of a sequence of responses. */
  function ReplyActions(replies: seq<FileOperationResponse>): seq<string>
  {
    if replies == [] then [] else [replies[0].action] + ReplyActions(replies[1..])
  }

  lemma {:induction false} ReplyActionsAppend(a: seq<FileOperationResponse>, b: seq<FileOperationResponse>)
    ensures ReplyActions(a + b) == ReplyActions(a) + ReplyActions(b)
  {
    if a == [] {
      assert a + b == b;
    } else {
      assert (a + b)[0] == a[0];
      assert (a + b)[1..] == a[1..] + b;
      ReplyActionsAppend(a[1..], b);
    }
  }

  /**
   * Over any stream of messages, the responses answer the routable requests
   * one for one and in order: the i-th response carries the action of the
   * i-th request whose action is UploadFile, GetFile or DeleteFile.
   */
  lemma {:induction false} OneReplyPerRoutableRequest(c: Container, requests: seq<FileOperationRequest>, exts: seq<Externals>)
    requires |requests| == |exts|
    ensures ReplyActions(Run(c, requests, exts).replies) == RoutableActions(requests)
    ensures |Run(c, requests, exts).replies| == |RoutableActions(requests)|
    decreases |requests|
  {
    if requests != [] {
      var first := Dispatch(c, requests[0], exts[0]);
      OneReplyPerRoutableRequest(first.container, requests[1..], exts[1..]);
      ReplyActionsAppend(first.replies, Run(first.container, requests[1..], exts[1..]).replies);
      if IsRoutable(requests[0].action) {
        assert first.replies == [first.replies[0]];
        assert ReplyActions(first.replies) == [requests[0].action];
      } else {
        assert ReplyActions(first.replies) == [];
      }
    }
  }

  /**
   * Upload then Get through the queue: when the upload succeeds and the Get
   * asks for the Guid the upload reply carries, the Get reply succeeds and its
   * content decodes to the bytes the upload request carried.
   */
  lemma QueueRoundTrip(c: Container, upload: FileOperationRequest, ext1: Externals,
                       get: FileOperationRequest, ext2: Externals)
    requires upload.action == UploadFileAction && get.action == GetFileAction
    requires Base64.Decode(upload.fileContentBase64).Some? && ext1.uploadFault == NoFault
    requires !ext2.getFault && ext2.copyFault.None?
    requires get.fileId == Dispatch(c, upload, ext1).replies[0].fileId
    ensures
      var s1 := Dispatch(c, upload, ext1);
      var s2 := Dispatch(s1.container, get, ext2);
      && s1.replies[0].success
      && s2.replies[0].success
      && s2.replies[0].fileContentBase64.Some?
      && Base64.Decode(s2.replies[0].fileContentBase64.value) == Base64.Decode(upload.fileContentBase64)
  {
    var s1 := Dispatch(c, upload, ext1);
    var bytes := Base64.Decode(upload.fileContentBase64).value;
    assert s1.container[ToString(get.fileId)].content == bytes;
    Base64.DecodeEncode(bytes);
  }

  /** The UTF-8 bytes of "dummy content". */
  const DummyContent: seq<byte> := [100, 117, 109, 109, 121, 32, 99, 111, 110, 116, 101, 110, 116]

  /**
   * The upload scenario of the adapter's unit test: "dummy content" in
   * base64, file name test.txt, type text/plain. With a working backend it
   * publishes one success reply carrying the generated Guid, and the blob
   * holds exactly those bytes.
   */
  lemma UploadScenario(c: Container, ext: Externals)
    requires ext.uploadFault == NoFault
    ensures
      var request := FileOperationRequest(UploadFileAction, Empty, "test.txt", Base64.Encode(DummyContent), "text/plain");
      var s := Dispatch(c, request, ext);
      && s.replies == [FileOperationResponse(true, UploadFileAction, ext.newId, None, None, UploadedMessage)]
      && s.container[ToString(ext.newId)].content == DummyContent
      && s.container[ToString(ext.newId)].contentType == "text/plain"
  {
    Base64.DecodeEncode(DummyContent);
  }

  class RabbitMqConsumerService {
    /** The storage backend the handlers call. */
    const storage: BlobStorageService
    /** The responses published to the response queue, oldest first. */
    var outbox: seq<FileOperationResponse>

    constructor (storage: BlobStorageService)
      ensures this.storage == storage && outbox == []
    {
      this.storage := storage;
      outbox := [];
    }

    /** BasicPublish of one response to the response queue. */
    method PublishResponse(response: FileOperationResponse)
      modifies this
      ensures outbox == old(outbox) + [response]
    {
      outbox := outbox + [response];
    }

    method HandleUploadFileAsync(request: FileOperationRequest, ext: Externals)
      modifies this, storage
      ensures var s := HandleUpload(old(storage.container), request, ext);
              && storage.container == s.container
              && storage.calls == old(storage.calls) + s.calls
              && outbox == old(outbox) + s.replies
    {
      var decoded := Base64.Decode(request.fileContentBase64);
      if decoded.None? {
        PublishResponse(Failed(UploadFileAction, InvalidBase64Message));
        return;
      }
      var file := RequestFile(request, decoded.value);
      var result := storage.UploadFileAsync(file, ext.newId, ext.now, ext.uploadFault);
      if result.None? {
        PublishResponse(Failed(UploadFileAction, NullReferenceMessage));
        return;
      }
      PublishResponse(FileOperationResponse(true, UploadFileAction, result.value.id, None, None, UploadedMessage));
    }

    method HandleGetFileAsync(request: FileOperationRequest, ext: Externals)
      modifies this, storage
      ensures var s := HandleGet(old(storage.container), request, ext);
              && storage.container == s.container
              && storage.calls == old(storage.calls) + s.calls
              && outbox == old(outbox) + s.replies
    {
      var got := storage.GetFileAsync(request.fileId, ext.now, ext.getFault);
      if got.None? {
        PublishResponse(Failed(GetFileAction, NullReferenceMessage));
        return;
      }
      if ext.copyFault.Some? {
        PublishResponse(Failed(GetFileAction, ext.copyFault.value));
        return;
      }
      var content := got.value.content;
      var info := got.value.info;
      PublishResponse(FileOperationResponse(true, GetFileAction, info.id, Some(info.name),
                                            Some(Base64.Encode(content)), RetrievedMessage));
    }

    method HandleDeleteFileAsync(request: FileOperationRequest, ext: Externals)
      modifies this, storage
      ensures var s := HandleDelete(old(storage.container), request, ext);
              && storage.container == s.container
              && storage.calls == old(storage.calls) + s.calls
              && outbox == old(outbox) + s.replies
    {
      storage.DeleteFileAsync(request.fileId, ext.deleteFault);
      PublishResponse(FileOperationResponse(true, DeleteFileAction, request.fileId, None, None, DeletedMessage));
    }

    /** One message taken from the request queue. */
    method Received(request: FileOperationRequest, ext: Externals)
      modifies this, storage
      ensures var s := Dispatch(old(storage.container), request, ext);
              && storage.container == s.container
              && storage.calls == old(storage.calls) + s.calls
              && outbox == old(outbox) + s.replies
    {
      if request.action == UploadFileAction {
        HandleUploadFileAsync(request, ext);
      } else if request.action == GetFileAction {
        HandleGetFileAsync(request, ext);
      } else if request.action == DeleteFileAction {
        HandleDeleteFileAsync(request, ext);
      }
    }
  }
}
