/** The HTTP endpoint of the backend (`MemeController`): request checks, header construction and the status mapping. */
module Controllers {
  import opened Base
  import opened Java
  import opened Paths
  import opened S3
  import opened Services

  datatype Body = NoBody | Text(text: string) | Stream(bytes: seq<byte>)

  /** A `ResponseEntity`: status code, the headers the handler sets, and the body. */
  datatype Response = Response(status: int, headers: seq<(string, string)>, body: Body)

  const EmptyFileMessage: string := "File is empty"
  const UploadFailedPrefix: string := "Upload failed: "
  const DispositionPrefix: string := "attachment; filename=\""
  const OctetStream: string := "application/octet-stream"

  /**
    `upload(file)`, given whether the file is empty and what the service's `upload` returned or
    threw (that outcome is never looked at for an empty file, whose request never reaches the service).
  */
  function UploadResponse(fileIsEmpty: bool, outcome: Result<string, Exception>): (r: Response)
    ensures r.headers == []
    ensures r.status == 400 <==> fileIsEmpty
    ensures r.status == 400 ==> r.body == Text(EmptyFileMessage)
    ensures r.status == 200 <==> !fileIsEmpty && outcome.Success?
    ensures r.status == 200 ==> r.body == Text(outcome.value)
    ensures r.status == 500 <==> !fileIsEmpty && outcome.Failure?
    ensures r.status == 500 ==>
      && r.body.Text?
      && UploadFailedPrefix <= r.body.text
      && r.body.text[|UploadFailedPrefix|..] == Str(outcome.error.message)
  {
    if fileIsEmpty then Response(400, [], Text(EmptyFileMessage))
    else match outcome
      case Success(key) => Response(200, [], Text(key))
      case Failure(e) => Response(500, [], Text(UploadFailedPrefix + Str(e.message)))
  }

  /** `key.substring(key.lastIndexOf("/") + 1)`: the part of the key after its last '/', or the whole key. */
  function DownloadFilename(key: string): (filename: string)
    ensures IsLastSegment(key, '/', filename)
  {
    var start := LastIndexOf(key, '/') + 1;
    var filename := key[start..];
    assert forall i :: 0 <= i < |filename| ==> filename[i] == key[start + i];
    filename
  }

  /** The Content-Disposition value: the filename verbatim between `attachment; filename="` and a closing quote. */
  function ContentDisposition(filename: string): (value: string)
    ensures DispositionPrefix <= value
    ensures |value| == |DispositionPrefix| + |filename| + 1
    ensures value[|DispositionPrefix|..|value| - 1] == filename
    ensures value[|value| - 1] == '"'
  {
    DispositionPrefix + filename + "\""
  }

  /** `download(key)`, given what the service's `download` returned or threw. */
  function DownloadResponse(key: string, outcome: Result<StoredObject, Exception>): (r: Response)
    ensures r.status == 200 <==> outcome.Success?
    ensures r.status == 200 ==>
      && r.headers == [("Content-Disposition", ContentDisposition(DownloadFilename(key))), ("Content-Type", OctetStream)]
      && r.body == Stream(outcome.value.content)
    ensures outcome.Failure? ==> r == Response(404, [], NoBody)
  {
    match outcome
    case Success(stored) =>
      var filename := DownloadFilename(key);
      Response(200, [("Content-Disposition", ContentDisposition(filename)), ("Content-Type", OctetStream)], Stream(stored.content))
    case Failure(_) => Response(404, [], NoBody)
  }

  /** A key built by the service from a filename without '/' gives that filename back for the download. */
  lemma DownloadFilenameRecoversUploadName(memeId: string, name: string)
    requires '/' !in name
    ensures DownloadFilename(UploadKey(memeId, Some(name))) == name
  {
    var key := UploadKey(memeId, Some(name));
    assert IsLastSegment(key, '/', name);
    LastSegmentUnique(key, '/', name, DownloadFilename(key));
  }

  /** For any filename (a null one renders as "null"), the download filename is the last '/'-segment of that name. */
  lemma DownloadFilenameOfUploadKey(memeId: string, originalFilename: Option<string>)
    ensures DownloadFilename(UploadKey(memeId, originalFilename)) == DownloadFilename(Str(originalFilename))
  {
    var key := UploadKey(memeId, originalFilename);
    var name := Str(originalFilename);
    var t := DownloadFilename(name);
    assert key[|key| - |name|..] == name;
    assert key[|key| - |t|..] == name[|name| - |t|..];
    if |t| == |name| {
      assert key[|key| - |t| - 1] == '/';
    }
    assert IsLastSegment(key, '/', t);
    LastSegmentUnique(key, '/', t, DownloadFilename(key));
  }

  class MemeController {
    const memeService: MemeService

    constructor (memeService: MemeService)
      ensures this.memeService == memeService
    {
      this.memeService := memeService;
    }

    /**
      POST /memes/upload. An empty file is answered 400 and leaves the store and its request log
      untouched; otherwise the service's outcome is mapped to 200 or 500. The store sees a put only
      for a non-empty file whose input stream opens.
    */
    method Upload(file: MultipartFile, memeId: string, fault: Option<Exception>) returns (r: Response)
      modifies memeService.s3Client
      ensures r == UploadResponse(file.IsEmpty(), UploadOutcome(file, memeId, fault))
      ensures file.IsEmpty() ==> unchanged(memeService.s3Client)
      ensures !file.IsEmpty() && file.streamFault.Some? ==> unchanged(memeService.s3Client)
      ensures !file.IsEmpty() && file.streamFault.None? ==>
        var request := UploadRequest(memeService.bucketName, file, memeId);
        && memeService.s3Client.calls == old(memeService.s3Client.calls) + [Put(request, file.Size())]
        && memeService.s3Client.objects == AfterPut(old(memeService.s3Client.objects), request, file.content, file.Size(), fault)
    {
      if file.IsEmpty() {
        return Response(400, [], Text(EmptyFileMessage));
      }
      var outcome := memeService.Upload(file, memeId, fault);
      match outcome {
        case Success(key) =>
          r := Response(200, [], Text(key));
        case Failure(e) =>
          r := Response(500, [], Text(UploadFailedPrefix + Str(e.message)));
      }
    }

    /** GET /memes/download?key=...: every failure of the service becomes 404 with no body. */
    method Download(key: string, fault: Option<Exception>) returns (r: Response)
      modifies memeService.s3Client
      ensures r == DownloadResponse(key, GetOutcome(memeService.s3Client.objects, GetObjectRequest(memeService.bucketName, key), fault))
      ensures memeService.s3Client.objects == old(memeService.s3Client.objects)
      ensures memeService.s3Client.calls == old(memeService.s3Client.calls) + [Get(GetObjectRequest(memeService.bucketName, key))]
    {
      var outcome := memeService.Download(key, fault);
      match outcome {
        case Success(stored) =>
          var filename := key[LastIndexOf(key, '/') + 1..];
          r := Response(200, [("Content-Disposition", DispositionPrefix + filename + "\""), ("Content-Type", OctetStream)], Stream(stored.content));
        case Failure(_) =>
          r := Response(404, [], NoBody);
      }
    }
  }
}
