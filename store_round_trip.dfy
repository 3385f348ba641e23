/**
  Properties that hold only under the abstract store of module S3 (a get returns what the
  last successful put stored under the same bucket and key). They are kept apart from the
  lemmas about the repository's own string and response logic.
*/
module StoreRoundTrip {
  import opened Base
  import opened Java
  import opened S3
  import opened Services
  import opened Controllers

  /**
    Uploading a non-empty file and then downloading the returned key gives 200 with the same
    bytes; the store keeps the file's content type and size; and for a filename without '/'
    the Content-Disposition names the original file.
  */
  lemma UploadThenDownload(objects: Objects, bucket: string, file: MultipartFile, memeId: string)
    requires !file.IsEmpty() && file.streamFault.None?
    ensures
      var up := UploadResponse(false, UploadOutcome(file, memeId, None));
      var key := UploadKey(memeId, file.originalFilename);
      var stored := AfterPut(objects, UploadRequest(bucket, file, memeId), file.content, file.Size(), None);
      var down := DownloadResponse(key, GetOutcome(stored, GetObjectRequest(bucket, key), None));
      && up == Response(200, [], Text(key))
      && stored[(bucket, key)] == StoredObject(file.contentType, file.content, file.Size())
      && down.status == 200
      && down.body == Stream(file.content)
      && (file.originalFilename.Some? && '/' !in file.originalFilename.value ==>
            down.headers[0] == ("Content-Disposition", ContentDisposition(file.originalFilename.value)))
  {
    if file.originalFilename.Some? && '/' !in file.originalFilename.value {
      DownloadFilenameRecoversUploadName(memeId, file.originalFilename.value);
    }
  }

  /** A key that holds nothing is answered 404 with no body, whatever else goes wrong. */
  lemma MissingKeyIsNotFound(objects: Objects, bucket: string, key: string, fault: Option<Exception>)
    requires (bucket, key) !in objects
    ensures DownloadResponse(key, GetOutcome(objects, GetObjectRequest(bucket, key), fault)) == Response(404, [], NoBody)
  {
  }

  /**
    Two successful uploads with different generated ids both stay retrievable with their own
    content, even when the filenames are the same.
  */
  lemma UploadsDoNotCollide(objects: Objects, bucket: string, f1: MultipartFile, id1: string, f2: MultipartFile, id2: string)
    requires IsUuidString(id1) && IsUuidString(id2) && id1 != id2
    ensures
      var k1 := UploadKey(id1, f1.originalFilename);
      var k2 := UploadKey(id2, f2.originalFilename);
      var once := AfterPut(objects, UploadRequest(bucket, f1, id1), f1.content, f1.Size(), None);
      var twice := AfterPut(once, UploadRequest(bucket, f2, id2), f2.content, f2.Size(), None);
      && k1 != k2
      && GetOutcome(twice, GetObjectRequest(bucket, k1), None) == Success(StoredObject(f1.contentType, f1.content, f1.Size()))
      && GetOutcome(twice, GetObjectRequest(bucket, k2), None) == Success(StoredObject(f2.contentType, f2.content, f2.Size()))
  {
    UuidKeyShape(id1, f1.originalFilename);
    UuidKeyShape(id2, f2.originalFilename);
    UploadKeysDistinct(id1, f1.originalFilename, id2, f2.originalFilename);
  }

  /** The same round trip through the controller objects: their contracts alone give the result. */
  method UploadThenDownloadThroughController(controller: MemeController, file: MultipartFile, memeId: string)
    returns (up: Response, down: Response)
    requires !file.IsEmpty() && file.streamFault.None?
    modifies controller.memeService.s3Client
    ensures up == Response(200, [], Text(UploadKey(memeId, file.originalFilename)))
    ensures
      var objects := controller.memeService.s3Client.objects;
      var k := (controller.memeService.bucketName, UploadKey(memeId, file.originalFilename));
      k in objects && objects[k] == StoredObject(file.contentType, file.content, file.Size())
    ensures down.status == 200 && down.body == Stream(file.content)
    ensures |down.headers| == 2 && down.headers[1] == ("Content-Type", OctetStream)
    ensures file.originalFilename.Some? && '/' !in file.originalFilename.value ==>
      down.headers[0] == ("Content-Disposition", ContentDisposition(file.originalFilename.value))
    ensures |controller.memeService.s3Client.calls| == |old(controller.memeService.s3Client.calls)| + 2
  {
    up := controller.Upload(file, memeId, None);
    UploadThenDownload(old(controller.memeService.s3Client.objects), controller.memeService.bucketName, file, memeId);
    down := controller.Download(up.body.text, None);
  }
}
