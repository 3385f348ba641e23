/** The storage gateway of the backend (`MemeService`): the key scheme and the two S3 calls. */
module Services {
  import opened Base
  import opened Java
  import opened S3

  /**
    The uploaded multipart file as the service sees it. `getOriginalFilename()` and
    `getContentType()` may be null; `streamFault` is Some when `getInputStream()` throws.
  */
  datatype MultipartFile = MultipartFile(
    originalFilename: Option<string>,
    contentType: Option<string>,
    content: seq<byte>,
    streamFault: Option<Exception>)
  {
    /** `getSize()`. */
    function Size(): nat { |content| }

    /** `isEmpty()`: the file has no bytes. */
    predicate IsEmpty() { |content| == 0 }
  }

  const KeyPrefix: string := "uploads/"

  /** The storage key of an upload: `"uploads/" + memeId + "/" + file.getOriginalFilename()`. */
  function UploadKey(memeId: string, originalFilename: Option<string>): (key: string)
    ensures KeyPrefix <= key
    ensures |key| == |KeyPrefix| + |memeId| + 1 + |Str(originalFilename)|
    ensures key[|KeyPrefix| + |memeId|] == '/'
    ensures key[|key| - |Str(originalFilename)|..] == Str(originalFilename)
  {
    KeyPrefix + memeId + "/" + Str(originalFilename)
  }

  /** The inverse of the key scheme: the id is what lies between the prefix and the next '/', the name is the rest. */
  function ParseKey(key: string): Option<(string, string)> {
    if |key| < |KeyPrefix| || key[..|KeyPrefix|] != KeyPrefix then None
    else
      var rest := key[|KeyPrefix|..];
      var i := IndexOf(rest, '/');
      if i < 0 then None else Some((rest[..i], rest[i + 1..]))
  }

  /** A key built from an id without '/' parses back into that id and the rendered filename. */
  lemma ParseUploadKey(memeId: string, originalFilename: Option<string>)
    requires '/' !in memeId
    ensures ParseKey(UploadKey(memeId, originalFilename)) == Some((memeId, Str(originalFilename)))
  {
    var key := UploadKey(memeId, originalFilename);
    var rest := key[|KeyPrefix|..];
    assert key[..|KeyPrefix|] == KeyPrefix;
    assert rest == memeId + "/" + Str(originalFilename);
    assert forall j :: 0 <= j < |memeId| ==> rest[j] == memeId[j];
    assert rest[|memeId|] == '/';
    assert IndexOf(rest, '/') == |memeId|;
    assert rest[..|memeId|] == memeId;
    assert rest[|memeId| + 1..] == Str(originalFilename);
  }

  /** Two uploads with different ids get different keys, whatever their filenames (null included). */
  lemma UploadKeysDistinct(id1: string, name1: Option<string>, id2: string, name2: Option<string>)
    requires '/' !in id1 && '/' !in id2
    requires id1 != id2
    ensures UploadKey(id1, name1) != UploadKey(id2, name2)
  {
    ParseUploadKey(id1, name1);
    ParseUploadKey(id2, name2);
  }

  predicate IsLowerHex(c: char) {
    '0' <= c <= '9' || 'a' <= c <= 'f'
  }

  /** The form of `UUID.randomUUID().toString()`: 36 characters, dashes at 8, 13, 18 and 23, lower-case hex elsewhere. */
  predicate IsUuidString(id: string) {
    && |id| == 36
    && forall i :: 0 <= i < 36 ==>
         if i == 8 || i == 13 || i == 18 || i == 23 then id[i] == '-' else IsLowerHex(id[i])
  }

  /** A generated id never holds '/', so every upload key has the shape `uploads/<uuid>/<filename>`. */
  lemma UuidKeyShape(memeId: string, originalFilename: Option<string>)
    requires IsUuidString(memeId)
    ensures '/' !in memeId
    ensures ParseKey(UploadKey(memeId, originalFilename)) == Some((memeId, Str(originalFilename)))
  {
    assert forall i :: 0 <= i < |memeId| ==> memeId[i] != '/';
    ParseUploadKey(memeId, originalFilename);
  }

  /** The put request `upload` sends: the configured bucket, the key, the file's content type unchanged. */
  function UploadRequest(bucketName: string, file: MultipartFile, memeId: string): PutObjectRequest {
    PutObjectRequest(bucketName, UploadKey(memeId, file.originalFilename), file.contentType)
  }

  /** What `upload` returns or throws: the key, or the stream's exception, or the store's. */
  function UploadOutcome(file: MultipartFile, memeId: string, fault: Option<Exception>): (r: Result<string, Exception>)
    ensures r.Success? <==> file.streamFault.None? && fault.None?
    ensures r.Success? ==> r.value == UploadKey(memeId, file.originalFilename)
    ensures file.streamFault.Some? ==> r == Failure(file.streamFault.value)
  {
    if file.streamFault.Some? then Failure(file.streamFault.value)
    else if fault.Some? then Failure(fault.value)
    else Success(UploadKey(memeId, file.originalFilename))
  }

  class MemeService {
    const s3Client: S3Client
    const bucketName: string

    constructor (s3Client: S3Client, bucketName: string)
      ensures this.s3Client == s3Client && this.bucketName == bucketName
    {
      this.s3Client := s3Client;
      this.bucketName := bucketName;
    }

    /**
      `upload(file)` with `memeId` for the generated UUID and `fault` for a failing `putObject`.
      When the input stream cannot be opened the store is never asked; otherwise exactly one put
      is sent, under the returned key, with the file's content type and size.
    */
    method Upload(file: MultipartFile, memeId: string, fault: Option<Exception>) returns (r: Result<string, Exception>)
      modifies s3Client
      ensures r == UploadOutcome(file, memeId, fault)
      ensures file.streamFault.Some? ==> unchanged(s3Client)
      ensures file.streamFault.None? ==>
        && s3Client.calls == old(s3Client.calls) + [Put(UploadRequest(bucketName, file, memeId), file.Size())]
        && s3Client.objects == AfterPut(old(s3Client.objects), UploadRequest(bucketName, file, memeId), file.content, file.Size(), fault)
    {
      var key := UploadKey(memeId, file.originalFilename);
      var request := PutObjectRequest(bucketName, key, file.contentType);
      if file.streamFault.Some? {
        return Failure(file.streamFault.value);
      }
      var failure := s3Client.PutObject(request, file.content, file.Size(), fault);
      if failure.Some? {
        return Failure(failure.value);
      }
      r := Success(key);
    }

    /** `download(key)`: one get for the caller's key, unchanged, from the configured bucket. */
    method Download(key: string, fault: Option<Exception>) returns (r: Result<StoredObject, Exception>)
      modifies s3Client
      ensures r == GetOutcome(s3Client.objects, GetObjectRequest(bucketName, key), fault)
      ensures s3Client.objects == old(s3Client.objects)
      ensures s3Client.calls == old(s3Client.calls) + [Get(GetObjectRequest(bucketName, key))]
    {
      var request := GetObjectRequest(bucketName, key);
      r := s3Client.GetObject(request, fault);
    }
  }
}
