/**
  An abstract object store standing in for the S3 client that the backend calls.
  This is an assumption about S3, not code of the repository: a bucket/key map from
  which `getObject` returns what the last successful `putObject` stored, and a log of
  the requests the client received. Failures (network, permission, missing bucket)
  arrive as a `fault` argument; a missing key fails with a not-found exception.
*/
module S3 {
  import opened Base
  import opened Java

  datatype PutObjectRequest = PutObjectRequest(bucket: string, key: string, contentType: Option<string>)
  datatype GetObjectRequest = GetObjectRequest(bucket: string, key: string)

  /** What the store holds for one bucket/key pair. */
  datatype StoredObject = StoredObject(contentType: Option<string>, content: seq<byte>, size: nat)

  /** A request as the client received it: the put request with the declared body size, or the get request. */
  datatype Call = Put(put: PutObjectRequest, size: nat) | Get(get: GetObjectRequest)

  type Objects = map<(string, string), StoredObject>

  /** The exception `getObject` throws for a key that holds nothing. */
  const NoSuchKey := Exception(Some("The specified key does not exist."))

  /** The store after a put: the object is stored under its bucket and key unless the put failed. */
  function AfterPut(objects: Objects, request: PutObjectRequest, content: seq<byte>, size: nat, fault: Option<Exception>): Objects {
    if fault.None? then objects[(request.bucket, request.key) := StoredObject(request.contentType, content, size)]
    else objects
  }

  /** The outcome of a get: the injected fault, or the stored object, or the not-found exception. */
  function GetOutcome(objects: Objects, request: GetObjectRequest, fault: Option<Exception>): Result<StoredObject, Exception> {
    if fault.Some? then Failure(fault.value)
    else if (request.bucket, request.key) in objects then Success(objects[(request.bucket, request.key)])
    else Failure(NoSuchKey)
  }

  class S3Client {
    var objects: Objects
    ghost var calls: seq<Call>

    constructor ()
      ensures objects == map[] && calls == []
    {
      objects := map[];
      calls := [];
    }

    /** `putObject(request, RequestBody.fromInputStream(stream, size))`: `fault` is Some when the write fails. */
    method PutObject(request: PutObjectRequest, content: seq<byte>, size: nat, fault: Option<Exception>) returns (failure: Option<Exception>)
      modifies this
      ensures failure == fault
      ensures objects == AfterPut(old(objects), request, content, size, fault)
      ensures calls == old(calls) + [Put(request, size)]
    {
      calls := calls + [Put(request, size)];
      if fault.None? {
        objects := objects[(request.bucket, request.key) := StoredObject(request.contentType, content, size)];
      }
      failure := fault;
    }

    /** `getObject(request)`: `fault` is Some when the read fails for a reason other than a missing key. */
    method GetObject(request: GetObjectRequest, fault: Option<Exception>) returns (r: Result<StoredObject, Exception>)
      modifies this
      ensures r == GetOutcome(objects, request, fault)
      ensures objects == old(objects)
      ensures calls == old(calls) + [Get(request)]
    {
      calls := calls + [Get(request)];
      var k := (request.bucket, request.key);
      if fault.Some? {
        r := Failure(fault.value);
      } else if k in objects {
        r := Success(objects[k]);
      } else {
        r := Failure(NoSuchKey);
      }
    }
  }
}
