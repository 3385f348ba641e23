/**
  The upload page of the frontend (`MemePage`): the gallery list, the uploading flag, the
  drop filter, sequential uploads, deletion by index and the name a download is saved under.
  Network replies, object URLs and clock readings are arguments (see `UploadEnv`).
*/
module Page {
  import opened Base
  import opened Paths
  import opened JavaScript

  const ImagePrefix: string := "image/"
  const FallbackDownloadName: string := "meme.jpg"

  /** A dropped or chosen browser `File`: its name and its MIME type (`file.type`). */
  datatype File = File(name: string, mimeType: string)

  /** An entry of the gallery. */
  datatype UploadedMeme = UploadedMeme(key: string, url: string, timestamp: int)

  /** How the upload request ended: `fetch` (or reading the text) threw, or a reply came with its `ok` flag and text. */
  datatype FetchReply = Rejected | Replied(ok: bool, text: string)

  /** What the outside world supplies to one `uploadFile` call: the reply, `URL.createObjectURL(file)` and `Date.now()`. */
  datatype UploadEnv = UploadEnv(reply: FetchReply, objectUrl: string, now: int)

  /** `file.type.startsWith("image/")`. */
  predicate IsImage(f: File) {
    ImagePrefix <= f.mimeType
  }

  /** `files.filter((file) => file.type.startsWith("image/"))`. */
  function ImageFiles(files: seq<File>): (images: seq<File>)
    ensures |images| <= |files|
    ensures forall f :: f in images <==> f in files && IsImage(f)
  {
    if files == [] then []
    else (if IsImage(files[0]) then [files[0]] else []) + ImageFiles(files[1..])
  }

  /** The filter keeps order: filtering a concatenation concatenates the filtered halves. */
  lemma {:induction false} ImageFilesConcat(a: seq<File>, b: seq<File>)
    ensures ImageFiles(a + b) == ImageFiles(a) + ImageFiles(b)
  {
    if a == [] {
      assert a + b == b;
    } else {
      assert (a + b)[1..] == a[1..] + b;
      ImageFilesConcat(a[1..], b);
    }
  }

  /** The filter of a single file keeps it exactly when it is an image; with ImageFilesConcat this fixes the result. */
  lemma ImageFilesSingle(f: File)
    ensures ImageFiles([f]) == if IsImage(f) then [f] else []
  {
    assert [f][1..] == [];
  }

  /** The gallery entry a successful upload adds: a reply with `ok` set, keyed by the reply's text. */
  function NewMeme(env: UploadEnv): Option<UploadedMeme> {
    match env.reply
    case Replied(ok, text) => if ok then Some(UploadedMeme(text, env.objectUrl, env.now)) else None
    case Rejected => None
  }

  /** `setUploadedMemes((prev) => [newMeme, ...prev])` on success; any failure leaves the gallery as it was. */
  function AfterUpload(memes: seq<UploadedMeme>, env: UploadEnv): seq<UploadedMeme> {
    match NewMeme(env)
    case Some(m) => [m] + memes
    case None => memes
  }

  /** The gallery after uploads one after another, the last one applied last. */
  function AfterUploads(memes: seq<UploadedMeme>, envs: seq<UploadEnv>): seq<UploadedMeme>
    decreases |envs|
  {
    if envs == [] then memes
    else AfterUpload(AfterUploads(memes, envs[..|envs| - 1]), envs[|envs| - 1])
  }

  /** The entries gained by a series of uploads, in upload order. */
  function Gained(envs: seq<UploadEnv>): seq<UploadedMeme>
    decreases |envs|
  {
    if envs == [] then []
    else
      var m := NewMeme(envs[|envs| - 1]);
      Gained(envs[..|envs| - 1]) + (if m.Some? then [m.value] else [])
  }

  function Reversed<T>(s: seq<T>): seq<T>
    decreases |s|
  {
    if s == [] then [] else [s[|s| - 1]] + Reversed(s[..|s| - 1])
  }

  /** One upload puts the new entry at index 0 with every previous entry after it in order, or changes nothing. */
  lemma AfterUploadPrepends(memes: seq<UploadedMeme>, env: UploadEnv)
    ensures NewMeme(env).Some? <==> env.reply.Replied? && env.reply.ok
    ensures NewMeme(env).Some? ==>
      var r := AfterUpload(memes, env);
      |r| == |memes| + 1 && r[0].key == env.reply.text && r[1..] == memes
    ensures NewMeme(env).None? ==> AfterUpload(memes, env) == memes
  {
  }

  /** Uploads in a row leave the successful entries newest first, followed by the old gallery unchanged. */
  lemma {:induction false} AfterUploadsNewestFirst(memes: seq<UploadedMeme>, envs: seq<UploadEnv>)
    ensures AfterUploads(memes, envs) == Reversed(Gained(envs)) + memes
  {
    if envs != [] {
      var init := envs[..|envs| - 1];
      AfterUploadsNewestFirst(memes, init);
      var m := NewMeme(envs[|envs| - 1]);
      if m.Some? {
        var g := Gained(init) + [m.value];
        assert g[..|g| - 1] == Gained(init);
        assert Reversed(g) == [m.value] + Reversed(Gained(init));
      } else {
        assert Gained(envs) == Gained(init);
      }
    }
  }

  /** `prev.filter((_, i) => i !== index)`, with `from` the position of `memes[0]` in the original list. */
  function KeepOtherPositions<T>(s: seq<T>, index: int, from: int): seq<T>
    decreases |s|
  {
    if s == [] then []
    else (if from != index then [s[0]] else []) + KeepOtherPositions(s[1..], index, from + 1)
  }

  /** The filter `handleDelete(index)` applies. */
  function WithoutIndex<T>(s: seq<T>, index: int): seq<T> {
    KeepOtherPositions(s, index, 0)
  }

  lemma {:induction false} KeepOtherPositionsRemovesOne<T>(s: seq<T>, index: int, from: int)
    ensures KeepOtherPositions(s, index, from) ==
      if from <= index < from + |s| then s[..index - from] + s[index - from + 1..] else s
  {
    if s != [] {
      KeepOtherPositionsRemovesOne(s[1..], index, from + 1);
      assert s == [s[0]] + s[1..];
      if from < index < from + |s| {
        assert s[..index - from] == [s[0]] + s[1..][..index - from - 1];
        assert s[index - from + 1..] == s[1..][index - from..];
      }
    }
  }

  /** Deleting removes exactly the entry at `index` and keeps the rest in order; an index out of range changes nothing. */
  lemma WithoutIndexRemovesExactly<T>(s: seq<T>, index: int)
    ensures WithoutIndex(s, index) == if 0 <= index < |s| then s[..index] + s[index + 1..] else s
  {
    KeepOtherPositionsRemovesOne(s, index, 0);
  }

  /** `meme.key.split("/").pop() || "meme.jpg"`. */
  function DownloadName(key: string): string {
    var last := Last(Split(key, '/'));
    if last == "" then FallbackDownloadName else last
  }

  /** The saved name is the key's last '/'-segment, and the fallback exactly when the key is empty or ends in '/'. */
  lemma DownloadNameIsLastSegment(key: string)
    ensures var name := DownloadName(key);
      if key == [] || key[|key| - 1] == '/' then name == FallbackDownloadName
      else IsLastSegment(key, '/', name) && name != []
  {
    SplitLastSegment(key, '/');
  }

  /** What `handleDownload` ends with: a blob saved under a name, or the failure notice. */
  datatype DownloadOutcome = SavedAs(name: string, blob: seq<byte>) | DownloadFailed

  /** The download request either threw, or replied with a status and a body. */
  datatype DownloadReply = DownloadRejected | DownloadReplied(status: int, blob: seq<byte>)

  /** `handleDownload(meme)`: the reply's status is never examined, so a 404 reply saves its empty body too. */
  function HandleDownload(meme: UploadedMeme, reply: DownloadReply): (outcome: DownloadOutcome)
    ensures outcome.DownloadFailed? <==> reply.DownloadRejected?
    ensures outcome.SavedAs? ==> outcome.name == DownloadName(meme.key) && outcome.blob == reply.blob
  {
    match reply
    case DownloadRejected => DownloadFailed
    case DownloadReplied(_, blob) => SavedAs(DownloadName(meme.key), blob)
  }

  class MemePage {
    var isUploading: bool
    var uploadedMemes: seq<UploadedMeme>
    /** The files handed to `uploadFile`, in the order they were handed over. */
    ghost var uploadsStarted: seq<File>
    /** The value of `isUploading` each time `uploadFile` waits for the network. */
    ghost var uploadingWhileAwaiting: seq<bool>

    constructor ()
      ensures !isUploading && uploadedMemes == []
      ensures uploadsStarted == [] && uploadingWhileAwaiting == []
    {
      isUploading := false;
      uploadedMemes := [];
      uploadsStarted := [];
      uploadingWhileAwaiting := [];
    }

    /** `uploadFile(file)`: busy while the request is out, idle afterwards whatever the outcome. */
    method UploadFile(file: File, env: UploadEnv)
      modifies this
      ensures !isUploading
      ensures uploadedMemes == AfterUpload(old(uploadedMemes), env)
      ensures uploadsStarted == old(uploadsStarted) + [file]
      ensures uploadingWhileAwaiting == old(uploadingWhileAwaiting) + [true]
    {
      isUploading := true;
      uploadsStarted := uploadsStarted + [file];
      uploadingWhileAwaiting := uploadingWhileAwaiting + [isUploading];
      match env.reply {
        case Rejected =>
        case Replied(ok, text) =>
          if ok {
            var newMeme := UploadedMeme(text, env.objectUrl, env.now);
            uploadedMemes := [newMeme] + uploadedMemes;
          }
      }
      isUploading := false;
    }

    /** Uploads `files` one at a time in list order, `envs[i]` answering the i-th upload. */
    method UploadAll(files: seq<File>, envs: seq<UploadEnv>)
      requires |envs| == |files|
      modifies this
      ensures uploadedMemes == AfterUploads(old(uploadedMemes), envs)
      ensures uploadsStarted == old(uploadsStarted) + files
      ensures files == [] ==> unchanged(this)
      ensures files != [] ==> !isUploading
      ensures |uploadingWhileAwaiting| == |old(uploadingWhileAwaiting)| + |files|
      ensures uploadingWhileAwaiting[..|old(uploadingWhileAwaiting)|] == old(uploadingWhileAwaiting)
      ensures forall i :: |old(uploadingWhileAwaiting)| <= i < |uploadingWhileAwaiting| ==> uploadingWhileAwaiting[i]
    {
      var i := 0;
      while i < |files|
        invariant 0 <= i <= |files|
        invariant uploadedMemes == AfterUploads(old(uploadedMemes), envs[..i])
        invariant uploadsStarted == old(uploadsStarted) + files[..i]
        invariant i == 0 ==> unchanged(this)
        invariant i > 0 ==> !isUploading
        invariant |uploadingWhileAwaiting| == |old(uploadingWhileAwaiting)| + i
        invariant uploadingWhileAwaiting[..|old(uploadingWhileAwaiting)|] == old(uploadingWhileAwaiting)
        invariant forall j :: |old(uploadingWhileAwaiting)| <= j < |uploadingWhileAwaiting| ==> uploadingWhileAwaiting[j]
      {
        UploadFile(files[i], envs[i]);
        assert envs[..i + 1][..i] == envs[..i];
        assert files[..i + 1] == files[..i] + [files[i]];
        i := i + 1;
      }
      assert envs[..i] == envs;
      assert files[..i] == files;
    }

    /** `handleDrop`: only image files are uploaded, in drop order; with none, nothing is attempted. */
    method HandleDrop(files: seq<File>, envs: seq<UploadEnv>)
      requires |envs| == |ImageFiles(files)|
      modifies this
      ensures uploadedMemes == AfterUploads(old(uploadedMemes), envs)
      ensures uploadsStarted == old(uploadsStarted) + ImageFiles(files)
      ensures ImageFiles(files) == [] ==> unchanged(this)
      ensures ImageFiles(files) != [] ==> !isUploading
      ensures |uploadingWhileAwaiting| == |old(uploadingWhileAwaiting)| + |ImageFiles(files)|
      ensures uploadingWhileAwaiting[..|old(uploadingWhileAwaiting)|] == old(uploadingWhileAwaiting)
      ensures forall i :: |old(uploadingWhileAwaiting)| <= i < |uploadingWhileAwaiting| ==> uploadingWhileAwaiting[i]
    {
      var imageFiles := ImageFiles(files);
      if |imageFiles| == 0 {
        return;
      }
      UploadAll(imageFiles, envs);
    }

    /** `handleFileInput`: every chosen file is uploaded, in order, without the image filter. */
    method HandleFileInput(files: seq<File>, envs: seq<UploadEnv>)
      requires |envs| == |files|
      modifies this
      ensures uploadedMemes == AfterUploads(old(uploadedMemes), envs)
      ensures uploadsStarted == old(uploadsStarted) + files
      ensures files == [] ==> unchanged(this)
      ensures files != [] ==> !isUploading
      ensures |uploadingWhileAwaiting| == |old(uploadingWhileAwaiting)| + |files|
      ensures uploadingWhileAwaiting[..|old(uploadingWhileAwaiting)|] == old(uploadingWhileAwaiting)
      ensures forall i :: |old(uploadingWhileAwaiting)| <= i < |uploadingWhileAwaiting| ==> uploadingWhileAwaiting[i]
    {
      UploadAll(files, envs);
    }

    /** `handleDelete(index)`. */
    method HandleDelete(index: int)
      modifies this
      ensures uploadedMemes == WithoutIndex(old(uploadedMemes), index)
      ensures isUploading == old(isUploading)
      ensures uploadsStarted == old(uploadsStarted) && uploadingWhileAwaiting == old(uploadingWhileAwaiting)
    {
      uploadedMemes := WithoutIndex(uploadedMemes, index);
    }
  }
}
