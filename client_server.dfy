/**
  How the page and the backend fit together, from the code of both alone (no assumption
  about the store): the page's view of an upload reply and the two ways of naming a download.
*/
module ClientServer {
  import opened Base
  import opened Java
  import opened Paths
  import opened JavaScript
  import opened Services
  import opened Controllers
  import opened Page

  /** The page's view of a backend reply: `response.ok` (a 2xx status) and `response.text()`. */
  function ReplyTo(r: Response): FetchReply {
    Replied(200 <= r.status < 300, if r.body.Text? then r.body.text else "")
  }

  /** The page saves a download under the backend's filename, or "meme.jpg" when that filename is empty. */
  lemma DownloadNamesAgree(key: string)
    ensures DownloadName(key) == if DownloadFilename(key) == "" then FallbackDownloadName else DownloadFilename(key)
  {
    SplitLastSegment(key, '/');
    LastSegmentUnique(key, '/', Last(Split(key, '/')), DownloadFilename(key));
  }

  /**
    The gallery gains an entry exactly when the backend stored the file, and that entry carries
    the storage key; a 400 or 500 reply leaves the gallery as it was.
  */
  lemma GalleryFollowsUploadReply(memes: seq<UploadedMeme>, file: MultipartFile, memeId: string, fault: Option<Exception>, url: string, now: int)
    ensures
      var reply := ReplyTo(UploadResponse(file.IsEmpty(), UploadOutcome(file, memeId, fault)));
      AfterUpload(memes, UploadEnv(reply, url, now)) ==
        if !file.IsEmpty() && file.streamFault.None? && fault.None?
        then [UploadedMeme(UploadKey(memeId, file.originalFilename), url, now)] + memes
        else memes
  {
  }

  /** An upload of a non-empty name without '/' is saved back under that very name by the page. */
  lemma SavedUnderOriginalName(memeId: string, name: string)
    requires '/' !in name && name != ""
    ensures DownloadName(UploadKey(memeId, Some(name))) == name
  {
    DownloadFilenameRecoversUploadName(memeId, name);
    DownloadNamesAgree(UploadKey(memeId, Some(name)));
  }
}
