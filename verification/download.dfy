/** `download_image_from_url` as a pure step on the state of one target file.
    The server's answer and the filesystem's failures are parameters; the
    file is observed only through whether it exists and its size. */
module Downloader {
  import opened Wrappers
  import Seqs
  import Text

  /** How the body stream ends: every chunk written, or an exception after
      `written` bytes reached the file. */
  datatype Body = Complete(size: nat) | Interrupted(written: nat, message: string)

  /** What `requests.get` does: raise, or answer with an optional
      `Content-Type` header and a body. */
  datatype Fetch = RequestRaised(message: string) | Responded(contentType: Option<string>, body: Body)

  /** Which filesystem calls raise, and with what message: `os.makedirs`,
      `open` and `os.remove`. */
  datatype Disk = Disk(makedirsError: Option<string>, openError: Option<string>, removeError: Option<string>)

  const NoDiskErrors: Disk := Disk(None, None, None)

  /** The `(success, message)` pair the function returns. */
  datatype Outcome = Outcome(success: bool, message: string)

  /** The outcome and the target file afterwards: absent, or its size. */
  datatype Step = Step(outcome: Outcome, file: Option<nat>)

  /** Below this many bytes a download is taken to be invalid. */
  const MinSize: nat := 1024

  /** Exception messages are cut to this many characters. */
  const MessageLimit: nat := 50

  const AlreadyThere: string := "existant"
  const NotAnImage: string := "pas une image"
  const TooSmall: string := "trop petit"
  const Downloaded: string := "téléchargé"

  /** What happens to a file left behind by a failed download: `AsWritten`
      keeps it, as the code does; `DiscardPartial` never leaves one, as if
      the body were written to a temporary name and moved into place only
      once it passed the size check. */
  datatype Cleanup = AsWritten | DiscardPartial

  /** `str(e)[:50]`. */
  function ErrorMessage(e: string): (m: string)
    ensures |m| <= MessageLimit && |m| <= |e|
    ensures m == e[..|m|]
    ensures |e| <= MessageLimit ==> m == e
    ensures |m| == if |e| <= MessageLimit then |e| else MessageLimit
  {
    Seqs.PyPrefix(e, MessageLimit as int)
  }

  /** `'image' in headers.get('content-type', '')`: a case-sensitive
      substring test; a missing header is the empty string. */
  predicate IsImageType(contentType: Option<string>) {
    Text.Includes(contentType.GetOr(""), "image")
  }

  /** The answer is a complete image body of at least `MinSize` bytes. */
  predicate GoodImage(fetch: Fetch) {
    fetch.Responded? && IsImageType(fetch.contentType) && fetch.body.Complete? && fetch.body.size >= MinSize
  }

  /** One call of `download_image_from_url` on a target whose current state
      is `file`. An exception message may read like any of the fixed
      messages, so the outcome is described case by case from the inputs. */
  function DownloadImage(cleanup: Cleanup, file: Option<nat>, disk: Disk, fetch: Fetch): (st: Step)
    ensures st.outcome.success <==>
      disk.makedirsError.None? && (file.Some? || (disk.openError.None? && GoodImage(fetch)))
    ensures st.outcome.success ==> st.outcome.message == AlreadyThere || st.outcome.message == Downloaded
    ensures !st.outcome.success ==>
      st.outcome.message == NotAnImage || st.outcome.message == TooSmall || |st.outcome.message| <= MessageLimit
    ensures disk.makedirsError.None? && file.Some? ==> st == Step(Outcome(true, AlreadyThere), file)
    ensures st.outcome.success && file.None? ==> st == Step(Outcome(true, Downloaded), Some(fetch.body.size))
    ensures disk.makedirsError.None? && file.None? && fetch.Responded? && !IsImageType(fetch.contentType)
      ==> st == Step(Outcome(false, NotAnImage), None)
    ensures disk == NoDiskErrors && file.None? && fetch.Responded? && IsImageType(fetch.contentType)
      && fetch.body.Complete? && fetch.body.size < MinSize
      ==> st == Step(Outcome(false, TooSmall), None)
    ensures disk.makedirsError.None? && file.None? && fetch.RequestRaised?
      ==> st == Step(Outcome(false, ErrorMessage(fetch.message)), None)
    ensures file.Some? ==> st.file == file
    ensures file.None? && cleanup == DiscardPartial ==> (st.file.Some? <==> st.outcome.success)
  {
    if disk.makedirsError.Some? then Step(Outcome(false, ErrorMessage(disk.makedirsError.value)), file)
    else if file.Some? then Step(Outcome(true, AlreadyThere), file)
    else
      match fetch
      case RequestRaised(e) => Step(Outcome(false, ErrorMessage(e)), None)
      case Responded(contentType, body) =>
        if !IsImageType(contentType) then Step(Outcome(false, NotAnImage), None)
        else if disk.openError.Some? then Step(Outcome(false, ErrorMessage(disk.openError.value)), None)
        else
          match body
          case Interrupted(written, e) =>
            Step(Outcome(false, ErrorMessage(e)), if cleanup == AsWritten then Some(written) else None)
          case Complete(size) =>
            if size < MinSize then
              if disk.removeError.Some? then
                Step(Outcome(false, ErrorMessage(disk.removeError.value)), if cleanup == AsWritten then Some(size) else None)
              else Step(Outcome(false, TooSmall), None)
            else Step(Outcome(true, Downloaded), Some(size))
  }

  /** The state every file the downloader leaves behind should be in:
      absent, or at least `MinSize` bytes. */
  predicate Sound(file: Option<nat>) {
    file.None? || file.value >= MinSize
  }

  /** With `DiscardPartial`, a sound target stays sound whatever happens,
      and a success leaves an image of at least `MinSize` bytes. */
  lemma DiscardPartialKeepsSound(file: Option<nat>, disk: Disk, fetch: Fetch)
    requires Sound(file)
    ensures Sound(DownloadImage(DiscardPartial, file, disk, fetch).file)
    ensures DownloadImage(DiscardPartial, file, disk, fetch).outcome.success ==>
      DownloadImage(DiscardPartial, file, disk, fetch).file.Some?
      && DownloadImage(DiscardPartial, file, disk, fetch).file.value >= MinSize
  {
  }

  /** As written, an interrupted image download leaves a file of the bytes
      written so far, which may be far below `MinSize`. */
  lemma InterruptedLeavesPartialFile(contentType: string, written: nat, e: string)
    requires Text.Includes(contentType, "image")
    ensures DownloadImage(AsWritten, None, NoDiskErrors, Responded(Some(contentType), Interrupted(written, e)))
         == Step(Outcome(false, ErrorMessage(e)), Some(written))
  {
  }
}
