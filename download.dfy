/** The download tool (main.py:80-111): normalise the id, look the paper up,
    store its PDF under a derived file name, and report the outcome as one of
    three messages. */
module Download {
  import opened Wrappers
  import opened PaperId
  import opened Filenames

  /** What `next(client.results(search))` does: yields a paper (with its
      title), stops at once (no match), or raises an exception. */
  datatype Lookup = Found(title: string) | NoMatch | LookupRaised(reason: string)

  /** The outcome a message reports. */
  datatype Report = Saved(path: string) | NotFound(paperId: string) | Failed(reason: string)

  const SuccessPrefix := "Paper downloaded successfully to: "
  const NotFoundPrefix := "Error: Paper with ID "
  const NotFoundSuffix := " not found."
  const FailurePrefix := "Error downloading paper: "

  /** The strings returned at main.py:107, 109 and 111. */
  function Message(r: Report): string {
    match r
    case Saved(path) => SuccessPrefix + path
    case NotFound(paperId) => NotFoundPrefix + paperId + NotFoundSuffix
    case Failed(reason) => FailurePrefix + reason
  }

  /** Different outcomes give different messages, so the message tells the
      caller which outcome happened and recovers its path, id or reason. */
  lemma MessageInjective(a: Report, b: Report)
    requires Message(a) == Message(b)
    ensures a == b
  {
    var m := Message(a);
    match a
    case Saved(p) =>
      assert m[0] == 'P';
      assert b.Saved? by { assert Message(b)[0] == 'E' || b.Saved?; }
      assert p == m[|SuccessPrefix|..] == b.path;
    case NotFound(id) =>
      assert m[0] == 'E' && m[5] == ':';
      assert b.NotFound? by { assert Message(b)[5] == ' ' || Message(b)[0] == 'P' || b.NotFound?; }
      assert id == m[|NotFoundPrefix|..|m| - |NotFoundSuffix|] == b.paperId;
    case Failed(e) =>
      assert m[0] == 'E' && m[5] == ' ';
      assert b.Failed? by { assert Message(b)[5] == ':' || Message(b)[0] == 'P' || b.Failed?; }
      assert e == m[|FailurePrefix|..] == b.reason;
  }

  /** `download_paper`. `storage` is the string form of the storage path;
      `lookup` stands for the index query by id, `fetch` for
      `paper.download_pdf(dirpath, filename)`, which returns normally (None)
      or raises (Some of the exception's message). */
  method DownloadPaper(paperId: string, storage: string, lookup: string -> Lookup,
                       fetch: (string, string) -> Option<string>)
    returns (msg: string)
    ensures var cleanId := CleanId(paperId);
      match lookup(cleanId)
      case NoMatch => msg == Message(NotFound(paperId))
      case LookupRaised(e) => msg == Message(Failed(e))
      case Found(title) =>
        var filename := Filename(cleanId, title);
        match fetch(storage, filename)
        case None => msg == Message(Saved(JoinPath(storage, filename)))
        case Some(e) => msg == Message(Failed(e))
  {
    var cleanId := CleanId(paperId);
    match lookup(cleanId) {
      case NoMatch =>
        msg := Message(NotFound(paperId));
      case LookupRaised(e) =>
        msg := Message(Failed(e));
      case Found(title) =>
        var filename := Filename(cleanId, title);
        var filepath := JoinPath(storage, filename);
        match fetch(storage, filename) {
          case None =>
            msg := Message(Saved(filepath));
          case Some(e) =>
            msg := Message(Failed(e));
        }
    }
  }

  /** The not-found message names the id exactly as the caller gave it, even
      when the lookup used a different, normalised id. */
  lemma NotFoundEchoesInput(paperId: string)
    ensures Message(NotFound(paperId)) == "Error: Paper with ID " + paperId + " not found."
    ensures Message(NotFound(paperId))[|NotFoundPrefix|..|NotFoundPrefix| + |paperId|] == paperId
  {
  }

  /** A success message ends with the stored file's path, whose last segment
      is the derived file name. */
  lemma SuccessNamesStoredFile(paperId: string, storage: string, title: string)
    ensures var filename := Filename(CleanId(paperId), title);
      var path := JoinPath(storage, filename);
      && Message(Saved(path))[..|SuccessPrefix|] == SuccessPrefix
      && Message(Saved(path))[|SuccessPrefix|..] == path
      && LastSegment(path) == filename
  {
    SavedPathNamesFile(storage, paperId, title);
  }
}
