/** Selection and validation of the archive download request. */
module Archive {
  import opened Wrappers
  import opened Errors

  /** The host platform: the source tests `process.platform === 'win32'`. */
  datatype Platform = Windows | NonWindows

  /** The two archive endpoints of the hosting API. */
  datatype ArchiveFormat = Zipball | Tarball

  /** The parameters of one archive download request. */
  datatype ArchiveRequest = ArchiveRequest(owner: string, repo: string, ref: string, format: ArchiveFormat)

  /** What an archive request returned: a response with its status and body,
      or an error the HTTP client threw, with the status it carries. */
  datatype HttpOutcome = Response(status: int, data: Bytes) | RequestError(errorStatus: Option<int>)

  const Ok := 200

  /** The zipball endpoint on Windows, the tarball endpoint everywhere else. */
  function FormatFor(platform: Platform): (f: ArchiveFormat)
    ensures f == Zipball <==> platform == Windows
  {
    if platform == Windows then Zipball else Tarball
  }

  /** `commit || ref`: the commit when it is not empty, the ref otherwise. */
  function TargetRef(ref: string, commit: string): (r: string)
    ensures r == commit || r == ref
    ensures r == "" <==> ref == "" && commit == ""
  {
    if commit != "" then commit else ref
  }

  /** The request `downloadArchive` sends. */
  function RequestFor(owner: string, repo: string, ref: string, commit: string, platform: Platform): (q: ArchiveRequest)
    ensures q.owner == owner && q.repo == repo
    ensures q.ref == TargetRef(ref, commit)
    ensures q.format == FormatFor(platform)
  {
    ArchiveRequest(owner, repo, TargetRef(ref, commit), FormatFor(platform))
  }

  /** Accept the body of a status-200 response; anything else is an error. */
  function CheckResponse(outcome: HttpOutcome): (r: Result<Bytes, Error>)
    ensures r.Success? <==> outcome.Response? && outcome.status == Ok
    ensures r.Success? ==> r.value == outcome.data
    ensures outcome.RequestError? ==> r == Failure(RequestFailed(outcome.errorStatus))
    ensures outcome.Response? && outcome.status != Ok ==> r == Failure(UnexpectedResponse(outcome.status, outcome.data))
  {
    match outcome
    case Response(status, data) =>
      if status != Ok then Failure(UnexpectedResponse(status, data)) else Success(data)
    case RequestError(errorStatus) => Failure(RequestFailed(errorStatus))
  }

  /** `downloadArchive` for one attempt: `fetch` stands for the hosting API. */
  function DownloadArchive(owner: string, repo: string, ref: string, commit: string, platform: Platform,
                           fetch: ArchiveRequest -> HttpOutcome): (r: Result<Bytes, Error>)
    ensures var sent := fetch(RequestFor(owner, repo, ref, commit, platform));
            && (r.Success? <==> sent.Response? && sent.status == Ok)
            && (r.Success? ==> r.value == sent.data)
  {
    CheckResponse(fetch(RequestFor(owner, repo, ref, commit, platform)))
  }

  /** A non-empty commit decides the archive alone: the ref is then ignored. */
  lemma CommitTakesPrecedence(owner: string, repo: string, ref1: string, ref2: string, commit: string, platform: Platform)
    requires commit != ""
    ensures RequestFor(owner, repo, ref1, commit, platform) == RequestFor(owner, repo, ref2, commit, platform)
    ensures RequestFor(owner, repo, ref1, commit, platform).ref == commit
  {
  }

  /** Without a commit the archive is requested for the ref. */
  lemma RefUsedWithoutCommit(owner: string, repo: string, ref: string, platform: Platform)
    ensures RequestFor(owner, repo, ref, "", platform).ref == ref
  {
  }
}
