/** Resolution of a repository's default branch from its metadata lookup. */
module DefaultBranch {
  import opened Wrappers
  import opened Errors
  import opened Refs

  /** What the repository-metadata request returned: the `default_branch`
      field, or the error it threw with the status that error carries. */
  datatype LookupOutcome = Found(defaultBranch: string) | LookupFailed(status: Option<int>)

  const NotFoundStatus := 404
  const WikiFallbackBranch := "master"

  /** The `try` block: read the field and assert that it is not empty. */
  function ReadDefaultBranch(lookup: LookupOutcome): (r: Result<string, Error>)
    ensures r.Success? <==> lookup.Found? && lookup.defaultBranch != ""
    ensures r.Success? ==> r.value == lookup.defaultBranch
    ensures r.Failure? ==> StatusOf(r.error) == (if lookup.Found? then None else lookup.status)
  {
    match lookup
    case Found(branch) =>
      if branch == "" then Failure(AssertionFailed(EmptyBranchMessage)) else Success(branch)
    case LookupFailed(status) => Failure(RequestFailed(status))
  }

  /** The `catch` block: a 404 on a wiki repository means `master`; any
      other error is thrown again unchanged. */
  function RecoverLookupError(err: Error, repo: string): (r: Result<string, Error>)
    ensures r.Success? <==> StatusOf(err) == Some(NotFoundStatus) && IsWikiName(repo)
    ensures r.Success? ==> r.value == WikiFallbackBranch
    ensures r.Failure? ==> r.error == err
  {
    if StatusOf(err) == Some(NotFoundStatus) && IsWikiName(repo) then Success(WikiFallbackBranch)
    else Failure(err)
  }

  /** `getDefaultBranch` for one attempt whose lookup outcome is given. */
  function GetDefaultBranch(lookup: LookupOutcome, repo: string): (r: Result<string, Error>)
    ensures r.Success? ==> StartsWith(r.value, RefsPrefix)
    ensures r.Success? <==>
              || (lookup.Found? && lookup.defaultBranch != "")
              || (lookup == LookupFailed(Some(NotFoundStatus)) && IsWikiName(repo))
    ensures lookup.Found? && lookup.defaultBranch != "" ==> r == Success(NormalizeRef(lookup.defaultBranch))
    ensures r.Failure? && lookup.Found? ==> r.error == AssertionFailed(EmptyBranchMessage)
    ensures r.Failure? && lookup.LookupFailed? ==> r.error == RequestFailed(lookup.status)
  {
    var branch :=
      match ReadDefaultBranch(lookup)
      case Success(b) => Success(b)
      case Failure(err) => RecoverLookupError(err, repo);
    match branch
    case Success(b) => Success(NormalizeRef(b))
    case Failure(err) => Failure(err)
  }

  /** A 404 lookup falls back to `refs/heads/master` exactly for wiki repositories;
      for every other repository the 404 error itself is thrown. */
  lemma WikiFallback(repo: string)
    ensures IsWikiName(repo) ==> GetDefaultBranch(LookupFailed(Some(NotFoundStatus)), repo) == Success("refs/heads/master")
    ensures !IsWikiName(repo) ==> GetDefaultBranch(LookupFailed(Some(NotFoundStatus)), repo) == Failure(RequestFailed(Some(NotFoundStatus)))
  {
    assert WikiFallbackBranch[0] != RefsPrefix[0];
    assert NormalizeRef(WikiFallbackBranch) == HeadsPrefix + WikiFallbackBranch == "refs/heads/master";
    if IsWikiName(repo) {
      assert RecoverLookupError(RequestFailed(Some(NotFoundStatus)), repo) == Success(WikiFallbackBranch);
    }
  }

  /** A failure with any status other than 404, or with no status, is thrown
      unchanged whatever the repository is called. */
  lemma OtherFailuresPropagate(status: Option<int>, repo: string)
    requires status != Some(NotFoundStatus)
    ensures GetDefaultBranch(LookupFailed(status), repo) == Failure(RequestFailed(status))
  {
  }

  /** An empty `default_branch` is an assertion failure even for a wiki
      repository: the assertion error carries no 404 status. */
  lemma EmptyBranchNeverFallsBack(repo: string)
    ensures GetDefaultBranch(Found(""), repo) == Failure(AssertionFailed(EmptyBranchMessage))
  {
  }
}
