/** GetLatestCommit: the first commit of a project's commit list, after the
    client error, the HTTP status and the empty list have been ruled out. */
module Commits {
  import opened GitlabTypes

  /** What Commits.ListCommits returns: the commits, resp.StatusCode, and the error. */
  datatype CommitsCall = CommitsCall(commits: seq<Commit>, statusCode: int, err: Option<Error>)

  function GetLatestCommit(call: CommitsCall): (r: Result<string>)
    ensures r.Ok? <==> call.err.None? && call.statusCode == StatusOK && |call.commits| > 0
    ensures r.Ok? ==> r.value == call.commits[0].id
    // the checks apply in this order: a client error, then the status, then the empty list
    ensures call.err.Some? ==> r == Err(call.err.value)
    ensures call.err.None? && call.statusCode != StatusOK ==> r == Err(UnexpectedStatus(call.statusCode, StatusOK))
    ensures call.err.None? && call.statusCode == StatusOK && call.commits == [] ==> r == Err(NoCommits)
  {
    if call.err.Some? then Err(call.err.value)
    else if call.statusCode != StatusOK then Err(UnexpectedStatus(call.statusCode, StatusOK))
    else if |call.commits| == 0 then Err(NoCommits)
    else Ok(call.commits[0].id)
  }
}
