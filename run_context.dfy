/** Validation of the run's environment and the choice between merge-request and push mode. */
module RunContext {
  import opened Wrappers

  /** The environment variables a run reads; each may be unset. */
  datatype Env = Env(
    token: Option<string>,         // GITLAB_TOKEN
    serverUrl: Option<string>,     // CI_SERVER_URL
    mrIid: Option<string>,         // CI_MERGE_REQUEST_IID, merge requests only
    baseSha: Option<string>,       // CI_MERGE_REQUEST_DIFF_BASE_SHA, merge requests only
    namespace: Option<string>,     // CI_PROJECT_NAMESPACE
    projectName: Option<string>,   // CI_PROJECT_NAME
    projectId: Option<string>,     // CI_PROJECT_ID
    commitBranch: Option<string>)  // CI_COMMIT_BRANCH, pushes only

  /** JavaScript truthiness of a string variable: unset and "" are both falsy. */
  predicate Present(v: Option<string>)
  {
    v.Some? && v.value != ""
  }

  /** The five values every run needs, whatever its mode. */
  predicate ProjectConfigured(env: Env)
  {
    Present(env.token) && Present(env.serverUrl) && Present(env.namespace)
    && Present(env.projectName) && Present(env.projectId)
  }

  datatype Mode = MergeRequest | Push

  /** Either the run stops with exit status 1, or it goes on in the given mode. */
  datatype Validation = Reject | Accept(mode: Mode)

  /** The checks made before any remote call, in the order the run makes them. */
  function Validate(env: Env): (r: Validation)
    ensures !ProjectConfigured(env) ==> r == Reject
    ensures r.Accept? ==> (r.mode == MergeRequest <==> Present(env.mrIid))
    ensures ProjectConfigured(env) && Present(env.mrIid) ==>
              (r == Accept(MergeRequest) <==> Present(env.baseSha))
    ensures ProjectConfigured(env) && !Present(env.mrIid) ==>
              (r == Accept(Push) <==> Present(env.commitBranch))
  {
    if !ProjectConfigured(env) then Reject
    else
      var isMergeRequest := Present(env.mrIid);
      if !isMergeRequest then
        if !Present(env.commitBranch) then Reject else Accept(Push)
      else
        if !Present(env.baseSha) then Reject else Accept(MergeRequest)
  }
}
