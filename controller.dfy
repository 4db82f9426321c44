/** One run: validate the environment, then drive the issue loop over the batch. */
module Controller {
  import opened Wrappers
  import opened RunContext
  import opened Reconcile

  /** What the issue loop sees: discussions and diff map are fetched only in
      merge-request mode; otherwise both stay unset. */
  function ContextOf(env: Env, fetchedDiscussions: Option<seq<Discussion>>, fetchedDiffMap: Option<DiffMap>): Context
  {
    var isMergeRequest := Present(env.mrIid);
    Context(isMergeRequest,
            if isMergeRequest then fetchedDiffMap else None,
            if isMergeRequest then fetchedDiscussions else None,
            env.baseSha)
  }

  /** The run: `main` returns 1, with no issue processed, when validation fails; otherwise
      every issue of the batch is processed against the fetched snapshot, and it returns 0 whatever
      became of the individual issues. The remote fetches' results are parameters. */
  method Run(env: Env, issues: seq<Issue>, fetchedDiscussions: Option<seq<Discussion>>,
             fetchedDiffMap: Option<DiffMap>, h: Collaborators)
    returns (code: int, outcomes: seq<Outcome>, log: seq<Action>)
    ensures code == 0 || code == 1
    ensures code == 1 <==> Validate(env) == Reject
    ensures code == 1 ==> outcomes == [] && log == []
    ensures code == 0 ==> outcomes == BatchOutcomes(issues, ContextOf(env, fetchedDiscussions, fetchedDiffMap), h)
    ensures code == 0 ==> log == ActionsOf(outcomes)
  {
    if Validate(env) == Reject {
      return 1, [], [];
    }
    var isMergeRequest := Present(env.mrIid);
    var diffMap: Option<DiffMap> := None;
    var discussions: Option<seq<Discussion>> := None;
    if isMergeRequest {
      discussions := fetchedDiscussions;
      diffMap := fetchedDiffMap;
    }
    outcomes, log := ReconcileBatch(issues, Context(isMergeRequest, diffMap, discussions, env.baseSha), h);
    return 0, outcomes, log;
  }

  /** A push run discovers every issue and issues no action for any. */
  lemma {:induction false} PushRunIsDiscoveryOnly(env: Env, issues: seq<Issue>, fetchedDiscussions: Option<seq<Discussion>>,
                                                  fetchedDiffMap: Option<DiffMap>, h: Collaborators)
    requires Validate(env) == Accept(Push)
    ensures var os := BatchOutcomes(issues, ContextOf(env, fetchedDiscussions, fetchedDiffMap), h);
            (forall k :: 0 <= k < |os| ==> os[k] == Inactive) && ActionsOf(os) == []
  {
    NothingOutsideMergeRequest(issues, ContextOf(env, fetchedDiscussions, fetchedDiffMap), h);
  }

  /** In a merge-request run every new discussion carries the base SHA from the
      environment, which validation has required to be non-empty. */
  lemma {:induction false} MergeRequestCreatesCarryBaseSha(env: Env, issues: seq<Issue>, fetchedDiscussions: Option<seq<Discussion>>,
                                                           fetchedDiffMap: Option<DiffMap>, h: Collaborators, act: Action)
    requires Validate(env) == Accept(MergeRequest)
    requires act in ActionsOf(BatchOutcomes(issues, ContextOf(env, fetchedDiscussions, fetchedDiffMap), h))
    requires act.CreateDiscussion?
    ensures act.baseSha == env.baseSha.value && act.baseSha != ""
  {
    var ctx := ContextOf(env, fetchedDiscussions, fetchedDiffMap);
    var os := BatchOutcomes(issues, ctx, h);
    ActionsOfMembers(os, act);
    var k :| 0 <= k < |os| && os[k] == Acted(act);
    BatchOutcomesAt(issues, ctx, h, k);
  }

  /** Every action of a run answers one issue of the batch that lies in the diff. */
  lemma {:induction false} ActionsAnswerInDiffIssues(env: Env, issues: seq<Issue>, fetchedDiscussions: Option<seq<Discussion>>,
                                                     fetchedDiffMap: Option<DiffMap>, h: Collaborators, act: Action)
    requires act in ActionsOf(BatchOutcomes(issues, ContextOf(env, fetchedDiscussions, fetchedDiffMap), h))
    ensures Present(env.mrIid) && fetchedDiffMap.Some?
    ensures exists k :: 0 <= k < |issues| && h.inDiff(issues[k], fetchedDiffMap.value)
                        && act.body == h.format(issues[k])
  {
    var ctx := ContextOf(env, fetchedDiscussions, fetchedDiffMap);
    var os := BatchOutcomes(issues, ctx, h);
    ActionsOfMembers(os, act);
    var k :| 0 <= k < |os| && os[k] == Acted(act);
    BatchOutcomesAt(issues, ctx, h, k);
  }
}
