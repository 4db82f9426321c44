/** The per-issue reconciliation: every issue of the batch is discovered; in merge-request
    mode with a diff map, an issue inside the diff either updates the first note of the first
    discussion whose first note already carries the issue's marker, or opens a new discussion. */
module Reconcile {
  import opened Wrappers
  import opened Text

  /** A changed line range of one file. */
  datatype LineRange = LineRange(first: int, last: int)

  /** File path to the line ranges the merge request changes. */
  type DiffMap = map<string, seq<LineRange>>

  /** A finding of the scanner: its identifier, its file and its start line. */
  datatype Issue = Issue(uuid: string, filepath: string, line: int)

  datatype Note = Note(id: int, body: string)

  /** A discussion thread as fetched; its notes may be missing altogether. */
  datatype Discussion = Discussion(id: string, notes: Option<seq<Note>>)

  /** A call to the hosting service that the run issues. */
  datatype Action =
    | UpdateNote(discussionId: string, noteId: int, body: string)
    | CreateDiscussion(line: int, filepath: string, body: string, baseSha: string)

  /** What became of one issue once discovered: nothing more (not in merge-request mode
      or no diff map), skipped as outside the diff, one action, or an error caught for it. */
  datatype Outcome = Inactive | Skipped | Acted(action: Action) | Failed

  /** The library helpers whose code is not part of this model: the in-diff test,
      the marker embedded in comments and the comment formatter. Each is taken to be
      total: none of them throws. */
  datatype Collaborators = Collaborators(
    inDiff: (Issue, DiffMap) -> bool,
    marker: Issue -> string,
    format: Issue -> string)

  /** What the loop reads besides the issues; fetched once before it. */
  datatype Context = Context(
    mergeRequest: bool,
    diffMap: Option<DiffMap>,
    discussions: Option<seq<Discussion>>,
    baseSha: Option<string>)

  /** Commenting is attempted only in merge-request mode with a diff map. */
  predicate Active(ctx: Context)
  {
    ctx.mergeRequest && ctx.diffMap.Some?
  }

  /** The fetched discussions; a missing list is scanned like an empty one. */
  function Threads(ctx: Context): seq<Discussion>
  {
    if ctx.discussions.Some? then ctx.discussions.value else []
  }

  /** The base SHA handed to a new discussion, or "" when unset or empty. */
  function ShaOrEmpty(sha: Option<string>): string
  {
    if sha.Some? then sha.value else ""
  }

  // ----- The discussion scan -----

  /** The first note of `d` carries the marker `m`. */
  predicate Matches(d: Discussion, m: string)
  {
    d.notes.Some? && d.notes.value != [] && Contains(d.notes.value[0].body, m)
  }

  /** `d` has a notes list with no first note: reading its first body throws. */
  predicate EmptyNotes(d: Discussion)
  {
    d.notes == Some([])
  }

  /** The scan looks at `d` and moves on. */
  predicate PassesOver(d: Discussion, m: string)
  {
    !Matches(d, m) && !EmptyNotes(d)
  }

  predicate PassesBefore(ds: seq<Discussion>, m: string, k: int)
  {
    forall j :: 0 <= j < k && j < |ds| ==> PassesOver(ds[j], m)
  }

  /** `ds[k]` is the first discussion whose first note carries `m`, and no earlier one throws. */
  predicate MatchesFirstAt(ds: seq<Discussion>, m: string, k: int)
  {
    0 <= k < |ds| && PassesBefore(ds, m, k) && Matches(ds[k], m)
  }

  /** The scan throws at `ds[k]`. */
  predicate ThrowsFirstAt(ds: seq<Discussion>, m: string, k: int)
  {
    0 <= k < |ds| && PassesBefore(ds, m, k) && EmptyNotes(ds[k])
  }

  datatype Lookup = Found(discussionId: string, noteId: int) | NotFound | Throws

  /** The scan of the discussions in order for the marker. */
  function FindExisting(m: string, ds: seq<Discussion>): Lookup
    decreases |ds|
  {
    if ds == [] then NotFound
    else if EmptyNotes(ds[0]) then Throws
    else if Matches(ds[0], m) then Found(ds[0].id, ds[0].notes.value[0].id)
    else FindExisting(m, ds[1..])
  }

  lemma PassesBeforeShift(ds: seq<Discussion>, m: string, k: int)
    requires ds != [] && 0 < k
    ensures PassesBefore(ds, m, k) <==> PassesOver(ds[0], m) && PassesBefore(ds[1..], m, k - 1)
  {
  }

  /** The scan finds the first matching discussion, finds nothing exactly when every
      discussion is passed over, and throws exactly when it reaches an empty notes list
      before any match. */
  lemma {:induction false} FindExistingSpec(m: string, ds: seq<Discussion>)
    ensures FindExisting(m, ds).Found? <==> exists k :: MatchesFirstAt(ds, m, k)
    ensures forall k :: MatchesFirstAt(ds, m, k) ==>
              FindExisting(m, ds) == Found(ds[k].id, ds[k].notes.value[0].id)
    ensures FindExisting(m, ds) == NotFound <==> forall k :: 0 <= k < |ds| ==> PassesOver(ds[k], m)
    ensures FindExisting(m, ds) == Throws <==> exists k :: ThrowsFirstAt(ds, m, k)
    decreases |ds|
  {
    if ds == [] {
      return;
    }
    if EmptyNotes(ds[0]) {
      assert ThrowsFirstAt(ds, m, 0);
      assert forall k :: MatchesFirstAt(ds, m, k) ==> k == 0;
      return;
    }
    if Matches(ds[0], m) {
      assert MatchesFirstAt(ds, m, 0);
      assert forall k :: MatchesFirstAt(ds, m, k) ==> k == 0;
      assert forall k :: ThrowsFirstAt(ds, m, k) ==> k == 0;
      return;
    }
    var rest := ds[1..];
    FindExistingSpec(m, rest);
    assert !MatchesFirstAt(ds, m, 0) && !ThrowsFirstAt(ds, m, 0);
    forall k | 0 < k < |ds| ensures MatchesFirstAt(ds, m, k) <==> MatchesFirstAt(rest, m, k - 1)
    {
      PassesBeforeShift(ds, m, k);
      assert ds[k] == rest[k - 1];
    }
    forall k | 0 < k < |ds| ensures ThrowsFirstAt(ds, m, k) <==> ThrowsFirstAt(rest, m, k - 1)
    {
      PassesBeforeShift(ds, m, k);
      assert ds[k] == rest[k - 1];
    }
    if exists k :: MatchesFirstAt(rest, m, k) {
      var k :| MatchesFirstAt(rest, m, k);
      assert MatchesFirstAt(ds, m, k + 1);
    }
    if exists k :: ThrowsFirstAt(rest, m, k) {
      var k :| ThrowsFirstAt(rest, m, k);
      assert ThrowsFirstAt(ds, m, k + 1);
    }
    if forall k :: 0 <= k < |rest| ==> PassesOver(rest[k], m) {
      forall k | 0 <= k < |ds| ensures PassesOver(ds[k], m) {
        if k > 0 { assert ds[k] == rest[k - 1]; }
      }
    }
    if forall k :: 0 <= k < |ds| ==> PassesOver(ds[k], m) {
      forall k | 0 <= k < |rest| ensures PassesOver(rest[k], m) {
        assert rest[k] == ds[k + 1];
      }
    }
  }

  /** A scan that finds nothing finds a discussion inserted anywhere among the others
      whose first note carries the marker: it has passed over every other discussion. */
  lemma {:induction false} FindInserted(m: string, ds: seq<Discussion>, d: Discussion, at: int)
    requires FindExisting(m, ds) == NotFound
    requires Matches(d, m)
    requires 0 <= at <= |ds|
    ensures FindExisting(m, ds[..at] + [d] + ds[at..]) == Found(d.id, d.notes.value[0].id)
    decreases |ds|
  {
    if at > 0 {
      var rest := ds[1..];
      assert (ds[..at] + [d] + ds[at..])[0] == ds[0];
      assert (ds[..at] + [d] + ds[at..])[1..] == rest[..at - 1] + [d] + rest[at - 1..];
      FindInserted(m, rest, d, at - 1);
    } else {
      assert ds[..0] + [d] + ds[0..] == [d] + ds;
    }
  }

  // ----- One issue -----

  /** The handling of one issue, in loop order: the gate, the in-diff test, then
      update of the first matching thread or creation of a new one. */
  function HandleIssue(issue: Issue, ctx: Context, h: Collaborators): (o: Outcome)
    ensures o == Inactive <==> !Active(ctx)
    ensures o == Skipped <==> Active(ctx) && !h.inDiff(issue, ctx.diffMap.value)
    ensures o.Acted? ==> o.action.body == h.format(issue)
  {
    if !(ctx.mergeRequest && ctx.diffMap.Some?) then Inactive
    else if !h.inDiff(issue, ctx.diffMap.value) then Skipped
    else
      var body := h.format(issue);
      match FindExisting(h.marker(issue), Threads(ctx))
      case Found(did, nid) => Acted(UpdateNote(did, nid, body))
      case NotFound => Acted(CreateDiscussion(issue.line, issue.filepath, body, ShaOrEmpty(ctx.baseSha)))
      case Throws => Failed
  }

  /** An issue in the diff whose marker is in the first note of some discussion updates
      exactly that note of the first such discussion, and opens nothing. */
  lemma UpdateTargetsFirstMatch(issue: Issue, ctx: Context, h: Collaborators, k: int)
    requires Active(ctx) && h.inDiff(issue, ctx.diffMap.value)
    requires MatchesFirstAt(Threads(ctx), h.marker(issue), k)
    ensures HandleIssue(issue, ctx, h)
            == Acted(UpdateNote(Threads(ctx)[k].id, Threads(ctx)[k].notes.value[0].id, h.format(issue)))
  {
    FindExistingSpec(h.marker(issue), Threads(ctx));
  }

  /** An update is issued only for an issue in the diff with a first matching discussion. */
  lemma UpdateOnlyOnMatch(issue: Issue, ctx: Context, h: Collaborators)
    requires HandleIssue(issue, ctx, h).Acted? && HandleIssue(issue, ctx, h).action.UpdateNote?
    ensures Active(ctx) && h.inDiff(issue, ctx.diffMap.value)
    ensures exists k :: MatchesFirstAt(Threads(ctx), h.marker(issue), k)
  {
    FindExistingSpec(h.marker(issue), Threads(ctx));
  }

  /** An issue in the diff opens a discussion at its own line and file, with the
      formatted body and the base SHA (or ""), exactly when the scan passes over every
      discussion; a missing discussion list counts as empty. */
  lemma CreateWhenNoMatch(issue: Issue, ctx: Context, h: Collaborators)
    requires Active(ctx) && h.inDiff(issue, ctx.diffMap.value)
    ensures HandleIssue(issue, ctx, h)
            == Acted(CreateDiscussion(issue.line, issue.filepath, h.format(issue), ShaOrEmpty(ctx.baseSha)))
        <==> forall k :: 0 <= k < |Threads(ctx)| ==> PassesOver(Threads(ctx)[k], h.marker(issue))
  {
    FindExistingSpec(h.marker(issue), Threads(ctx));
  }

  /** A discussion with an empty notes list reached before any match makes the issue fail:
      it gets no action at all. */
  lemma EmptyNotesFailsIssue(issue: Issue, ctx: Context, h: Collaborators)
    requires Active(ctx) && h.inDiff(issue, ctx.diffMap.value)
    ensures HandleIssue(issue, ctx, h) == Failed
        <==> exists k :: ThrowsFirstAt(Threads(ctx), h.marker(issue), k)
  {
    FindExistingSpec(h.marker(issue), Threads(ctx));
  }

  /** Re-running on the same issue after its discussion was created (placed anywhere in
      the snapshot, with the formatted body as first note) updates that discussion instead
      of creating a second one, provided the formatted body embeds the marker. */
  lemma RerunUpdatesCreatedThread(issue: Issue, ctx: Context, h: Collaborators, newId: string, noteId: int, at: int)
    requires HandleIssue(issue, ctx, h).Acted? && HandleIssue(issue, ctx, h).action.CreateDiscussion?
    requires Contains(h.format(issue), h.marker(issue))
    requires 0 <= at <= |Threads(ctx)|
    ensures var created := Discussion(newId, Some([Note(noteId, h.format(issue))]));
            var ds := Threads(ctx);
            HandleIssue(issue, ctx.(discussions := Some(ds[..at] + [created] + ds[at..])), h)
            == Acted(UpdateNote(newId, noteId, h.format(issue)))
  {
    var created := Discussion(newId, Some([Note(noteId, h.format(issue))]));
    FindInserted(h.marker(issue), Threads(ctx), created, at);
  }

  /** An example of the empty-notes case: the second discussion carries the marker, but
      the scan throws at the first one, whose notes list is empty, so no action is issued. */
  lemma EmptyNotesHidesLaterMatch()
    ensures var h := Collaborators((i: Issue, d: DiffMap) => true, (i: Issue) => i.uuid, (i: Issue) => "found " + i.uuid);
            var ctx := Context(true, Some(map[]), Some([Discussion("1", Some([])), Discussion("7", Some([Note(3, "u1")]))]), Some("abc"));
            HandleIssue(Issue("u1", "src/a.ts", 10), ctx, h) == Failed
  {
  }

  /** The snapshot is never re-read within a run: two issues in the diff with the same
      marker both open a discussion when no discussion of the snapshot matches that
      marker and none throws first. */
  lemma SameMarkerBothCreate(a: Issue, b: Issue, ctx: Context, h: Collaborators)
    requires Active(ctx) && h.inDiff(a, ctx.diffMap.value) && h.inDiff(b, ctx.diffMap.value)
    requires h.marker(a) == h.marker(b)
    requires FindExisting(h.marker(a), Threads(ctx)) == NotFound
    ensures HandleIssue(a, ctx, h).Acted? && HandleIssue(a, ctx, h).action.CreateDiscussion?
    ensures HandleIssue(b, ctx, h).Acted? && HandleIssue(b, ctx, h).action.CreateDiscussion?
  {
  }

  // ----- The batch -----

  /** The outcome of every issue of the batch, in batch order. */
  function BatchOutcomes(issues: seq<Issue>, ctx: Context, h: Collaborators): (os: seq<Outcome>)
    ensures |os| == |issues|
    decreases |issues|
  {
    if issues == [] then []
    else BatchOutcomes(issues[..|issues| - 1], ctx, h) + [HandleIssue(issues[|issues| - 1], ctx, h)]
  }

  /** The actions issued for a sequence of outcomes, in order. */
  function ActionsOf(os: seq<Outcome>): (acts: seq<Action>)
    ensures |acts| <= |os|
    decreases |os|
  {
    if os == [] then []
    else
      var last := os[|os| - 1];
      ActionsOf(os[..|os| - 1]) + (if last.Acted? then [last.action] else [])
  }

  /** Each issue's outcome is decided by that issue alone: an error or skip on one issue
      changes nothing for the others. */
  lemma {:induction false} BatchOutcomesAt(issues: seq<Issue>, ctx: Context, h: Collaborators, k: int)
    requires 0 <= k < |issues|
    ensures BatchOutcomes(issues, ctx, h)[k] == HandleIssue(issues[k], ctx, h)
    decreases |issues|
  {
    if k < |issues| - 1 {
      var init := issues[..|issues| - 1];
      BatchOutcomesAt(init, ctx, h, k);
      assert init[k] == issues[k];
    }
  }

  /** Splitting the batch splits the outcomes. */
  lemma {:induction false} BatchOutcomesAppend(a: seq<Issue>, b: seq<Issue>, ctx: Context, h: Collaborators)
    ensures BatchOutcomes(a + b, ctx, h) == BatchOutcomes(a, ctx, h) + BatchOutcomes(b, ctx, h)
    decreases |b|
  {
    if b != [] {
      var b' := b[..|b| - 1];
      assert (a + b)[..|a + b| - 1] == a + b';
      BatchOutcomesAppend(a, b', ctx, h);
    } else {
      assert a + b == a;
    }
  }

  /** Splitting the outcomes splits the action log. */
  lemma {:induction false} ActionsOfAppend(a: seq<Outcome>, b: seq<Outcome>)
    ensures ActionsOf(a + b) == ActionsOf(a) + ActionsOf(b)
    decreases |b|
  {
    if b != [] {
      var b' := b[..|b| - 1];
      assert (a + b)[..|a + b| - 1] == a + b';
      ActionsOfAppend(a, b');
    } else {
      assert a + b == a;
    }
  }

  /** An action is in the log exactly when some outcome issued it. */
  lemma {:induction false} ActionsOfMembers(os: seq<Outcome>, act: Action)
    ensures act in ActionsOf(os) <==> exists k :: 0 <= k < |os| && os[k] == Acted(act)
    decreases |os|
  {
    if os != [] {
      var init := os[..|os| - 1];
      ActionsOfMembers(init, act);
      if exists k :: 0 <= k < |init| && init[k] == Acted(act) {
        var k :| 0 <= k < |init| && init[k] == Acted(act);
        assert os[k] == init[k];
      }
      if exists k :: 0 <= k < |os| && os[k] == Acted(act) {
        var k :| 0 <= k < |os| && os[k] == Acted(act);
        if k < |init| { assert init[k] == os[k]; }
      }
    }
  }

  /** Outside merge-request mode, or without a diff map, every issue is still visited
      (each gets an outcome) but no action is issued for any. */
  lemma {:induction false} NothingOutsideMergeRequest(issues: seq<Issue>, ctx: Context, h: Collaborators)
    requires !Active(ctx)
    ensures forall k :: 0 <= k < |issues| ==> BatchOutcomes(issues, ctx, h)[k] == Inactive
    ensures ActionsOf(BatchOutcomes(issues, ctx, h)) == []
  {
    var os := BatchOutcomes(issues, ctx, h);
    forall k | 0 <= k < |issues| ensures os[k] == Inactive {
      BatchOutcomesAt(issues, ctx, h, k);
    }
    if ActionsOf(os) != [] {
      ActionsOfMembers(os, ActionsOf(os)[0]);
    }
  }

  // ----- The loop -----

  /** The issue loop: discovers every issue, in order, and issues the actions its
      outcome calls for; an error on one issue is caught and the loop goes on. */
  method ReconcileBatch(issues: seq<Issue>, ctx: Context, h: Collaborators)
    returns (outcomes: seq<Outcome>, log: seq<Action>)
    ensures outcomes == BatchOutcomes(issues, ctx, h)
    ensures log == ActionsOf(outcomes)
  {
    outcomes, log := [], [];
    for i := 0 to |issues|
      invariant outcomes == BatchOutcomes(issues[..i], ctx, h)
      invariant log == ActionsOf(outcomes)
    {
      var issue := issues[i];
      var outcome := Inactive;
      if ctx.mergeRequest && ctx.diffMap.Some? {
        if !h.inDiff(issue, ctx.diffMap.value) {
          outcome := Skipped;
        } else {
          var body := h.format(issue);
          var m := h.marker(issue);
          var updated, thrown := false, false;
          if ctx.discussions.Some? {
            var ds := ctx.discussions.value;
            for j := 0 to |ds|
              invariant !updated && !thrown
              invariant FindExisting(m, ds) == FindExisting(m, ds[j..])
            {
              assert ds[j..][0] == ds[j] && ds[j..][1..] == ds[j + 1..];
              var notes := ds[j].notes;
              if notes.Some? {
                if notes.value == [] {
                  // reading the first note's body throws; the catch swallows it
                  thrown := true;
                  break;
                }
                if Contains(notes.value[0].body, m) {
                  outcome := Acted(UpdateNote(ds[j].id, notes.value[0].id, body));
                  updated := true;
                  break;
                }
              }
            }
          }
          if thrown {
            outcome := Failed;
          } else if !updated {
            outcome := Acted(CreateDiscussion(issue.line, issue.filepath, body, ShaOrEmpty(ctx.baseSha)));
          }
        }
      }
      assert issues[..i + 1][..i] == issues[..i];
      assert (outcomes + [outcome])[..|outcomes|] == outcomes;
      outcomes := outcomes + [outcome];
      if outcome.Acted? {
        log := log + [outcome.action];
      }
    }
    assert issues[..|issues|] == issues;
  }
}
