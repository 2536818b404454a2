/**
 * The template helpers of landoui/template_helpers.py that decide what a
 * revision page shows about reviewers and landing attempts.
 */
module TemplateHelpers {
  import opened Wrappers
  import opened Text

  /** A reviewer entry of a revision, reduced to what the filter reads. */
  datatype Reviewer = Reviewer(phid: string, status: string)

  /** A landing attempt (transplant), reduced to its status and its `updated_at` timestamp text. */
  datatype LandingStatus = LandingStatus(status: string, updatedAt: string)

  /** `select_reviewers(reviewers, *args)`: the reviewers whose status is one of `statuses`, in order. */
  function SelectReviewers(reviewers: seq<Reviewer>, statuses: seq<string>): (r: seq<Reviewer>)
    ensures forall x :: x in r <==> x in reviewers && x.status in statuses
    ensures |r| <= |reviewers|
  {
    if reviewers == [] then []
    else (if reviewers[0].status in statuses then [reviewers[0]] else []) + SelectReviewers(reviewers[1..], statuses)
  }

  /** Selection keeps relative order: selecting from a concatenation concatenates the selections. */
  lemma {:induction false} SelectConcat(a: seq<Reviewer>, b: seq<Reviewer>, statuses: seq<string>)
    ensures SelectReviewers(a + b, statuses) == SelectReviewers(a, statuses) + SelectReviewers(b, statuses)
  {
    if a == [] {
      assert a + b == b;
    } else {
      assert (a + b)[1..] == a[1..] + b;
      SelectConcat(a[1..], b, statuses);
    }
  }

  /** Selecting again with the same statuses changes nothing. */
  lemma {:induction false} SelectIdempotent(reviewers: seq<Reviewer>, statuses: seq<string>)
    ensures SelectReviewers(SelectReviewers(reviewers, statuses), statuses) == SelectReviewers(reviewers, statuses)
  {
    if reviewers != [] {
      var head := if reviewers[0].status in statuses then [reviewers[0]] else [];
      var tail := SelectReviewers(reviewers[1..], statuses);
      SelectConcat(head, tail, statuses);
      SelectIdempotent(reviewers[1..], statuses);
      assert SelectReviewers(head, statuses) == head;
    }
  }

  const Negative := "u-revision-badge--negative"
  const Warning := "u-revision-badge--warning"
  const Positive := "u-revision-badge--positive"

  /** `tostatusbadgeclass`: landed is positive, submitted a warning, everything else negative. */
  function BadgeClass(landing: LandingStatus): (c: string)
    ensures c == Positive <==> landing.status == "landed"
    ensures c == Warning <==> landing.status == "submitted"
    ensures c == Negative <==> landing.status != "landed" && landing.status != "submitted"
  {
    var mapping := map["aborted" := Negative, "submitted" := Warning, "landed" := Positive, "failed" := Negative];
    if landing.status in mapping then mapping[landing.status] else Negative
  }

  const KnownStatuses: set<string> := {"aborted", "submitted", "landed", "failed"}

  /** `tostatusbadgename`: fixed names for the four known statuses, any other status capitalised. */
  function BadgeName(landing: LandingStatus): (n: string)
    ensures landing.status == "aborted" ==> n == "Aborted"
    ensures landing.status == "submitted" ==> n == "Landing Queued"
    ensures landing.status == "landed" ==> n == "Successfully Landed"
    ensures landing.status == "failed" ==> n == "Failed to Land"
    ensures landing.status !in KnownStatuses ==> n == Capitalize(landing.status)
  {
    var mapping := map["aborted" := "Aborted", "submitted" := "Landing Queued",
                       "landed" := "Successfully Landed", "failed" := "Failed to Land"];
    if landing.status in mapping then mapping[landing.status] else Capitalize(landing.status)
  }

  /**
   * Entry `i` is what a stable sort by `updated_at`, newest first, puts at
   * the front: no entry is newer, and every earlier entry is strictly older.
   */
  predicate IsLatest(s: seq<LandingStatus>, i: int) {
    && 0 <= i < |s|
    && (forall j :: 0 <= j < |s| ==> LexLe(s[j].updatedAt, s[i].updatedAt))
    && (forall j :: 0 <= j < i ==> !LexLe(s[i].updatedAt, s[j].updatedAt))
  }

  /** The position of the newest entry, the earliest one among equals. */
  function LatestIndex(s: seq<LandingStatus>): (i: nat)
    requires |s| > 0
    ensures IsLatest(s, i)
  {
    if |s| == 1 then
      LexTotal(s[0].updatedAt, s[0].updatedAt);
      0
    else
      var n := |s| - 1;
      var b := LatestIndex(s[..n]);
      assert IsLatest(s[..n], b);
      LexTotal(s[n].updatedAt, s[b].updatedAt);
      if LexLe(s[n].updatedAt, s[b].updatedAt) then
        assert forall j :: 0 <= j < n ==> s[..n][j] == s[j];
        b
      else
        NewerLast(s, b);
        n
  }

  lemma NewerLast(s: seq<LandingStatus>, b: nat)
    requires |s| > 1 && IsLatest(s[..|s| - 1], b)
    requires !LexLe(s[|s| - 1].updatedAt, s[b].updatedAt)
    ensures IsLatest(s, |s| - 1)
  {
    var n := |s| - 1;
    LexTotal(s[n].updatedAt, s[b].updatedAt);
    forall j | 0 <= j < n
      ensures LexLe(s[j].updatedAt, s[n].updatedAt) && !LexLe(s[n].updatedAt, s[j].updatedAt)
    {
      assert s[..n][j] == s[j];
      LexTransitive(s[j].updatedAt, s[b].updatedAt, s[n].updatedAt);
      if LexLe(s[n].updatedAt, s[j].updatedAt) {
        LexTransitive(s[n].updatedAt, s[j].updatedAt, s[b].updatedAt);
      }
    }
    LexTotal(s[n].updatedAt, s[n].updatedAt);
  }

  /** Only one entry can be the one a stable newest-first sort puts first. */
  lemma LatestUnique(s: seq<LandingStatus>, i: int, k: int)
    requires IsLatest(s, i) && IsLatest(s, k)
    ensures i == k
  {
    assert LexLe(s[k].updatedAt, s[i].updatedAt) && LexLe(s[i].updatedAt, s[k].updatedAt);
  }

  /**
   * `latest_status`: `None` for a missing or empty list, otherwise the
   * status of the newest entry, the earliest one when several tie.
   */
  function LatestStatus(statuses: Option<seq<LandingStatus>>): (r: Option<string>)
    ensures r.None? <==> statuses.None? || statuses.value == []
    ensures r.Some? ==> exists i :: IsLatest(statuses.value, i) && r.value == statuses.value[i].status
  {
    if statuses.None? || statuses.value == [] then None
    else Some(statuses.value[LatestIndex(statuses.value)].status)
  }
}
