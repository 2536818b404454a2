/**
 * The second set of template filters, landoui/filters.py. Its reviewer
 * selection is the same comprehension as in landoui/template_helpers.py;
 * its badge mappings differ for the "submitted" status.
 */
module Filters {
  import opened Text
  import TemplateHelpers

  type LandingStatus = TemplateHelpers.LandingStatus

  const Negative := "u-revision-badge--negative"
  const Neutral := "u-revision-badge--neutral"
  const Positive := "u-revision-badge--positive"

  /** `tostatusbadgeclass`: landed is positive, submitted neutral, everything else negative. */
  function BadgeClass(landing: LandingStatus): (c: string)
    ensures c == Positive <==> landing.status == "landed"
    ensures c == Neutral <==> landing.status == "submitted"
    ensures c == Negative <==> landing.status != "landed" && landing.status != "submitted"
  {
    var mapping := map["aborted" := Negative, "submitted" := Neutral, "landed" := Positive, "failed" := Negative];
    if landing.status in mapping then mapping[landing.status] else Negative
  }

  /** `tostatusbadgename`: fixed names for the four known statuses, any other status capitalised. */
  function BadgeName(landing: LandingStatus): (n: string)
    ensures landing.status == "aborted" ==> n == "Aborted"
    ensures landing.status == "submitted" ==> n == "Landing In Progress"
    ensures landing.status == "landed" ==> n == "Successfully Landed"
    ensures landing.status == "failed" ==> n == "Failed to Land"
    ensures landing.status !in TemplateHelpers.KnownStatuses ==> n == Capitalize(landing.status)
  {
    var mapping := map["aborted" := "Aborted", "submitted" := "Landing In Progress",
                       "landed" := "Successfully Landed", "failed" := "Failed to Land"];
    if landing.status in mapping then mapping[landing.status] else Capitalize(landing.status)
  }

  /** The two filter sets agree on every status except "submitted". */
  lemma VariantsDifferOnlyOnSubmitted(landing: LandingStatus)
    ensures BadgeClass(landing) == TemplateHelpers.BadgeClass(landing) <==> landing.status != "submitted"
    ensures BadgeName(landing) == TemplateHelpers.BadgeName(landing) <==> landing.status != "submitted"
  {
  }
}
