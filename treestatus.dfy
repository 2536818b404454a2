/**
 * The data decisions of landoui/treestatus.py: the JSON body of a status
 * change update, which request a button of the recent-changes form sends,
 * and the category a log entry's form shows.
 */
module TreeStatus {
  import opened Wrappers
  import opened Text
  import opened Json
  import opened Forms

  /**
   * `build_update_json_body`: `reason` is always present, even when `None`;
   * `tags` is present exactly when the category is non-empty and valid, and
   * then holds just that category.
   */
  method BuildUpdateJsonBody(reason: Option<string>, reasonCategory: Option<string>) returns (body: map<string, Json>)
    ensures body.Keys == {"reason"} + (if HasTags(reasonCategory) then {"tags"} else {})
    ensures body["reason"] == OptionalString(reason)
    ensures "tags" in body ==> body["tags"] == JArray([JStr(reasonCategory.value)])
  {
    body := map[];
    body := body["reason" := OptionalString(reason)];
    if reasonCategory.Some? && reasonCategory.value != "" && IsValidReasonCategory(reasonCategory.value) {
      body := body["tags" := JArray([JStr(reasonCategory.value)])];
    }
  }

  /** `reason_category and ReasonCategory.is_valid_reason_category(reason_category)`. */
  predicate HasTags(reasonCategory: Option<string>) {
    !Empty(reasonCategory) && reasonCategory.value in CategoryValues
  }

  /** The request `update_change` sends to Lando for `treestatus/stack/<id>`. */
  datatype ChangeRequest = ChangeRequest(
    httpMethod: string,
    path: string,
    params: map<string, int>,
    json: Option<map<string, Json>>)

  /** A request plus the message flashed after it, or the error flashed when no button was pressed. */
  datatype ChangeAction = Send(request: ChangeRequest, flash: string) | InvalidSubmit(flash: string)

  /**
   * The dispatch of `update_change`: restore, then discard, then update.
   * Restoring and discarding both delete the change, reverting the status
   * only on restore; updating patches it with the update body.
   */
  method UpdateChange(id: nat, restore: bool, update: bool, discard: bool,
                      reason: Option<string>, reasonCategory: Option<string>)
    returns (action: ChangeAction)
    ensures action.InvalidSubmit? <==> !restore && !discard && !update
    ensures action.InvalidSubmit? ==> action.flash == "Invalid submit input on change update form."
    ensures action.Send? ==> action.request.path == "treestatus/stack/" + DecimalString(id)
    ensures action.Send? ==> (action.request.httpMethod == "DELETE" <==> restore || discard)
    ensures action.Send? ==> (action.request.httpMethod == "PATCH" <==> !restore && !discard)
    ensures action.Send? && (restore || discard) ==>
      action.request.params == map["revert" := if restore then 1 else 0] && action.request.json.None?
    ensures action.Send? && !restore && !discard ==>
      && action.request.params == map[]
      && action.request.json.Some?
      && action.request.json.value.Keys == {"reason"} + (if HasTags(reasonCategory) then {"tags"} else {})
      && action.request.json.value["reason"] == OptionalString(reason)
      && ("tags" in action.request.json.value ==>
            action.request.json.value["tags"] == JArray([JStr(reasonCategory.value)]))
    ensures action.Send? ==>
      action.flash == (if restore then "Statuses change restored."
                       else if discard then "Status change discarded."
                       else "Status change updated.")
  {
    var path := "treestatus/stack/" + DecimalString(id);
    if restore {
      action := Send(ChangeRequest("DELETE", path, map["revert" := 1], None), "Statuses change restored.");
    } else if discard {
      action := Send(ChangeRequest("DELETE", path, map["revert" := 0], None), "Status change discarded.");
    } else if update {
      var body := BuildUpdateJsonBody(reason, reasonCategory);
      action := Send(ChangeRequest("PATCH", path, map[], Some(body)), "Status change updated.");
    } else {
      action := InvalidSubmit("Invalid submit input on change update form.");
    }
  }

  /** The category a log entry's update form starts with: its first tag, or "No Category". */
  function LogCategory(tags: seq<string>): (c: string)
    ensures tags != [] ==> c == tags[0]
    ensures tags == [] ==> c == NoCategory.Value()
  {
    if tags != [] then tags[0] else NoCategory.Value()
  }

  /**
   * A log whose tags are those of an update body shows the category the
   * update chose, or "No Category" when the body carried no tags; either
   * way the form starts on one of its own choices.
   */
  lemma LoggedCategory(reasonCategory: Option<string>)
    ensures var tags := if HasTags(reasonCategory) then [reasonCategory.value] else [];
      && LogCategory(tags) == (if HasTags(reasonCategory) then reasonCategory.value else "No Category")
      && IsValidReasonCategory(LogCategory(tags))
  {
    CategoryRoundTrip(NoCategory);
  }

  /**
   * The categories of the update-body tests: none, empty and unknown
   * categories give no tags. `"backlog"` is not a value of the enumeration
   * (its member is `"Job Backlog"`), so it gives no tags either.
   */
  lemma TagsExamples()
    ensures !HasTags(None) && !HasTags(Some("")) && !HasTags(Some("asdf"))
    ensures !HasTags(Some("backlog"))
    ensures HasTags(Some("Job Backlog"))
  {
    assert "backlog" != "Job Backlog";
  }
}
