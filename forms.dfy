/**
 * The validation rules of landoui/forms.py: the checks `JSONDecodable` and
 * `LandingPath` apply to an already decoded field, the choices of the tree
 * status forms, and the two close-tree rules of the tree status update form.
 */
module Forms {
  import opened Wrappers
  import opened Text
  import opened Json
  import Stacks

  /** A validator's outcome: it returns, raises `ValidationError(message)`, or lets another exception escape. */
  datatype Verdict = Accepted | Rejected(message: string) | Raised(error: PyError)

  const DefaultMessage := "Field must be JSON decodable"

  /** The message `TransplantRequestForm` gives its landing path validator. */
  const LandingPathMessage := "Landing path must be a JSON array of path objects"

  /** `message or "Field must be JSON decodable"`: a missing or empty message falls back to the default. */
  function ValidatorMessage(message: Option<string>): (m: string)
    ensures message.None? || message == Some("") ==> m == DefaultMessage
    ensures message.Some? && message.value != "" ==> m == message.value
    ensures m != ""
  {
    if message.Some? && message.value != "" then message.value else DefaultMessage
  }

  /**
   * `JSONDecodable.__call__` once `json.loads` has run: `decoded` is `None`
   * when the field was not JSON; `requireList` is `decode_type=list`.
   */
  function DecodeCheck(decoded: Option<Json>, requireList: bool, message: Option<string>): (r: Result<Json, string>)
    ensures r.Ok? <==> decoded.Some? && (requireList ==> decoded.value.JArray?)
    ensures r.Ok? ==> r.value == decoded.value
    ensures r.Err? ==> r.error == ValidatorMessage(message)
  {
    match decoded
    case None => Err(ValidatorMessage(message))
    case Some(v) =>
      if requireList && !v.JArray? then Err(ValidatorMessage(message)) else Ok(v)
  }

  predicate OccursAt(needle: string, hay: string, a: nat) {
    a + |needle| <= |hay| && hay[a..a + |needle|] == needle
  }

  /** Python's `needle in hay` on two strings. */
  predicate IsSubstring(needle: string, hay: string) {
    exists a: nat :: a <= |hay| && OccursAt(needle, hay, a)
  }

  /**
   * Python's `key in container` for the sized values: a dict's keys, a
   * list's members, a substring of a string. (`LandingPath` only asks it
   * after `len()` has succeeded, so numbers never get here.)
   */
  predicate Contains(container: Json, key: string) {
    match container
    case JObject(fields) => key in fields
    case JArray(items) => JStr(key) in items
    case JStr(s) => IsSubstring(key, s)
    case _ => false
  }

  datatype EntryVerdict = EntryOk | EntryBad | EntryCrash

  /**
   * The test `LandingPath` applies to one entry, in Python's evaluation
   * order. `len()` of a number, boolean or `None`, and `i["revision_id"]`
   * on a list, raise `TypeError`.
   */
  function CheckEntry(i: Json): EntryVerdict {
    match Len(i)
    case None => EntryCrash
    case Some(n) =>
      if n != 2 || !Contains(i, "revision_id") then EntryBad
      else if !i.JObject? then EntryCrash
      else if !i.fields["revision_id"].JStr? then EntryBad
      else if !Contains(i, "diff_id") then EntryBad
      else if !IsInt(i.fields["diff_id"]) then EntryBad
      else EntryOk
  }

  /** The first entry that fails decides; the loop raises on it. */
  function CheckEntries(items: seq<Json>): EntryVerdict {
    if |items| == 0 then EntryOk
    else match CheckEntry(items[0])
      case EntryOk => CheckEntries(items[1..])
      case v => v
  }

  /** A path object: exactly the keys `revision_id`, holding a string, and `diff_id`, holding an integer. */
  predicate IsPathObject(j: Json) {
    && j.JObject?
    && j.fields.Keys == {"revision_id", "diff_id"}
    && j.fields["revision_id"].JStr?
    && IsInt(j.fields["diff_id"])
  }

  /** The entries on which Python raises instead of rejecting. */
  predicate Crashes(j: Json) {
    Len(j).None? || (j.JArray? && |j.items| == 2 && JStr("revision_id") in j.items)
  }

  /** What `LandingPath` accepts: a non-empty JSON array of path objects. */
  predicate IsLandingPath(decoded: Option<Json>) {
    && decoded.Some?
    && decoded.value.JArray?
    && |decoded.value.items| >= 1
    && forall k :: 0 <= k < |decoded.value.items| ==> IsPathObject(decoded.value.items[k])
  }

  /** An entry passes the length-and-membership test exactly when it is a path object. */
  lemma CheckEntryMeaning(i: Json)
    ensures CheckEntry(i) == EntryOk <==> IsPathObject(i)
    ensures CheckEntry(i) == EntryCrash <==> Crashes(i)
  {
    var pair: set<string> := {"revision_id", "diff_id"};
    assert |pair| == 2;
    if IsPathObject(i) {
      assert |i.fields.Keys| == 2;
    }
    if CheckEntry(i) == EntryOk {
      var keys := i.fields.Keys;
      assert pair <= keys && |keys| == 2;
      assert keys == pair + (keys - pair);
      assert |keys - pair| == 0;
    }
    if i.JStr? && |i.s| == 2 {
      assert !IsSubstring("revision_id", i.s);
    }
  }

  /** The loop over the entries: all pass, or the first failing one decides between rejecting and raising. */
  lemma {:induction false} CheckEntriesMeaning(items: seq<Json>)
    ensures CheckEntries(items) == EntryOk <==> forall k :: 0 <= k < |items| ==> IsPathObject(items[k])
    ensures CheckEntries(items) == EntryCrash <==>
      exists k :: 0 <= k < |items| && Crashes(items[k]) && forall j :: 0 <= j < k ==> IsPathObject(items[j])
  {
    if |items| > 0 {
      CheckEntryMeaning(items[0]);
      CheckEntriesMeaning(items[1..]);
      if CheckEntry(items[0]) == EntryOk {
        if CheckEntries(items) == EntryCrash {
          var k :| 0 <= k < |items[1..]| && Crashes(items[1..][k]) && forall j :: 0 <= j < k ==> IsPathObject(items[1..][j]);
          assert Crashes(items[k + 1]) && forall j :: 0 <= j < k + 1 ==> IsPathObject(items[j]);
        } else {
          forall k | 0 <= k < |items| && Crashes(items[k])
            ensures exists j :: 0 <= j < k && !IsPathObject(items[j])
          {
            assert k > 0;
            assert !forall j :: 0 <= j < k - 1 ==> IsPathObject(items[1..][j]);
          }
        }
        if forall k :: 0 <= k < |items[1..]| ==> IsPathObject(items[1..][k]) {
          assert forall k :: 0 <= k < |items| ==> IsPathObject(items[k]) by {
            forall k | 0 <= k < |items| ensures IsPathObject(items[k]) {
              if k > 0 { assert items[k] == items[1..][k - 1]; }
            }
          }
        }
      } else {
        assert !IsPathObject(items[0]);
      }
    }
  }

  /**
   * `LandingPath.__call__` after decoding: anything but a non-empty list of
   * path objects is rejected with the validator's message, except the
   * entries on which Python itself raises `TypeError`.
   */
  function LandingPathCheck(decoded: Option<Json>, message: Option<string>): (v: Verdict)
    ensures v.Accepted? <==> IsLandingPath(decoded)
    ensures v.Rejected? ==> v.message == ValidatorMessage(message)
    ensures v.Raised? <==>
      && decoded.Some? && decoded.value.JArray?
      && exists k :: 0 <= k < |decoded.value.items| && Crashes(decoded.value.items[k])
                     && forall j :: 0 <= j < k ==> IsPathObject(decoded.value.items[j])
    ensures v.Raised? ==> v.error == TypeError
    ensures decoded.Some? && !decoded.value.JArray? ==> v == Rejected(ValidatorMessage(message))
    ensures decoded == Some(JArray([])) ==> v == Rejected(ValidatorMessage(message))
  {
    match DecodeCheck(decoded, true, message)
    case Err(m) => Rejected(m)
    case Ok(list) =>
      CheckEntriesMeaning(list.items);
      if |list.items| < 1 then Rejected(ValidatorMessage(message))
      else match CheckEntries(list.items)
        case EntryOk => Accepted
        case EntryBad => Rejected(ValidatorMessage(message))
        case EntryCrash => Raised(TypeError)
  }

  /** The landing path field of `TransplantRequestForm`, with its own message. */
  function TransplantLandingPath(decoded: Option<Json>): (v: Verdict)
    ensures v.Accepted? <==> IsLandingPath(decoded)
    ensures v.Rejected? ==> v.message == "Landing path must be a JSON array of path objects"
  {
    LandingPathCheck(decoded, Some(LandingPathMessage))
  }

  /** The statuses a tree can have. */
  datatype Status = Open | Closed | ApprovalRequired
  {
    function Value(): string {
      match this
      case Open => "Open"
      case Closed => "Closed"
      case ApprovalRequired => "Approval required"
    }
  }

  const AllStatuses: seq<Status> := [Open, Closed, ApprovalRequired]

  /** `Status.to_choices()`: (lower-cased value, value) in declaration order. */
  function StatusChoices(): (r: seq<(string, string)>)
    ensures r == [("open", "Open"), ("closed", "Closed"), ("approval required", "Approval required")]
  {
    assert Lower("Open") == "open";
    assert Lower("Closed") == "closed";
    assert Lower("Approval required") == "approval required";
    seq(|AllStatuses|, i requires 0 <= i < |AllStatuses| => (Lower(AllStatuses[i].Value()), AllStatuses[i].Value()))
  }

  /** The allowed reasons for closing a tree. */
  datatype ReasonCategory =
    | NoCategory | JobBacklog | CheckinCompileFailure | CheckinTestFailure | PlannedClosure
    | Merges | WaitingForCoverage | InfrastructureRelated | Other
  {
    function Value(): string {
      match this
      case NoCategory => "No Category"
      case JobBacklog => "Job Backlog"
      case CheckinCompileFailure => "Check-in compilation failure"
      case CheckinTestFailure => "Check-in test failure"
      case PlannedClosure => "Planned closure"
      case Merges => "Merges"
      case WaitingForCoverage => "Waiting for coverage"
      case InfrastructureRelated => "Infrastructure related"
      case Other => "Other"
    }
  }

  const AllCategories: seq<ReasonCategory> :=
    [NoCategory, JobBacklog, CheckinCompileFailure, CheckinTestFailure, PlannedClosure,
     Merges, WaitingForCoverage, InfrastructureRelated, Other]

  const CategoryValues: set<string> :=
    {"No Category", "Job Backlog", "Check-in compilation failure", "Check-in test failure",
     "Planned closure", "Merges", "Waiting for coverage", "Infrastructure related", "Other"}

  /** `ReasonCategory(value)`: the member with that value, or `None` for the `ValueError`. */
  function CategoryOf(value: string): (r: Option<ReasonCategory>)
    ensures r.Some? ==> r.value.Value() == value
    ensures r.None? <==> value !in CategoryValues
  {
    if value == "No Category" then Some(NoCategory)
    else if value == "Job Backlog" then Some(JobBacklog)
    else if value == "Check-in compilation failure" then Some(CheckinCompileFailure)
    else if value == "Check-in test failure" then Some(CheckinTestFailure)
    else if value == "Planned closure" then Some(PlannedClosure)
    else if value == "Merges" then Some(Merges)
    else if value == "Waiting for coverage" then Some(WaitingForCoverage)
    else if value == "Infrastructure related" then Some(InfrastructureRelated)
    else if value == "Other" then Some(Other)
    else None
  }

  /** `AllCategories` lists every member, and `CategoryValues` holds exactly their values. */
  lemma AllCategoriesListed()
    ensures forall c: ReasonCategory :: c in AllCategories && c.Value() in CategoryValues
    ensures forall v :: v in CategoryValues ==> exists i :: 0 <= i < |AllCategories| && AllCategories[i].Value() == v
  {
    forall c: ReasonCategory
      ensures c in AllCategories && c.Value() in CategoryValues
    {
      match c
      case NoCategory => assert AllCategories[0] == c;
      case JobBacklog => assert AllCategories[1] == c;
      case CheckinCompileFailure => assert AllCategories[2] == c;
      case CheckinTestFailure => assert AllCategories[3] == c;
      case PlannedClosure => assert AllCategories[4] == c;
      case Merges => assert AllCategories[5] == c;
      case WaitingForCoverage => assert AllCategories[6] == c;
      case InfrastructureRelated => assert AllCategories[7] == c;
      case Other => assert AllCategories[8] == c;
    }
    forall v | v in CategoryValues
      ensures exists i :: 0 <= i < |AllCategories| && AllCategories[i].Value() == v
    {
      if v == "No Category" { assert AllCategories[0].Value() == v; }
      else if v == "Job Backlog" { assert AllCategories[1].Value() == v; }
      else if v == "Check-in compilation failure" { assert AllCategories[2].Value() == v; }
      else if v == "Check-in test failure" { assert AllCategories[3].Value() == v; }
      else if v == "Planned closure" { assert AllCategories[4].Value() == v; }
      else if v == "Merges" { assert AllCategories[5].Value() == v; }
      else if v == "Waiting for coverage" { assert AllCategories[6].Value() == v; }
      else if v == "Infrastructure related" { assert AllCategories[7].Value() == v; }
      else { assert AllCategories[8].Value() == v; }
    }
  }

  /** Looking a member up by its own value finds that member: the values are distinct. */
  lemma CategoryRoundTrip(c: ReasonCategory)
    ensures CategoryOf(c.Value()) == Some(c)
  {
    match c
    case NoCategory =>
    case JobBacklog =>
    case CheckinCompileFailure =>
    case CheckinTestFailure =>
    case PlannedClosure =>
    case Merges =>
    case WaitingForCoverage =>
    case InfrastructureRelated =>
    case Other =>
  }

  /** `ReasonCategory.is_valid_reason_category`. */
  function IsValidReasonCategory(value: string): (b: bool)
    ensures b <==> value in CategoryValues
  {
    CategoryOf(value).Some?
  }

  /** `ReasonCategory.to_choices()`: (value, value) in declaration order. */
  function ReasonChoices(): (r: seq<(string, string)>)
    ensures r == [("No Category", "No Category"), ("Job Backlog", "Job Backlog"),
                  ("Check-in compilation failure", "Check-in compilation failure"),
                  ("Check-in test failure", "Check-in test failure"),
                  ("Planned closure", "Planned closure"), ("Merges", "Merges"),
                  ("Waiting for coverage", "Waiting for coverage"),
                  ("Infrastructure related", "Infrastructure related"), ("Other", "Other")]
  {
    seq(|AllCategories|, i requires 0 <= i < |AllCategories| => (AllCategories[i].Value(), AllCategories[i].Value()))
  }

  /** The choices offered are exactly the valid categories. */
  lemma ReasonChoicesAreValid(v: string)
    ensures IsValidReasonCategory(v) <==> exists i :: 0 <= i < |ReasonChoices()| && ReasonChoices()[i].0 == v
  {
    var r := ReasonChoices();
    assert forall i :: 0 <= i < |r| ==> r[i].0 == AllCategories[i].Value();
    AllCategoriesListed();
  }

  const ReasonRequired := "Reason description is required to close trees."
  const CategoryRequired := "Reason category is required to close trees."

  /** WTForms field data: `None` and `""` are both falsy. */
  predicate Empty(data: Option<string>) {
    data.None? || data.value == ""
  }

  /** `validate_reason`: closing a tree needs a reason. */
  function ValidateReason(status: Option<string>, reason: Option<string>): (v: Verdict)
    ensures v.Rejected? <==> status == Some("closed") && Empty(reason)
    ensures v.Rejected? ==> v.message == ReasonRequired
    ensures !v.Raised?
  {
    if status == Some("closed") && Empty(reason) then Rejected(ReasonRequired) else Accepted
  }

  /**
   * `validate_reason_category`: closing a tree needs a real category. The
   * lookup `ReasonCategory(field.data)` runs before the status test, so an
   * unknown non-empty category raises `ValueError` whatever the status.
   */
  function ValidateReasonCategory(status: Option<string>, category: Option<string>): (v: Verdict)
    ensures v.Raised? <==> !Empty(category) && !IsValidReasonCategory(category.value)
    ensures v.Raised? ==> v.error == ValueError
    ensures v.Rejected? <==> status == Some("closed") && (Empty(category) || category == Some("No Category"))
    ensures v.Rejected? ==> v.message == CategoryRequired
  {
    var categoryIsEmpty :=
      if Empty(category) then Some(true)
      else match CategoryOf(category.value)
        case None => None
        case Some(c) => Some(c == NoCategory);
    match categoryIsEmpty
    case None => Raised(ValueError)
    case Some(e) => if status == Some("closed") && e then Rejected(CategoryRequired) else Accepted
  }

  /** The status value the two close-tree rules test for is the choice `Status.to_choices()` offers for `Closed`. */
  lemma ClosedChoice()
    ensures StatusChoices()[1] == ("closed", Closed.Value())
  {
  }
}
