# lando-ui, modelled in Dafny

lando-ui is the web front end of Lando, Mozilla's service that lands
Phabricator revisions into the Firefox repositories and manages tree
closures (Tree Status). This project models the logic behind that front
end that does not depend on Flask, and proves properties of it:

- **Stack sorting** (`landoui/stacks.py`; modules `Stacks` and
  `StackFixtures`). This covers the adjacency index `graph`, and the
  topological sort `sort_stack_topological`. When the sort breaks a tie
  it takes the ready revision with the smallest key, and it raises
  `ValueError` on a cycle.
- **Stack drawing** (`landoui/stacks.py`; modules `StackDrawing` and
  `StackDrawingProps`). `draw_stack_graph` lays out the sorted stack in
  columns, giving each row `pos`, `above`, `below` and `other`. Its mutable
  state (`next_node`, the `drawing` namespace and the closure
  `empty_column_or_new`) is a class.
- **The revision page** (`landoui/revisions.py`; module `Revisions`).
  This covers the indexes of revisions and repositories, the landable
  series of the requested revision, the landing path written into the
  form and the target repository. It also covers the sort key taken from
  the revision's monogram, and the rows of the drawn stack paired for
  display.
- **Form validation** (`landoui/forms.py`; module `Forms`). This covers
  the JSON landing-path validator, the `Status` and `ReasonCategory`
  enumerations with their choice lists, and the two Tree Status field
  validators.
- **Tree Status** (`landoui/treestatus.py`; module `TreeStatus`). This
  covers the JSON body of a change update, the request each button of the
  recent-changes form sends, and the category a log entry's form starts
  on.
- **The Lando API client** (`landoui/landoapi.py`; module `LandoApi`).
  This covers the stored base URL, the request headers, and
  `LandoAPIError` with `raise_if_error`.
- **Template filters** (`landoui/template_helpers.py` and
  `landoui/filters.py`; modules `TemplateHelpers` and `Filters`). These
  are the reviewer selection, the landing-status badge class and name,
  and the latest landing status.

Shared pieces:

- `Wrappers` has `Option`, `Result` and the Python exceptions that can
  escape.
- `Json` has decoded JSON values with Python's truthiness and `len`.
- `Text` has decimal rendering and `int()` parsing, ASCII case mapping,
  and the lexicographic order of strings.

Python exceptions that the source does not catch are modelled as an error
outcome (`Err(KeyError)`, `Raised(TypeError)`, …) rather than excluded by a
precondition.

The stack code works on any node type with a key into the integers. The
order in which Python happens to iterate a set of children is an explicit
parameter, `visit`. `Enumerates` requires it to list each child exactly
once.

The tests and the code disagree in one place. The update-body test at
`tests/test_treestatus.py:70-73` expects the category `"backlog"` to
produce tags. The enumeration has no such value: its member is
`"Job Backlog"`. The model follows the code, and `TreeStatus.TagsExamples`
records that `"backlog"` gives no tags.

## Model

| member | source | states |
|---|---|---|
| Stacks.BuildGraph | landoui/stacks.py:12-32 | The result has one entry per node, isolated nodes included. Each entry's children and parents are exactly the ends of the edges at that node. |
| Stacks.IndexAddEdge | landoui/stacks.py:28-30 | Recording one edge at its parent (as a child) and at its child (as a parent) keeps the index exact for the edges seen so far. |
| Stacks.SortStackTopological | landoui/stacks.py:35-77 | Fails exactly when the edges contain a cycle. Otherwise it returns every node once. Each node was ready (all its parents already emitted) and had the smallest key among the ready nodes when it was emitted. |
| Stacks.UnlinkChildren | landoui/stacks.py:68-72 | Removing the emitted node from each child's parents adds to `sources` exactly the children whose parents are now all emitted. |
| Stacks.InitialState | landoui/stacks.py:58-61 | The initial sources are the nodes without parents, so the loop invariant holds before the first emission. |
| Stacks.EmitStep | landoui/stacks.py:63-72 | Emitting a minimum-key ready node keeps the order a greedy prefix. The ready set changes by losing that node and gaining only some of its children. |
| Stacks.MinExists | landoui/stacks.py:64 | A non-empty set of sources has a member of least key, so `min` is defined. |
| Stacks.SortFinished | landoui/stacks.py:74-77 | When no source is left, an empty graph means the order is a greedy topological order of an acyclic stack. A non-empty graph means the stack has a cycle. |
| Stacks.StuckSetHasCycle | landoui/stacks.py:74-75 | Nodes left over, each with a parent among them, imply a cycle. |
| Stacks.WalkFindsCycle | landoui/stacks.py:74-75 | Following parents inside a stuck set yields a cycle of edges. |
| Stacks.TopologicalIsAcyclic | landoui/stacks.py:55-56 | A stack that has a topological order has no cycle, so `ValueError` is raised only for real cycles. |
| Stacks.GreedyIsTopological | landoui/stacks.py:52-53 | A greedy order is a topological order. |
| Stacks.TopologicalRespectsEdges | landoui/stacks.py:52-53 | In a topological order the parent of every edge comes before its child. |
| Stacks.GreedyOrderUnique | landoui/stacks.py:45-50 | With an injective key, two greedy orders of the same stack are equal, so the tie-break determines the result. |
| StackFixtures.SortSingleNode | tests/test_stacks.py:13-16 | A one-node stack sorts to that node. |
| StackFixtures.SortCycle | tests/test_stacks.py:36-46 | The test's stack with the cycle 1, 2, 3 fails with the cycle error. |
| StackFixtures.FanInGreedy | landoui/stacks.py:63-72 | For every `n`, the order `1, …, n, 0` of a fan-in where node 0 is the child of each of `1..n` is the greedy topological order: each parent is ready in turn and is the smallest ready node, and node 0 becomes ready only after all of them. |
| StackFixtures.SortFanIn | tests/test_stacks.py:28-33 | The favours-minimum test: the sort of the fan-in over `0..9` is exactly `[1, …, 9, 0]`. |
| StackFixtures.ChainGreedy | landoui/stacks.py:63-72 | For every `n`, the chain `0, 1, …, n - 1`, where each revision is stacked on the previous one, is the greedy topological order of that stack. |
| StackFixtures.SortLinear | tests/test_stacks.py:19-25 | The linear test: the sort of a chain of ten revisions is exactly `[0, …, 9]`. |
| StackFixtures.ComplexGreedyAt | landoui/stacks.py:63-72 | At each step of the complex test's stack, the expected revision is ready and has the smallest number among the ready ones. |
| StackFixtures.ComplexGreedy | landoui/stacks.py:63-72 | `[0, 1, 3, 2, 4, 5, 6, 7, 9, 8]` is a permutation of the complex test's revisions and is its greedy topological order. |
| StackFixtures.SortComplex | tests/test_stacks.py:49-78 | The complex test: the sort is exactly `[0, 1, 3, 2, 4, 5, 6, 7, 9, 8]`. |
| StackDrawing.IndexOf | landoui/stacks.py:122 | `list.index`: the first position holding the value. |
| StackDrawing.Ascending | landoui/stacks.py:161-163 | `sorted` of a column set holds exactly the set's columns below the bound. |
| StackDrawing.AscendingSorted | landoui/stacks.py:161-163 | Those columns are strictly ascending. |
| StackDrawing.FreeColumn | landoui/stacks.py:109-116 | Returns the first free column. Only when there is none does it append one, and it changes nothing else. |
| StackDrawing.Place | landoui/stacks.py:121-124 | The node's column is one reserved for it, or a free one. The lanes grow by at most one free column. |
| StackDrawing.Release | landoui/stacks.py:127-135 | Frees exactly the columns reserved for the node. |
| StackDrawing.MinIndex | landoui/stacks.py:145-147 | The smallest position in `order` of any child, so `order[m]` is the child drawn first. |
| StackDrawing.RowOf | landoui/stacks.py:157-165 | The row drawn for a node is labelled with that node. |
| StackDrawing.RowAt | landoui/stacks.py:119-165 | The k-th pass draws the row of `order[k]`. |
| StackDrawing.RowsUpTo | landoui/stacks.py:119-165 | The first k passes give k rows, one per node, in order. |
| StackDrawing.Draw | landoui/stacks.py:80-104 | The drawing of an order has one row per node, in the same order. |
| StackDrawing.EnumeratesVisits | landoui/stacks.py:105 | When `visit` lists each node's children, every node of a permutation of the stack has its children listed, and they are in the order. |
| StackDrawing.DrawnNext | landoui/stacks.py:119-165 | One pass of the loop advances the lanes and rows from those after i nodes to those after i + 1. |
| StackDrawing.DrawnAll | landoui/stacks.py:167 | After the last pass, the width and rows are those of `Draw`. |
| StackDrawing.HasChildrenTest | landoui/stacks.py:142 | `g[node].children` is non-empty exactly when the node's visit list is. |
| StackDrawing.StackDrawing.constructor | landoui/stacks.py:106-107 | Starts with no columns and no rows. |
| StackDrawing.StackDrawing.EmptyColumnOrNew | landoui/stacks.py:109-116 | The lanes and the returned column are those of `FreeColumn`. The rows are unchanged. |
| StackDrawing.StackDrawing.ReleaseNode | landoui/stacks.py:127-135 | The lanes become `Release` of the old lanes. `below` is the ascending list of the columns that were reserved for the node. |
| StackDrawing.StackDrawing.ReserveChildren | landoui/stacks.py:151-155 | The lanes and `above` are those of `Reserve`: each child but the closest gets a free or new column. |
| StackDrawing.StackDrawing.DrawRow | landoui/stacks.py:119-165 | One loop pass: the lanes become `NextLanes` and the rows gain exactly `RowOf`. |
| StackDrawing.DrawStackGraph | landoui/stacks.py:80-167 | The width and rows returned equal `Draw(order, visit)`. |
| StackDrawingProps.ReserveFacts | landoui/stacks.py:151-155 | The columns handed out were free or are new. Each holds a distinct child other than the closest, every such child gets one, and other columns are untouched. |
| StackDrawingProps.ConnectFacts | landoui/stacks.py:141-155 | A leaf gets no columns. Otherwise the node's own column leads to the child earliest in `order`, every child gets exactly one column, and no column is shared. |
| StackDrawingProps.StepColumns | landoui/stacks.py:126-138 | `below` holds exactly the columns reserved for the node. `other` holds exactly those reserved for other nodes. |
| StackDrawingProps.StepPlacement | landoui/stacks.py:121-124 | `pos` is the first column reserved for the node. Failing that, it is the first free column or a new one, and then `below` is empty. |
| StackDrawingProps.PlaceKeeps | landoui/stacks.py:121-124 | Placement keeps every existing lane. |
| StackDrawingProps.StepBounds | landoui/stacks.py:121-165 | Every column a row names lies within the lanes after it, and the lanes never shrink. |
| StackDrawingProps.StepLanes | landoui/stacks.py:127-155 | The next lanes: `pos` leads to the closest child, and every child has one column. A column that is not used keeps its reservation, or is freed if it was the node's. |
| StackDrawingProps.StepAbove | landoui/stacks.py:141-155 | `above` is exactly the set of columns connecting to children. A leaf's `above` is empty. |
| StackDrawingProps.RowsUpToAt | landoui/stacks.py:157-165 | Appending later rows never changes an earlier one. |
| StackDrawingProps.LanesGrow | landoui/stacks.py:109-116 | The number of columns never decreases. |
| StackDrawingProps.DrawBounds | landoui/stacks.py:92-103 | Every `pos`, `above`, `below` and `other` column is below the returned width. |
| StackDrawingProps.RowsSorted | landoui/stacks.py:161-163 | `above`, `below` and `other` are strictly ascending in every row. |
| StackDrawingProps.SortedOrderVisit | landoui/stacks.py:90 | A topological order lists every child after its parent. |
| StackDrawingProps.ReservationsAhead | landoui/stacks.py:148-154 | Columns are only ever reserved for nodes still to be drawn. |
| StackDrawingProps.DrawnNodeFreed | landoui/stacks.py:127-135 | Once drawn, a node never has a column reserved again. |
| StackDrawingProps.StepReserves | landoui/stacks.py:148-155 | A row keeps every other node's reservations and adds exactly the node's children. |
| StackDrawingProps.ReservedIffParentDrawn | landoui/stacks.py:127-155 | Before row k, a pending node has a column reserved exactly when a parent of it is among the first k nodes. |
| StackDrawingProps.BelowIffParent | landoui/stacks.py:126-135 | A row's `below` is non-empty exactly when the node has a parent drawn above it. |
| Revisions.IndexBy | landoui/revisions.py:103-105 | The dict has a key exactly for each key some item is filed under. |
| Revisions.IndexByLast | landoui/revisions.py:104-105 | Each key holds the last item filed under it: later records overwrite earlier ones. |
| Revisions.TargetPhid | landoui/revisions.py:106-107 | `None` exactly when no record carries the monogram. Otherwise the phid of the last record that does. |
| Revisions.IndexRevisions | landoui/revisions.py:102-107 | The loop's dict is `IndexBy` of the records by phid, and `revision` is `TargetPhid` of the monogram `D<id>`. |
| Revisions.IndexRepositories | landoui/revisions.py:110-112 | The loop's dict is `IndexBy` of the repositories by phid. |
| Revisions.Landable | landoui/revisions.py:131-134 | A phid is landable exactly when some landable path contains it. |
| Revisions.PrefixThrough | landoui/revisions.py:137 | The result is a prefix of the path. It ends with the revision, which does not occur earlier in it, so it runs up to and including the first occurrence. |
| Revisions.SeriesOf | landoui/revisions.py:130-139 | `None` exactly when the revision is unknown or on no path. Otherwise a non-empty series ending with the revision. |
| Revisions.SeriesFromLastPath | landoui/revisions.py:132-139 | The series comes from the last path that contains the revision. |
| Revisions.UniquePrefixSeries | landoui/revisions.py:121-126 | When all paths through the revision agree up to it, as the comment expects, any of them gives the page's series. |
| Revisions.SelectSeries | landoui/revisions.py:130-139 | The nested loop computes `SeriesOf` and `Landable`. |
| Revisions.LandingPathOf | landoui/revisions.py:144-149 | One entry per phid of the series, in order, with its revision id and diff id. `KeyError` exactly when a phid has no revision. |
| Revisions.LandingPathValidates | landoui/revisions.py:144-150 | The landing path the page writes passes the form's own landing-path validator (`landoui/forms.py:53-71`). |
| Revisions.Reverse | landoui/revisions.py:160 | `reversed`: same length, positions mirrored. |
| Revisions.PrepareLanding | landoui/revisions.py:141-161 | Without a user or a series, the series is shown as selected and there is no landing. Otherwise the series is shown reversed, the revision first. The landing path is `LandingPathOf`, and the target repository is the revision's, or `None`. `KeyError` exactly when a phid of the series is unknown. |
| Revisions.SelectedLanding | landoui/revisions.py:130-161 | For the page's series, a landing is offered exactly to a logged-in user. It starts with the requested revision and validates. Otherwise the series still ends with the revision. |
| Revisions.SortKey | landoui/revisions.py:166 | An id of at most one character has no key (`int('')` raises). |
| Revisions.MonogramKey | landoui/revisions.py:166 | The key of `D<n>` is n. |
| Revisions.StackOrder | landoui/revisions.py:163-167 | `KeyError` exactly when an edge names an unknown phid. Otherwise `ValueError` exactly on a cycle or on an id without a number. Any result is the greedy topological order by revision number. |
| Revisions.OrderDeterministic | landoui/revisions.py:165-167 | With distinct monograms the page's order is unique. |
| Revisions.DrawnRowsPaired | landoui/revisions.py:192 | `zip(reversed(order), reversed(rows))` has one pair per node, top of the stack first. Each pair's node is its row's node. |
| Revisions.LayoutStack | landoui/revisions.py:163-168 | Fails exactly as `StackOrder` does: `KeyError` when an edge names an unknown revision, `ValueError` otherwise (a cycle or an id without a number). Otherwise the order, width and paired rows are those of `Draw` on the sorted order. |
| Revisions.RevisionPage | landoui/revisions.py:100-192 | The whole page: a landing failure surfaces first. Otherwise the page fails exactly as the sort does, with `KeyError` for an edge to an unknown revision and `ValueError` otherwise, and its parts are the revision, `Landable`, `PrepareLanding` of `SeriesOf`, and the drawn stack. |
| Forms.ValidatorMessage | landoui/forms.py:39 | A missing or empty message becomes "Field must be JSON decodable". The message is never empty. |
| Forms.DecodeCheck | landoui/forms.py:41-50 | Accepts exactly decodable data of the required type, returns it unchanged, and otherwise rejects with the validator's message. |
| Forms.CheckEntryMeaning | landoui/forms.py:63-71 | An entry passes exactly when it is a dict with just the keys `revision_id` (a string) and `diff_id` (an int or bool). It raises `TypeError` exactly when `len` fails or it is a two-element list containing `"revision_id"`. |
| Forms.CheckEntriesMeaning | landoui/forms.py:63-71 | All entries pass exactly when all are path objects. The loop raises exactly when an entry raises and every entry before it passed. |
| Forms.LandingPathCheck | landoui/forms.py:53-71 | Accepts exactly a non-empty list of path objects. Non-lists, the empty list and bad entries are rejected with the validator's message. A `TypeError` escapes exactly when the first bad entry is one that raises. |
| Forms.TransplantLandingPath | landoui/forms.py:74-80 | The transplant form's validator accepts exactly landing paths, and its rejection message is the form's. |
| Forms.StatusChoices | landoui/forms.py:134-144 | The choices are the lower-cased values paired with the values, in declaration order. |
| Forms.ClosedChoice | landoui/forms.py:234 | The form value `"closed"` is the choice of `Status.CLOSED`. |
| Forms.CategoryOf | landoui/forms.py:147-158 | Looking up a value gives the member with that value. It gives `None` (the `ValueError`) exactly for strings that are not a category value. |
| Forms.AllCategoriesListed | landoui/forms.py:150-158 | The declaration-order list holds every member, and the value set holds exactly their values. |
| Forms.CategoryRoundTrip | landoui/forms.py:150-158 | Looking up a member's own value gives that member back, so the values are distinct. |
| Forms.IsValidReasonCategory | landoui/forms.py:165-176 | True exactly for the nine category values. |
| Forms.ReasonChoices | landoui/forms.py:160-163 | The nine (value, value) pairs in declaration order. |
| Forms.ReasonChoicesAreValid | landoui/forms.py:160-176 | A value is valid exactly when it is offered as a choice. |
| Forms.ValidateReason | landoui/forms.py:230-235 | Rejects, with the required-reason message, exactly a closing with a missing or empty reason. It never raises. |
| Forms.ValidateReasonCategory | landoui/forms.py:237-244 | Raises `ValueError` exactly for a non-empty invalid category, whatever the status. Rejects, with the required-category message, exactly a closing with no category or "No Category". |
| TreeStatus.BuildUpdateJsonBody | landoui/treestatus.py:284-295 | `reason` is always present and holds the given reason or null. `tags` is present exactly for a non-empty valid category, and then holds just that category. |
| TreeStatus.TagsExamples | tests/test_treestatus.py:53-73 | No tags for a missing, empty, unknown or `"backlog"` category; tags for `"Job Backlog"`. |
| TreeStatus.UpdateChange | landoui/treestatus.py:299-346 | Restore sends DELETE with revert 1, and discard sends DELETE with revert 0; restore takes precedence. Update sends PATCH with `BuildUpdateJsonBody`: the reason, and `tags` holding exactly the reason category when one is given. Every request goes to `treestatus/stack/<id>` with its flash message. No button pressed means the invalid-submit flash and no request. |
| TreeStatus.LogCategory | landoui/treestatus.py:264-266 | The first tag, or "No Category" when there are none. |
| TreeStatus.LoggedCategory | landoui/treestatus.py:264-295 | A log carrying an update body's tags shows the chosen category, or "No Category". Either way it is a valid choice. |
| LandoApi.NewApi | landoui/landoapi.py:28-39 | An empty URL raises `IndexError` (`url[-1]`). Otherwise the URL is stored with "/" appended in both branches, and the tokens are stored as given. |
| LandoApi.StoredUrlSlash | landoui/landoapi.py:36 | The stored URL ends with "/". A URL that already ends with "/" is stored ending in "//". |
| LandoApi.RequestHeaders | landoui/landoapi.py:71-83 | `AssertionError` exactly when auth0 is required without a token. Content-Type is JSON, Authorization is `Bearer <token>` when required, and the API key is sent when the Phabricator token is non-empty. Caller headers override all of these. |
| LandoApi.NewLandoApiError | landoui/landoapi.py:161-184 | Keeps the status code and the body. The RFC 7807 fields come from a dict body (null when missing) and are all null otherwise. The message is the detail if it is truthy, else "". |
| LandoApi.RaiseIfError | landoui/landoapi.py:186-191 | No error exactly below status 400; otherwise the error built from the status and body. |
| LandoApi.ErrorWithDetails | tests/test_landoapi.py:65-85 | The test's 404 body yields its detail, title, type, status code and body, and no instance. |
| LandoApi.ErrorWithListBody | landoui/landoapi.py:174-182 | A non-dict body gives an error whose fields are all null and whose message is "". |
| TemplateHelpers.SelectReviewers | landoui/template_helpers.py:16-18 | Keeps exactly the reviewers whose status is among those given, in order. |
| TemplateHelpers.SelectConcat | landoui/template_helpers.py:16-18 | Selection distributes over concatenation, so it keeps order. |
| TemplateHelpers.SelectIdempotent | landoui/template_helpers.py:16-18 | Selecting twice is selecting once. |
| TemplateHelpers.BadgeClass | landoui/template_helpers.py:21-29 | Positive exactly for `landed`, warning exactly for `submitted`, negative for everything else. |
| TemplateHelpers.BadgeName | landoui/template_helpers.py:32-40 | The four fixed names for the known statuses, and the capitalized status otherwise. |
| TemplateHelpers.LatestIndex | landoui/template_helpers.py:48-49 | The first entry with the greatest `updated_at`, which is what a stable reverse sort puts first. |
| TemplateHelpers.NewerLast | landoui/template_helpers.py:48 | An entry strictly newer than all before it is the latest. |
| TemplateHelpers.LatestUnique | landoui/template_helpers.py:48-49 | The latest entry is unique. |
| TemplateHelpers.LatestStatus | landoui/template_helpers.py:43-49 | `None` exactly for no statuses. Otherwise the status of the latest entry. |
| Filters.BadgeClass | landoui/filters.py:14-22 | Positive exactly for `landed`, neutral exactly for `submitted`, negative otherwise. |
| Filters.BadgeName | landoui/filters.py:25-33 | As in the template helpers, except that `submitted` is "Landing In Progress". |
| Filters.VariantsDifferOnlyOnSubmitted | landoui/filters.py:14-33 | The two filter sets agree on every status except `submitted`. |
| Text.DecimalString | landoui/revisions.py:106 | `str` of a natural number: non-empty digits without a leading zero. |
| Text.DigitsOfDecimal | landoui/revisions.py:106 | The digits read back as the number. |
| Text.ParseInt | landoui/revisions.py:166 | `int()` of a string succeeds exactly on non-empty digits, or on a `+` or `-` followed by non-empty digits; otherwise it is the `ValueError` (e.g. `"D"`, `"x1"`, `"-"`). The value is that of the digits, negated after a `-`. |
| Text.ParseDecimal | landoui/revisions.py:166 | `int(str(n)) == n`. |
| Text.DecimalInjective | landoui/revisions.py:106 | Distinct numbers have distinct monograms. |
| Text.Lower | landoui/forms.py:144 | `str.lower` per character. |
| Text.Capitalize | landoui/template_helpers.py:40 | `str.capitalize`: first character upper-cased, the rest lower-cased. |
| Text.CapitalizeIdempotent | landoui/template_helpers.py:40 | Capitalizing twice is capitalizing once. |
| Text.LexTotal | landoui/template_helpers.py:48 | Any two strings are comparable, so the sort key is total. |
| Text.LexTransitive | landoui/template_helpers.py:48 | String order is transitive. |
| Text.LexAntisymmetric | landoui/template_helpers.py:48 | Strings each at most the other are equal. |
| Json.Len | landoui/forms.py:60 | `len` is defined exactly for strings, lists and dicts. |

## Left out

- HTTP, Flask, sessions, templates, flashing, redirects and logging are
  left out. A page or handler is modelled from the data it receives to the
  data it renders or sends.
- The API calls are left out: fetching the stack, the transplant list,
  the dry run and the request itself. Their responses are parameters. The
  dry run's confirmation token and the security-approval workflow
  (`landoui/revisions.py:152-183`) depend only on those responses and on
  the app config, so they are not part of this model.
- `json.loads` and `json.dumps` are left out. The validators receive the
  decoded value (`None` for undecodable text), and the page's landing path
  is related to the validator through `EncodePath`.
- WTForms' own `InputRequired` and field coercion are left out; only the
  project's validators are modelled.
- The revision page's error handling for a missing stack (404) and the
  other Tree Status handlers (they only forward API responses) are left
  out.
- Stacks.BuildGraph: requires every edge to join two nodes of the stack.
  The `KeyError` that Python raises otherwise is modelled one level up, in
  `Revisions.StackOrder`.
- Stacks.SortStackTopological: `min` over a set breaks ties between equal
  keys by iteration order. The model allows any minimum;
  `Stacks.GreedyOrderUnique` shows that the choice does not matter for an
  injective key, such as revision numbers.
- Stacks.SortStackTopological: the sort key is a function from nodes to
  integers. Python's default identity key over arbitrary comparable nodes
  (strings in the tests) is not modelled; for a finite node set this loses
  nothing, since the nodes can be ranked into the integers in their own
  order.
- StackDrawing.DrawStackGraph: the order Python iterates a set of
  children is the `visit` parameter, and the contract holds for every
  such order.
- The golden drawing of `tests/test_stacks.py:81-163` (width 3 and its ten
  rows) is not checked. Evaluating `Draw` on it lane by lane exceeds the
  verifier's resource limit once the steps are chained. Every golden sort
  fixture is proved in `StackFixtures`. For the drawing, only its general
  shape is proved, by `StackDrawingProps.RowsSorted`, `DrawBounds` and
  `BelowIffParent`, which do not fix a particular width or row.
- Text.ParseInt: accepts an optional sign followed by ASCII digits. The
  surrounding whitespace, underscores and non-ASCII digits that Python's
  `int()` also accepts are not modelled.
- Text.Lower and Text.Capitalize: ASCII case mapping only; Unicode case
  rules are not modelled.
- Revisions.StackOrder: every `ValueError` is merged into one outcome, so
  the message that tells a cycle from an unparsable id is not modelled.
- Revisions.RevisionPage: the stack's edges are given as pairs. An edge
  with fewer than two elements, which would raise `IndexError`, is not
  modelled.
- A revision record is reduced to the fields the page reads: phid, id,
  diff id and repository phid. Reviewers and landing statuses are reduced
  the same way.
- `select_reviewers` in `landoui/filters.py:9-11` is the same code as in
  `landoui/template_helpers.py:16-18`. Both are modelled by
  `TemplateHelpers.SelectReviewers`.
- TemplateHelpers.LatestStatus: `sorted(..., reverse=True)` is modelled
  by its first element only; the rest of the sorted list is never read.
- `LandoAPI`'s HTTP session, response decoding and the communication
  exception are left out.
