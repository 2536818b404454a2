/**
 * The data logic of the revision page in landoui/revisions.py: indexing the
 * stack response, choosing the landable series for the requested revision,
 * the landing path offered for it, and the sorted and drawn stack the page
 * shows, bottom row first.
 */
module Revisions {
  import opened Wrappers
  import opened Text
  import opened Json
  import opened Stacks
  import opened StackDrawing
  import Forms

  /** A revision of the stack response, reduced to the fields the page reads. */
  datatype RevisionRecord = RevisionRecord(phid: string, id: string, diffId: int, repoPhid: string)

  /** A repository of the stack response. */
  datatype Repository = Repository(phid: string, shortName: string)

  /** `'D{}'.format(revision_id)`. */
  function Monogram(revisionId: nat): string {
    "D" + DecimalString(revisionId)
  }

  function RevisionPhid(r: RevisionRecord): string {
    r.phid
  }

  function RepositoryPhid(r: Repository): string {
    r.phid
  }

  /** A dict filled by `d[key(x)] = x` for each `x` of `items` in turn. */
  function IndexBy<T>(items: seq<T>, key: T -> string): (m: map<string, T>)
    ensures forall k :: k in m <==> exists i :: 0 <= i < |items| && key(items[i]) == k
  {
    if items == [] then map[]
    else
      var n := |items| - 1;
      var m0 := IndexBy(items[..n], key);
      assert forall i :: 0 <= i < n ==> items[..n][i] == items[i];
      m0[key(items[n]) := items[n]]
  }

  /** `items[i]` is the last item filed under `k`. */
  predicate LastWith<T>(items: seq<T>, key: T -> string, k: string, i: int) {
    0 <= i < |items| && key(items[i]) == k && forall j :: i < j < |items| ==> key(items[j]) != k
  }

  /** Each key holds the last item filed under it: later records overwrite earlier ones. */
  lemma {:induction false} IndexByLast<T>(items: seq<T>, key: T -> string, k: string)
    requires k in IndexBy(items, key)
    ensures exists i :: LastWith(items, key, k, i) && IndexBy(items, key)[k] == items[i]
  {
    var n := |items| - 1;
    if key(items[n]) != k {
      IndexByLast(items[..n], key, k);
      var i :| LastWith(items[..n], key, k, i) && IndexBy(items[..n], key)[k] == items[..n][i];
      assert LastWith(items, key, k, i);
    } else {
      assert LastWith(items, key, k, n);
    }
  }

  /** The phid of the last record whose id is `monogram`, if any. */
  function TargetPhid(records: seq<RevisionRecord>, monogram: string): (r: Option<string>)
    ensures r.None? <==> forall i :: 0 <= i < |records| ==> records[i].id != monogram
    ensures r.Some? ==> exists i :: 0 <= i < |records| && records[i].id == monogram && records[i].phid == r.value
                                    && forall j :: i < j < |records| ==> records[j].id != monogram
  {
    if records == [] then None
    else
      var n := |records| - 1;
      if records[n].id == monogram then Some(records[n].phid)
      else
        var r := TargetPhid(records[..n], monogram);
        assert forall i :: 0 <= i < n ==> records[..n][i] == records[i];
        r
  }

  /**
   * The first loop of the page: every record filed under its phid, and the
   * phid of the requested revision (the last record with its monogram).
   */
  method IndexRevisions(records: seq<RevisionRecord>, revisionId: nat)
    returns (revisions: map<string, RevisionRecord>, revision: Option<string>)
    ensures revisions == IndexBy(records, RevisionPhid)
    ensures revision == TargetPhid(records, Monogram(revisionId))
  {
    revision := None;
    revisions := map[];
    var monogram := Monogram(revisionId);
    for i := 0 to |records|
      invariant revisions == IndexBy(records[..i], RevisionPhid)
      invariant revision == TargetPhid(records[..i], monogram)
    {
      var r := records[i];
      revisions := revisions[r.phid := r];
      if r.id == monogram {
        revision := Some(r.phid);
      }
      assert records[..i + 1][..i] == records[..i];
    }
    assert records[..|records|] == records;
  }

  /** The second loop: every repository filed under its phid. */
  method IndexRepositories(repos: seq<Repository>) returns (repositories: map<string, Repository>)
    ensures repositories == IndexBy(repos, RepositoryPhid)
  {
    repositories := map[];
    for i := 0 to |repos|
      invariant repositories == IndexBy(repos[..i], RepositoryPhid)
    {
      repositories := repositories[repos[i].phid := repos[i]];
      assert repos[..i + 1][..i] == repos[..i];
    }
    assert repos[..|repos|] == repos;
  }

  /** Every phid on any landable path. */
  function Landable(paths: seq<seq<string>>): (l: set<string>)
    ensures forall x :: x in l <==> exists i :: 0 <= i < |paths| && x in paths[i]
  {
    if paths == [] then {}
    else
      var n := |paths| - 1;
      assert forall i :: 0 <= i < n ==> paths[..n][i] == paths[i];
      Landable(paths[..n]) + Elems(paths[n])
  }

  /** `p[:p.index(t) + 1]`: the path up to and including the first occurrence of `t`. */
  function PrefixThrough(p: seq<string>, t: string): (s: seq<string>)
    requires t in p
    ensures |s| <= |p| && s == p[..|s|]
    ensures |s| > 0 && s[|s| - 1] == t && t !in s[..|s| - 1]
  {
    var k := IndexOf(p, t);
    assert p[..k + 1][..k] == p[..k];
    p[..k + 1]
  }

  /**
   * The series the page offers: each path containing the requested revision
   * overwrites it, so the last such path decides. `None` when the revision
   * is unknown or on no path (`p.index` raises `ValueError`, which is
   * swallowed).
   */
  function SeriesOf(paths: seq<seq<string>>, revision: Option<string>): (s: Option<seq<string>>)
    ensures s.None? <==> revision.None? || forall i :: 0 <= i < |paths| ==> revision.value !in paths[i]
    ensures s.Some? ==> |s.value| > 0 && s.value[|s.value| - 1] == revision.value
  {
    if paths == [] then None
    else
      var n := |paths| - 1;
      assert forall i :: 0 <= i < n ==> paths[..n][i] == paths[i];
      if revision.Some? && revision.value in paths[n] then Some(PrefixThrough(paths[n], revision.value))
      else SeriesOf(paths[..n], revision)
  }

  /** `paths[i]` is the last path containing `t`. */
  predicate LastContaining(paths: seq<seq<string>>, t: string, i: int) {
    0 <= i < |paths| && t in paths[i] && forall j :: i < j < |paths| ==> t !in paths[j]
  }

  /** The series is the prefix of the last path that contains the revision. */
  lemma {:induction false} SeriesFromLastPath(paths: seq<seq<string>>, t: string)
    requires SeriesOf(paths, Some(t)).Some?
    ensures exists i :: LastContaining(paths, t, i) && SeriesOf(paths, Some(t)).value == PrefixThrough(paths[i], t)
  {
    var n := |paths| - 1;
    var init := paths[..n];
    if t !in paths[n] {
      assert SeriesOf(paths, Some(t)) == SeriesOf(init, Some(t));
      SeriesFromLastPath(init, t);
      var i :| LastContaining(init, t, i) && SeriesOf(init, Some(t)).value == PrefixThrough(init[i], t);
      assert init[i] == paths[i];
      assert forall j :: i < j < n ==> init[j] == paths[j];
      assert LastContaining(paths, t, i);
    } else {
      assert LastContaining(paths, t, n);
    }
  }

  /**
   * Where every path through the revision agrees on the way up to it, as
   * the page expects of Lando's landable paths, taking the last such path
   * gives the same series as taking the first.
   */
  lemma UniquePrefixSeries(paths: seq<seq<string>>, t: string, i: nat)
    requires i < |paths| && t in paths[i]
    requires forall j :: 0 <= j < |paths| && t in paths[j] ==> PrefixThrough(paths[j], t) == PrefixThrough(paths[i], t)
    ensures SeriesOf(paths, Some(t)) == Some(PrefixThrough(paths[i], t))
  {
    SeriesFromLastPath(paths, t);
  }

  /**
   * The third loop: each landable path adds its phids to `landable` and, if
   * it contains the requested revision, replaces `series`.
   */
  method SelectSeries(paths: seq<seq<string>>, revision: Option<string>)
    returns (series: Option<seq<string>>, landable: set<string>)
    ensures series == SeriesOf(paths, revision)
    ensures landable == Landable(paths)
  {
    series := None;
    landable := {};
    for k := 0 to |paths|
      invariant series == SeriesOf(paths[..k], revision)
      invariant landable == Landable(paths[..k])
    {
      var p := paths[k];
      ghost var before := landable;
      for j := 0 to |p|
        invariant landable == before + Elems(p[..j])
      {
        landable := landable + {p[j]};
        assert p[..j + 1] == p[..j] + [p[j]];
      }
      assert p[..|p|] == p;
      if revision.Some? && revision.value in p {
        series := Some(p[..IndexOf(p, revision.value) + 1]);
      }
      assert paths[..k + 1][..k] == paths[..k];
    }
    assert paths[..|paths|] == paths;
  }

  /** An entry of the landing path. */
  datatype PathEntry = PathEntry(revisionId: string, diffId: int)

  /**
   * The landing path for a series: one entry per phid, in series order.
   * A phid the stack has no revision for raises `KeyError`.
   */
  function LandingPathOf(series: seq<string>, revisions: map<string, RevisionRecord>): (r: Result<seq<PathEntry>, PyError>)
    ensures r.Ok? <==> forall i :: 0 <= i < |series| ==> series[i] in revisions
    ensures r.Err? ==> r.error == KeyError
    ensures r.Ok? ==> |r.value| == |series|
    ensures r.Ok? ==> forall i :: 0 <= i < |series| ==>
      r.value[i] == PathEntry(revisions[series[i]].id, revisions[series[i]].diffId)
  {
    if forall i :: 0 <= i < |series| ==> series[i] in revisions then
      Ok(seq(|series|, i requires 0 <= i < |series| => PathEntry(revisions[series[i]].id, revisions[series[i]].diffId)))
    else Err(KeyError)
  }

  /** The landing path as the form's hidden field carries it, once decoded. */
  function EncodePath(entries: seq<PathEntry>): Json {
    JArray(seq(|entries|, i requires 0 <= i < |entries| =>
      JObject(map["revision_id" := JStr(entries[i].revisionId), "diff_id" := JInt(entries[i].diffId)])))
  }

  /** The landing path the page writes into the form passes the form's own landing path validator. */
  lemma LandingPathValidates(entries: seq<PathEntry>)
    requires entries != []
    ensures Forms.TransplantLandingPath(Some(EncodePath(entries))) == Forms.Accepted
  {
    var items := EncodePath(entries).items;
    forall k | 0 <= k < |items|
      ensures Forms.IsPathObject(items[k])
    {
      var fields := map["revision_id" := JStr(entries[k].revisionId), "diff_id" := JInt(entries[k].diffId)];
      assert items[k] == JObject(fields);
      assert fields.Keys == {"revision_id", "diff_id"};
    }
  }

  /** `list(reversed(s))`. */
  function Reverse<T>(s: seq<T>): (r: seq<T>)
    ensures |r| == |s| && forall i :: 0 <= i < |s| ==> r[i] == s[|s| - 1 - i]
  {
    seq(|s|, i requires 0 <= i < |s| => s[|s| - 1 - i])
  }

  /**
   * What the page shows of the series: the series itself (reversed when a
   * landing is offered), the landing path written into the form, and the
   * repository the series would land in.
   */
  datatype LandingBlock = LandingBlock(series: Option<seq<string>>, landingPath: Option<seq<PathEntry>>,
                                       targetRepo: Option<Repository>)

  /**
   * The landing block of the page. Only a non-empty series shown to a
   * logged in user gets a landing path; the series is then shown reversed,
   * requested revision first, and the target repository is that revision's,
   * if the stack lists it. Otherwise the series is shown as selected.
   */
  function PrepareLanding(series: Option<seq<string>>, authenticated: bool,
                          revisions: map<string, RevisionRecord>, repositories: map<string, Repository>)
    : (r: Result<LandingBlock, PyError>)
    ensures r.Err? <==> authenticated && series.Some? && exists i :: 0 <= i < |series.value| && series.value[i] !in revisions
    ensures r.Err? ==> r.error == KeyError
    ensures r.Ok? && (!authenticated || series.None? || series.value == []) ==> r.value == LandingBlock(series, None, None)
    ensures r.Ok? && authenticated && series.Some? && series.value != [] ==>
      var s, block := series.value, r.value;
      && block.series == Some(Reverse(s))
      && block.series.value[0] == s[|s| - 1]
      && block.landingPath.Some?
      && LandingPathOf(s, revisions) == Ok(block.landingPath.value)
      && block.targetRepo == (var repo := revisions[s[|s| - 1]].repoPhid;
                              if repo in repositories then Some(repositories[repo]) else None)
  {
    if !authenticated || series.None? || series.value == [] then Ok(LandingBlock(series, None, None))
    else
      match LandingPathOf(series.value, revisions)
      case Err(e) => Err(e)
      case Ok(path) =>
        var shown := Reverse(series.value);
        var repo := revisions[shown[0]].repoPhid;
        Ok(LandingBlock(Some(shown), Some(path), if repo in repositories then Some(repositories[repo]) else None))
  }

  /**
   * For the series the page selects, a logged in user is offered a landing
   * that leads with the requested revision and passes the form's validator.
   */
  lemma SelectedLanding(paths: seq<seq<string>>, t: string, authenticated: bool,
                        revisions: map<string, RevisionRecord>, repositories: map<string, Repository>)
    requires SeriesOf(paths, Some(t)).Some?
    requires PrepareLanding(SeriesOf(paths, Some(t)), authenticated, revisions, repositories).Ok?
    ensures var block := PrepareLanding(SeriesOf(paths, Some(t)), authenticated, revisions, repositories).value;
      && (block.landingPath.Some? <==> authenticated)
      && block.series.Some?
      && (authenticated ==> block.series.value[0] == t)
      && (!authenticated ==> block.series.value[|block.series.value| - 1] == t)
      && (block.landingPath.Some? ==>
            Forms.TransplantLandingPath(Some(EncodePath(block.landingPath.value))) == Forms.Accepted)
  {
    var block := PrepareLanding(SeriesOf(paths, Some(t)), authenticated, revisions, repositories).value;
    if block.landingPath.Some? {
      LandingPathValidates(block.landingPath.value);
    }
  }

  /** `int(revisions[x]['id'][1:])`: the number after the leading letter; `None` for the `ValueError`. */
  function SortKey(id: string): (k: Option<int>)
    ensures |id| <= 1 ==> k.None?
  {
    ParseInt(if |id| == 0 then "" else id[1..])
  }

  /** The key of a revision's monogram is its number. */
  lemma MonogramKey(n: nat)
    ensures SortKey(Monogram(n)) == Some(n)
  {
    assert Monogram(n)[1..] == DecimalString(n);
    ParseDecimal(n);
  }

  /** Every revision of the stack has a key; otherwise the sort raises `ValueError`. */
  predicate KeysParse(revisions: map<string, RevisionRecord>) {
    forall p :: p in revisions ==> SortKey(revisions[p].id).Some?
  }

  /** The tie-break key handed to the sort. */
  function RevisionKey(revisions: map<string, RevisionRecord>): string -> int {
    p => if p in revisions && SortKey(revisions[p].id).Some? then SortKey(revisions[p].id).value else 0
  }

  /** `set(Edge(child=e[0], parent=e[1]) for e in stack['edges'])`. */
  function EdgeSet(pairs: seq<(string, string)>): set<Edge<string>> {
    set e | e in pairs :: Edge(e.0, e.1)
  }

  /**
   * The sort the page runs over the stack. An edge naming an unknown phid
   * makes `graph` raise `KeyError`; a cycle raises `ValueError`, and so
   * does a revision id without a number, since every revision is a source
   * at some step of an acyclic sort and `min` computes its key.
   */
  method StackOrder(revisions: map<string, RevisionRecord>, edgePairs: seq<(string, string)>)
    returns (r: Result<seq<string>, PyError>)
    ensures r == Err(KeyError) <==> !EdgesWithin(revisions.Keys, EdgeSet(edgePairs))
    ensures r.Err? ==> r.error == KeyError || r.error == ValueError
    ensures EdgesWithin(revisions.Keys, EdgeSet(edgePairs)) ==>
      (r.Err? <==> HasCycle(EdgeSet(edgePairs)) || !KeysParse(revisions))
    ensures r.Ok? ==> IsGreedyTopological(r.value, revisions.Keys, EdgeSet(edgePairs), RevisionKey(revisions))
  {
    var nodes, edges := revisions.Keys, EdgeSet(edgePairs);
    if !EdgesWithin(nodes, edges) {
      return Err(KeyError);
    }
    var sorted := SortStackTopological(nodes, edges, RevisionKey(revisions));
    if sorted.Err? || !KeysParse(revisions) {
      return Err(ValueError);
    }
    r := Ok(sorted.value);
  }

  /** With distinct revision numbers the keys are distinct, so the page's order is fully determined. */
  lemma OrderDeterministic(revisions: map<string, RevisionRecord>, edges: set<Edge<string>>, o1: seq<string>, o2: seq<string>)
    requires forall p :: p in revisions ==> exists n: nat :: revisions[p].id == Monogram(n)
    requires forall p, q :: p in revisions && q in revisions && p != q ==> revisions[p].id != revisions[q].id
    requires IsGreedyTopological(o1, revisions.Keys, edges, RevisionKey(revisions))
    requires IsGreedyTopological(o2, revisions.Keys, edges, RevisionKey(revisions))
    ensures o1 == o2
  {
    var key := RevisionKey(revisions);
    forall a, b | a in revisions.Keys && b in revisions.Keys && key(a) == key(b)
      ensures a == b
    {
      var m: nat :| revisions[a].id == Monogram(m);
      var n: nat :| revisions[b].id == Monogram(n);
      MonogramKey(m);
      MonogramKey(n);
      assert m == n;
    }
    GreedyOrderUnique(o1, o2, revisions.Keys, edges, key);
  }

  /** `zip(a, b)`: pairs up to the shorter length. */
  function Zip<A, B>(a: seq<A>, b: seq<B>): seq<(A, B)> {
    var n := if |a| <= |b| then |a| else |b|;
    seq(n, i requires 0 <= i < n => (a[i], b[i]))
  }

  /** `list(zip(reversed(order), reversed(drawing_rows)))`: the rows as the page lists them, top of the stack first. */
  function PairRows<N>(order: seq<N>, rows: seq<Row<N>>): seq<(N, Row<N>)> {
    Zip(Reverse(order), Reverse(rows))
  }

  /** Pairing the drawing with its own order lines each node up with its own row. */
  lemma DrawnRowsPaired<N>(order: seq<N>, visit: map<N, seq<N>>)
    requires Visits(order, visit)
    ensures var pairs := PairRows(order, Draw(order, visit).1);
      && |pairs| == |order|
      && forall i :: 0 <= i < |pairs| ==> pairs[i].0 == order[|order| - 1 - i] && pairs[i].1.node == pairs[i].0
  {
  }

  /** The order, width and paired rows of the drawn stack. */
  datatype StackLayout = StackLayout(order: seq<string>, width: nat, rows: seq<(string, Row<string>)>)

  /**
   * The stack part of the page: sort, draw, and pair the rows for display.
   * `visit` is the order Python happens to iterate each child set in.
   */
  method LayoutStack(revisions: map<string, RevisionRecord>, edgePairs: seq<(string, string)>,
                     visit: map<string, seq<string>>)
    returns (r: Result<StackLayout, PyError>)
    requires Enumerates(revisions.Keys, EdgeSet(edgePairs), visit)
    ensures r.Err? <==>
      !EdgesWithin(revisions.Keys, EdgeSet(edgePairs)) || HasCycle(EdgeSet(edgePairs)) || !KeysParse(revisions)
    ensures r.Err? ==> r.error == (if !EdgesWithin(revisions.Keys, EdgeSet(edgePairs)) then KeyError else ValueError)
    ensures r.Ok? ==>
      && IsGreedyTopological(r.value.order, revisions.Keys, EdgeSet(edgePairs), RevisionKey(revisions))
      && Visits(r.value.order, visit)
      && r.value.width == Draw(r.value.order, visit).0
      && r.value.rows == PairRows(r.value.order, Draw(r.value.order, visit).1)
      && |r.value.rows| == |r.value.order|
      && forall i :: 0 <= i < |r.value.rows| ==> r.value.rows[i].1.node == r.value.rows[i].0
  {
    var sorted := StackOrder(revisions, edgePairs);
    if sorted.Err? {
      return Err(sorted.error);
    }
    var order := sorted.value;
    var edges := EdgeSet(edgePairs);
    GreedyIsTopological(order, revisions.Keys, edges, RevisionKey(revisions));
    var width, rows := DrawStackGraph(revisions.Keys, edges, order, visit);
    DrawnRowsPaired(order, visit);
    r := Ok(StackLayout(order, width, PairRows(order, rows)));
  }

  /** The data the revision page renders. */
  datatype Page = Page(revision: Option<string>, landable: set<string>, landing: LandingBlock, layout: StackLayout)

  /**
   * The revision page from the stack response on: index the revisions and
   * repositories, select the series, prepare the landing block, then sort
   * and draw the stack. A failure of the landing block surfaces before any
   * failure of the sort.
   */
  method RevisionPage(records: seq<RevisionRecord>, repos: seq<Repository>, paths: seq<seq<string>>,
                      edgePairs: seq<(string, string)>, revisionId: nat, authenticated: bool,
                      visit: map<string, seq<string>>)
    returns (r: Result<Page, PyError>)
    requires Enumerates(IndexBy(records, RevisionPhid).Keys, EdgeSet(edgePairs), visit)
    ensures var revisions, edges := IndexBy(records, RevisionPhid), EdgeSet(edgePairs);
      var revision := TargetPhid(records, Monogram(revisionId));
      var block := PrepareLanding(SeriesOf(paths, revision), authenticated, revisions, IndexBy(repos, RepositoryPhid));
      && (block.Err? ==> r == Err(block.error))
      && (block.Ok? ==> (r.Err? <==> !EdgesWithin(revisions.Keys, edges) || HasCycle(edges) || !KeysParse(revisions)))
      && (block.Ok? && r.Err? ==> r.error == (if !EdgesWithin(revisions.Keys, edges) then KeyError else ValueError))
      && (r.Ok? ==>
            && r.value.revision == revision
            && r.value.landable == Landable(paths)
            && r.value.landing == block.value
            && IsGreedyTopological(r.value.layout.order, revisions.Keys, edges, RevisionKey(revisions))
            && Visits(r.value.layout.order, visit)
            && r.value.layout.width == Draw(r.value.layout.order, visit).0
            && r.value.layout.rows == PairRows(r.value.layout.order, Draw(r.value.layout.order, visit).1))
  {
    var revisions, revision := IndexRevisions(records, revisionId);
    var repositories := IndexRepositories(repos);
    var series, landable := SelectSeries(paths, revision);
    var block := PrepareLanding(series, authenticated, revisions, repositories);
    if block.Err? {
      return Err(block.error);
    }
    var layout := LayoutStack(revisions, edgePairs, visit);
    if layout.Err? {
      return Err(layout.error);
    }
    r := Ok(Page(revision, landable, block.value, layout.value));
  }
}
