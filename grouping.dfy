/** Collision grouping: `_filterResult`'s cut of a key-sorted batch into same-key runs,
    `drain`, and the sort `_multiNode` applies to the collision list. */
module Grouping {
  import opened Wrappers
  import opened Nodes
  import opened Keys

  type Group = seq<Node>

  /** `_filterResult`'s filter: the node sits at the scan depth (or the scan depth is the
      iterator's end) and its key lies under the search prefix. */
  predicate Passes(n: Node, i: nat, end: Option<nat>, prefix: string) {
    (|n.path| == i || end == Some(i)) && IsPrefix(n.key, prefix)
  }

  /** The nodes of `s` that pass the filter, in order. */
  function Keep(s: seq<Node>, i: nat, end: Option<nat>, prefix: string): (r: seq<Node>)
    ensures forall n | n in r :: n in s && Passes(n, i, end, prefix)
    ensures forall n | n in s && Passes(n, i, end, prefix) :: n in r
  {
    if s == [] then []
    else
      var init := Keep(s[..|s| - 1], i, end, prefix);
      var x := s[|s| - 1];
      assert s == s[..|s| - 1] + [x];
      if Passes(x, i, end, prefix) then init + [x] else init
  }

  /** One more node at the end of the batch: kept exactly when it passes the filter. */
  lemma KeepSnoc(s: seq<Node>, x: Node, i: nat, end: Option<nat>, prefix: string)
    ensures Keep(s + [x], i, end, prefix)
         == if Passes(x, i, end, prefix) then Keep(s, i, end, prefix) + [x] else Keep(s, i, end, prefix)
  {
    assert (s + [x])[..|s|] == s;
  }

  /** All members of `g` have the key of its first member. */
  ghost predicate OneKey(g: Group) {
    g != [] && forall n | n in g :: n.key == g[0].key
  }

  /** The maximal runs of consecutive nodes of `s` that share one key, built the way the
      loop builds them: a node joins the open run when its key equals that run's first key,
      and opens a new run otherwise. */
  function Runs(s: seq<Node>): (r: seq<Group>)
    ensures forall g | g in r :: OneKey(g)
    ensures forall k | 0 <= k < |r| :: r[k] != []
    ensures forall g, n | g in r && n in g :: n in s
    ensures r == [] <==> s == []
  {
    if s == [] then []
    else
      var rs: seq<Group> := Runs(s[..|s| - 1]);
      var x := s[|s| - 1];
      if rs != [] && rs[|rs| - 1][0].key == x.key then
        var last := rs[|rs| - 1];
        assert last in rs;
        assert OneKey(last + [x]) by {
          assert forall n | n in last + [x] :: n in last || n == x;
        }
        assert forall g | g in rs[..|rs| - 1] + [last + [x]] :: g in rs || g == last + [x];
        rs[..|rs| - 1] + [last + [x]]
      else
        assert forall g | g in rs + [[x]] :: g in rs || g == [x];
        rs + [[x]]
  }

  /** One more node: it joins the open run when the keys agree and opens a new run otherwise. */
  lemma RunsSnoc(s: seq<Node>, x: Node)
    ensures var rs: seq<Group> := Runs(s);
      Runs(s + [x]) == if rs != [] && rs[|rs| - 1][0].key == x.key then rs[..|rs| - 1] + [rs[|rs| - 1] + [x]]
                       else rs + [[x]]
  {
    assert (s + [x])[..|s|] == s;
  }

  function Flatten(gs: seq<Group>): seq<Node> {
    if gs == [] then [] else Flatten(gs[..|gs| - 1]) + gs[|gs| - 1]
  }

  /** Cutting into runs loses and reorders nothing. */
  lemma {:induction false} RunsFlatten(s: seq<Node>)
    ensures Flatten(Runs(s)) == s
  {
    if s != [] {
      var init := s[..|s| - 1];
      RunsFlatten(init);
      var rs: seq<Group> := Runs(init);
      var x := s[|s| - 1];
      if rs != [] && rs[|rs| - 1][0].key == x.key {
        var rs' := rs[..|rs| - 1] + [rs[|rs| - 1] + [x]];
        assert rs'[..|rs'| - 1] == rs[..|rs| - 1];
        assert rs == rs[..|rs| - 1] + [rs[|rs| - 1]];
        assert Flatten(rs) == Flatten(rs[..|rs| - 1]) + rs[|rs| - 1];
      } else {
        assert (rs + [[x]])[..|rs|] == rs;
      }
      assert s == init + [x];
    }
  }

  /** Neighbouring runs have different keys, so every run is maximal. */
  lemma {:induction false} RunsAdjacentDiffer(s: seq<Node>)
    ensures forall k | 0 < k < |Runs(s)| :: Runs(s)[k - 1][0].key != Runs(s)[k][0].key
  {
    if s != [] {
      RunsAdjacentDiffer(s[..|s| - 1]);
    }
  }

  /** Keys never increase along `s`. */
  ghost predicate KeysDescending(s: seq<Node>) {
    forall p, q | 0 <= p < q < |s| :: StrCompare(s[p].key, s[q].key) >= 0
  }

  /** Run keys strictly decrease. */
  ghost predicate RunKeysDecreasing(rs: seq<Group>)
    requires forall k | 0 <= k < |rs| :: rs[k] != []
  {
    forall p, q | 0 <= p < q < |rs| :: StrCompare(rs[p][0].key, rs[q][0].key) > 0
  }

  lemma StrCompareStrictStep(a: string, b: string, c: string)
    requires StrCompare(a, b) > 0 && StrCompare(b, c) >= 0
    ensures StrCompare(a, c) > 0
  {
    StrCompareAntisymmetric(a, b);
    StrCompareAntisymmetric(b, c);
    StrCompareAntisymmetric(a, c);
    StrCompareZero(a, c);
    StrCompareTransitive(c, b, a);
    if StrCompare(a, c) == 0 {
      StrCompareZero(a, b);
      StrCompareZero(b, c);
    }
  }

  /** In a batch sorted by descending key, each key forms exactly one run: run keys strictly
      decrease, so no two runs share a key. */
  lemma RunKeysDecreasingMerge(rs: seq<Group>, x: Node)
    requires rs != [] && forall k | 0 <= k < |rs| :: rs[k] != []
    requires RunKeysDecreasing(rs)
    ensures RunKeysDecreasing(rs[..|rs| - 1] + [rs[|rs| - 1] + [x]])
  {
    var r: seq<Group> := rs[..|rs| - 1] + [rs[|rs| - 1] + [x]];
    assert forall k | 0 <= k < |r| :: r[k][0] == rs[k][0];
  }

  lemma RunKeysDecreasingOpen(rs: seq<Group>, x: Node)
    requires forall k | 0 <= k < |rs| :: rs[k] != []
    requires RunKeysDecreasing(rs)
    requires rs != [] ==> StrCompare(rs[|rs| - 1][0].key, x.key) > 0
    ensures RunKeysDecreasing(rs + [[x]])
  {
    var r: seq<Group> := rs + [[x]];
    forall p, q | 0 <= p < q < |r| ensures StrCompare(r[p][0].key, r[q][0].key) > 0 {
      if q < |rs| {
        assert r[p] == rs[p] && r[q] == rs[q];
      } else if p < |rs| - 1 {
        assert r[p] == rs[p] && r[q] == [x];
        StrCompareStrictStep(rs[p][0].key, rs[|rs| - 1][0].key, x.key);
      } else {
        assert r[p] == rs[p] && r[q] == [x];
      }
    }
  }

  /** In a batch sorted by descending key, each key forms exactly one run: run keys strictly
      decrease, so no two runs share a key. */
  lemma {:induction false} RunsOfSortedBatch(s: seq<Node>)
    requires KeysDescending(s)
    ensures RunKeysDecreasing(Runs(s))
  {
    if s != [] {
      var init := s[..|s| - 1];
      var x := s[|s| - 1];
      assert KeysDescending(init);
      RunsOfSortedBatch(init);
      var rs: seq<Group> := Runs(init);
      if rs != [] && rs[|rs| - 1][0].key == x.key {
        RunKeysDecreasingMerge(rs, x);
      } else {
        if rs != [] {
          var last := rs[|rs| - 1][0];
          assert rs[|rs| - 1] in rs && last in rs[|rs| - 1];
          var p :| 0 <= p < |init| && init[p] == last;
          assert StrCompare(s[p].key, s[|s| - 1].key) >= 0;
          StrCompareZero(last.key, x.key);
        }
        RunKeysDecreasingOpen(rs, x);
      }
    }
  }

  /** The runs of `gs` that are not all tombstones, in order. */
  function LiveRuns(gs: seq<Group>): (r: seq<Group>)
    ensures forall g | g in r :: g in gs && !AllDeletes(g)
    ensures forall g | g in gs && !AllDeletes(g) :: g in r
  {
    if gs == [] then []
    else
      var g := gs[|gs| - 1];
      assert gs == gs[..|gs| - 1] + [g];
      LiveRuns(gs[..|gs| - 1]) + if AllDeletes(g) then [] else [g]
  }

  /** One more run is kept exactly when it is not all tombstones. */
  lemma LiveRunsSnoc(gs: seq<Group>, g: Group)
    ensures LiveRuns(gs + [g]) == LiveRuns(gs) + if AllDeletes(g) then [] else [g]
  {
    assert (gs + [g])[..|gs|] == gs;
  }

  /** The runs a scan has closed (all but the open one). */
  function Closed(rs: seq<Group>): seq<Group> {
    if rs == [] then [] else rs[..|rs| - 1]
  }

  /** The run a scan still has open, or `null` when nothing passed the filter. */
  function Open(rs: seq<Group>): Option<Group> {
    if rs == [] then None else Some(rs[|rs| - 1])
  }

  /** How one more kept node changes what `_filterResult` holds: it joins the open run when
      the keys agree; otherwise it opens a new run, and the run it closes is pushed unless it
      is all tombstones. */
  lemma RunsSnocState(s: seq<Node>, x: Node)
    ensures var rs: seq<Group> := Runs(s);
      var rs': seq<Group> := Runs(s + [x]);
      && (rs != [] && rs[|rs| - 1][0].key == x.key ==>
            Open(rs') == Some(rs[|rs| - 1] + [x]) && LiveRuns(Closed(rs')) == LiveRuns(Closed(rs)))
      && (rs == [] ==> Open(rs') == Some([x]) && LiveRuns(Closed(rs')) == [])
      && (rs != [] && rs[|rs| - 1][0].key != x.key ==>
            && Open(rs') == Some([x])
            && LiveRuns(Closed(rs')) == LiveRuns(Closed(rs)) + if AllDeletes(rs[|rs| - 1]) then [] else [rs[|rs| - 1]])
  {
    var rs: seq<Group> := Runs(s);
    RunsSnoc(s, x);
    if rs != [] && rs[|rs| - 1][0].key == x.key {
      assert Closed(rs[..|rs| - 1] + [rs[|rs| - 1] + [x]]) == Closed(rs);
    } else if rs != [] {
      assert Closed(rs + [[x]]) == rs;
      LiveRunsSnoc(rs[..|rs| - 1], rs[|rs| - 1]);
      assert rs[..|rs| - 1] + [rs[|rs| - 1]] == rs;
    }
  }

  /** What `_filterResult` leaves behind: the groups it pushes onto `_collisions`, in push
      order, and the group it returns. */
  datatype Filtered = Filtered(pushed: seq<Group>, result: Option<Group>)

  /** The runs `_filterResult` cuts from a batch gathered at depth `i`. */
  function FilterRuns(nodes: seq<Node>, i: nat, end: Option<nat>, prefix: string): seq<Group> {
    Runs(Keep(SortByKey(nodes), i, end, prefix))
  }

  function FilterSpec(nodes: seq<Node>, i: nat, end: Option<nat>, prefix: string): Filtered {
    var rs: seq<Group> := FilterRuns(nodes, i, end, prefix);
    Filtered(LiveRuns(Closed(rs)), Open(rs))
  }

  /** One turn of the `_filterResult` loop: a node that fails the depth or prefix filter is
      skipped; otherwise `result || []` is closed (and pushed unless all tombstones) when the
      node's key differs from its first member's, and the node joins the result. */
  function FilterStep(st: Filtered, x: Node, i: nat, end: Option<nat>, prefix: string): Filtered {
    if !Passes(x, i, end, prefix) then st
    else
      var g := if st.result.Some? then st.result.value else [];
      if |g| > 0 && g[0].key != x.key then
        Filtered(st.pushed + (if AllDeletes(g) then [] else [g]), Some([x]))
      else
        Filtered(st.pushed, Some(g + [x]))
  }

  /** The `_filterResult` loop run over `s` from an empty result. */
  function FilterLoop(s: seq<Node>, i: nat, end: Option<nat>, prefix: string): Filtered {
    if s == [] then Filtered([], None)
    else FilterStep(FilterLoop(s[..|s| - 1], i, end, prefix), s[|s| - 1], i, end, prefix)
  }

  /** A node that passes the filter moves the loop's state exactly as it moves the run
      decomposition of the kept nodes. */
  lemma FilterStepRuns(kept: seq<Node>, x: Node, i: nat, end: Option<nat>, prefix: string)
    requires Passes(x, i, end, prefix)
    ensures var rs: seq<Group> := Runs(kept);
      var rs': seq<Group> := Runs(kept + [x]);
      FilterStep(Filtered(LiveRuns(Closed(rs)), Open(rs)), x, i, end, prefix)
        == Filtered(LiveRuns(Closed(rs')), Open(rs'))
  {
    var rs: seq<Group> := Runs(kept);
    RunsSnocState(kept, x);
    if rs == [] {
      var none: seq<Node> := [];
      assert none + [x] == [x];
    } else {
      assert rs[|rs| - 1] != [];
    }
  }

  /** The loop computes the run decomposition: it has pushed the live closed runs of the
      nodes that passed, and holds the open run. */
  lemma {:induction false} FilterLoopRuns(s: seq<Node>, i: nat, end: Option<nat>, prefix: string)
    ensures var rs: seq<Group> := Runs(Keep(s, i, end, prefix));
      FilterLoop(s, i, end, prefix) == Filtered(LiveRuns(Closed(rs)), Open(rs))
  {
    if s != [] {
      var init := s[..|s| - 1];
      var x := s[|s| - 1];
      assert s == init + [x];
      FilterLoopRuns(init, i, end, prefix);
      KeepSnoc(init, x, i, end, prefix);
      assert FilterLoop(s, i, end, prefix) == FilterStep(FilterLoop(init, i, end, prefix), x, i, end, prefix);
      if Passes(x, i, end, prefix) {
        FilterStepRuns(Keep(init, i, end, prefix), x, i, end, prefix);
      }
    }
  }

  /** Running the loop over the batch sorted by key gives `FilterSpec`. */
  lemma FilterLoopIsSpec(nodes: seq<Node>, i: nat, end: Option<nat>, prefix: string)
    ensures FilterLoop(SortByKey(nodes), i, end, prefix) == FilterSpec(nodes, i, end, prefix)
  {
    FilterLoopRuns(SortByKey(nodes), i, end, prefix);
  }

  lemma {:induction false} KeepKeysDescending(s: seq<Node>, i: nat, end: Option<nat>, prefix: string)
    requires KeysDescending(s)
    ensures KeysDescending(Keep(s, i, end, prefix))
  {
    if s != [] {
      var init := s[..|s| - 1];
      var x := s[|s| - 1];
      assert KeysDescending(init);
      KeepKeysDescending(init, i, end, prefix);
      var k := Keep(init, i, end, prefix);
      forall n | n in k ensures StrCompare(n.key, x.key) >= 0 {
        var p :| 0 <= p < |init| && init[p] == n;
        assert s[p] == n;
      }
    }
  }

  lemma SortByKeyDescending(nodes: seq<Node>)
    ensures KeysDescending(SortByKey(nodes))
    ensures forall n :: n in SortByKey(nodes) <==> n in nodes
  {
    var sorted := SortByKey(nodes);
    forall p, q | 0 <= p < q < |sorted| ensures StrCompare(sorted[p].key, sorted[q].key) >= 0 {
      assert ByKey(sorted[p], sorted[q]) <= 0;
      StrCompareZero(sorted[p].key, sorted[q].key);
    }
    forall n ensures n in sorted <==> n in nodes {
      assert n in sorted <==> n in multiset(sorted);
      assert n in nodes <==> n in multiset(nodes);
    }
  }

  /** What `_filterResult` promises about the groups it produces: each is non-empty, its
      members share one key and pass the depth and prefix filters; a pushed group is never all
      tombstones; and the result is `null` exactly when no node of the batch passed. */
  lemma FilterSpecGroups(nodes: seq<Node>, i: nat, end: Option<nat>, prefix: string)
    ensures var f := FilterSpec(nodes, i, end, prefix);
      && (forall g | g in f.pushed :: OneKey(g) && !AllDeletes(g))
      && (f.result.Some? ==> OneKey(f.result.value))
      && (forall g, n | (g in f.pushed || f.result == Some(g)) && n in g :: n in nodes && Passes(n, i, end, prefix))
      && (f.result.None? <==> forall n | n in nodes :: !Passes(n, i, end, prefix))
  {
    var kept := Keep(SortByKey(nodes), i, end, prefix);
    var rs: seq<Group> := Runs(kept);
    SortByKeyDescending(nodes);
    assert forall g | g in Closed(rs) :: g in rs;
    if rs != [] {
      assert rs[|rs| - 1] in rs;
    }
  }

  /** Non-empty groups whose keys differ pairwise. */
  ghost predicate DistinctKeys(gs: seq<Group>) {
    && (forall k | 0 <= k < |gs| :: gs[k] != [])
    && (forall p, q | 0 <= p < q < |gs| :: gs[p][0].key != gs[q][0].key)
  }

  /** Keeping the live closed runs of runs with decreasing keys leaves groups with keys
      different from each other and from the open run. */
  lemma LiveClosedKeysDistinct(rs: seq<Group>)
    requires forall k | 0 <= k < |rs| :: rs[k] != []
    requires RunKeysDecreasing(rs)
    ensures forall g: Group | g in LiveRuns(Closed(rs)) ::
      Open(rs).Some? && g != [] && Open(rs).value != [] && g[0].key != Open(rs).value[0].key
    ensures DistinctKeys(LiveRuns(Closed(rs)))
  {
    var pushed: seq<Group> := LiveRuns(Closed(rs));
    forall g: Group | g in pushed
      ensures Open(rs).Some? && g != [] && Open(rs).value != [] && g[0].key != Open(rs).value[0].key
    {
      var p :| 0 <= p < |rs| - 1 && rs[p] == g;
      StrCompareZero(rs[p][0].key, rs[|rs| - 1][0].key);
    }
    forall k | 0 <= k < |pushed| ensures pushed[k] != [] {
      assert pushed[k] in pushed;
    }
    forall p, q | 0 <= p < q < |pushed|
      ensures pushed[p] != [] && pushed[q] != [] && pushed[p][0].key != pushed[q][0].key
    {
      LiveRunsOrder(Closed(rs), p, q);
      var p', q' :| 0 <= p' < q' < |Closed(rs)| && Closed(rs)[p'] == pushed[p] && Closed(rs)[q'] == pushed[q];
      StrCompareZero(rs[p'][0].key, rs[q'][0].key);
    }
  }

  /** `_filterResult` gathers each key into exactly one group: the groups it pushes and the
      group it returns all have different keys. */
  lemma FilterSpecKeysDistinct(nodes: seq<Node>, i: nat, end: Option<nat>, prefix: string)
    ensures var f := FilterSpec(nodes, i, end, prefix);
      && (forall g: Group | g in f.pushed :: f.result.Some? && g != [] && f.result.value != []
            && g[0].key != f.result.value[0].key)
      && DistinctKeys(f.pushed)
  {
    var rs := FilterRuns(nodes, i, end, prefix);
    FilterRunsDecreasing(nodes, i, end, prefix);
    LiveClosedKeysDistinct(rs);
  }

  lemma FilterRunsDecreasing(nodes: seq<Node>, i: nat, end: Option<nat>, prefix: string)
    ensures RunKeysDecreasing(FilterRuns(nodes, i, end, prefix))
  {
    var sorted := SortByKey(nodes);
    SortByKeyDescending(nodes);
    KeepKeysDescending(sorted, i, end, prefix);
    RunsOfSortedBatch(Keep(sorted, i, end, prefix));
  }

  /** `LiveRuns` keeps the runs in their order. */
  lemma {:induction false} LiveRunsOrder(gs: seq<Group>, p: nat, q: nat)
    requires p < q < |LiveRuns(gs)|
    ensures exists p', q' :: 0 <= p' < q' < |gs| && gs[p'] == LiveRuns(gs)[p] && gs[q'] == LiveRuns(gs)[q]
  {
    var init := gs[..|gs| - 1];
    var g := gs[|gs| - 1];
    var li := LiveRuns(init);
    if q < |li| {
      LiveRunsOrder(init, p, q);
      var p', q' :| 0 <= p' < q' < |init| && init[p'] == li[p] && init[q'] == li[q];
      assert gs[p'] == LiveRuns(gs)[p] && gs[q'] == LiveRuns(gs)[q];
    } else {
      assert LiveRuns(gs)[q] == g;
      assert li[p] in init;
      var p' :| 0 <= p' < |init| && init[p'] == li[p];
      assert gs[p'] == LiveRuns(gs)[p] && gs[|gs| - 1] == LiveRuns(gs)[q];
    }
  }

  /** What `drain` found when popping from the end of the collision list. */
  datatype Drained =
    | Found(group: Group)   // a group that is not all tombstones
    | Exhausted             // the list ran out: `null`
    | PoppedNull            // it popped a `null` entry, on which `allDeletes` fails

  datatype DrainOutcome = DrainOutcome(drained: Drained, rest: seq<Option<Group>>)

  /** `drain` pops from the end: what remains is a prefix of the list; every entry it popped
      and skipped is an all-tombstone group; it stops at the first other entry. */
  ghost predicate DrainsTo(cs: seq<Option<Group>>, d: DrainOutcome) {
    && |d.rest| <= |cs| && d.rest == cs[..|d.rest|]
    && (d.drained.Exhausted? ==> d.rest == [])
    && (d.drained.Found? ==>
          |d.rest| < |cs| && cs[|d.rest|] == Some(d.drained.group) && !AllDeletes(d.drained.group))
    && (d.drained.PoppedNull? ==> |d.rest| < |cs| && cs[|d.rest|] == None)
    && var skipped := if d.drained.Exhausted? then 0 else |d.rest| + 1;
       forall k | skipped <= k < |cs| :: cs[k].Some? && AllDeletes(cs[k].value)
  }

  function DrainSpec(cs: seq<Option<Group>>): (d: DrainOutcome)
    ensures DrainsTo(cs, d)
  {
    if cs == [] then DrainOutcome(Exhausted, [])
    else
      var rest := cs[..|cs| - 1];
      match cs[|cs| - 1]
      case None => DrainOutcome(PoppedNull, rest)
      case Some(g) =>
        if AllDeletes(g) then
          var d := DrainSpec(rest);
          assert rest[..|d.rest|] == cs[..|d.rest|];
          d
        else DrainOutcome(Found(g), rest)
  }

  /** `drain(collisions)`: pops entries off the end until one is not an all-tombstone group. */
  method Drain(collisions: seq<Option<Group>>) returns (d: DrainOutcome)
    ensures d == DrainSpec(collisions)
    ensures DrainsTo(collisions, d)
  {
    var rest := collisions;
    while rest != []
      invariant DrainSpec(rest) == DrainSpec(collisions)
      decreases |rest|
    {
      var collision := rest[|rest| - 1];
      rest := rest[..|rest| - 1];
      if collision.None? {
        return DrainOutcome(PoppedNull, rest);
      }
      if AllDeletes(collision.value) {
        continue;
      }
      return DrainOutcome(Found(collision.value), rest);
    }
    return DrainOutcome(Exhausted, []);
  }

  /** The groups (non-null entries) of a collision list. */
  function Groups(cs: seq<Option<Group>>): (r: seq<Option<Group>>)
    ensures forall e | e in r :: e.Some? && e in cs
  {
    if cs == [] then []
    else Groups(cs[..|cs| - 1]) + if cs[|cs| - 1].Some? then [cs[|cs| - 1]] else []
  }

  /** The `null` entries of a collision list. */
  function Nulls(cs: seq<Option<Group>>): (r: seq<Option<Group>>)
    ensures forall e | e in r :: e.None?
  {
    if cs == [] then []
    else Nulls(cs[..|cs| - 1]) + if cs[|cs| - 1].None? then [cs[|cs| - 1]] else []
  }

  lemma {:induction false} SplitIsPermutation(cs: seq<Option<Group>>)
    ensures multiset(Groups(cs) + Nulls(cs)) == multiset(cs)
  {
    if cs != [] {
      SplitIsPermutation(cs[..|cs| - 1]);
      assert cs == cs[..|cs| - 1] + [cs[|cs| - 1]];
    }
  }

  /** `collisions.sort(sortByClockAndSeq)`. The comparator puts groups before `null`s, and on
      two groups it reads `.clock` of an array and raises a TypeError. A correct comparison
      sort compares every pair that ends up adjacent, and the groups end up adjacent, so two
      or more groups always raise. With at most one group the stable result is that group
      followed by the `null`s. */
  function SortCollisions(cs: seq<Option<Group>>): (r: Result<seq<Option<Group>>, Exception>)
    ensures r.Err? <==> |Groups(cs)| >= 2
    ensures r.Err? ==> r.error == CompareGroups
    ensures r.Ok? ==> multiset(r.value) == multiset(cs)
    ensures r.Ok? ==> forall p, q | 0 <= p < q < |r.value| :: r.value[p].None? ==> r.value[q].None?
  {
    SplitIsPermutation(cs);
    if |Groups(cs)| >= 2 then Err(CompareGroups) else Ok(Groups(cs) + Nulls(cs))
  }
}
