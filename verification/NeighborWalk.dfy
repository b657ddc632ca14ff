/** Neighbours by a recursive query over simple paths: `backend/app/graph_traversal.py`. */
module NeighborWalk {
  import opened Basics
  import opened FileGraph
  import opened TextOrder

  datatype Direction = In | Out

  /** The edges as the query follows them. */
  function Oriented(edges: set<Edge>, direction: Direction): set<Link> {
    set e | e in edges :: if direction.In? then Link(e.dst, e.src) else Link(e.src, e.dst)
  }

  // ----- The query -----

  /** The paths of the rows of `walk` at one depth; a joined node must not be on the path yet. */
  function Level(links: set<Link>, start: Path, depth: nat): set<seq<Path>> {
    if depth == 0 then {[start]}
    else
      var before := Level(links, start, depth - 1);
      set w, l | w in before && l in links && w != [] && l.src == w[|w| - 1] && l.dst !in w :: w + [l.dst]
  }

  function WalkRows(links: set<Link>, start: Path, depth: nat): set<seq<Path>> {
    if depth == 0 then Level(links, start, 0)
    else WalkRows(links, start, depth - 1) + Level(links, start, depth)
  }

  /** `ARRAY_TO_STRING(path, E'\x1F')` */
  function Joined(path: seq<Path>): string {
    if |path| == 0 then "" else if |path| == 1 then path[0] else path[0] + "\U{1f}" + Joined(path[1..])
  }

  /** What the ranking and the final order look at. */
  datatype Key = Key(depth: nat, pathSort: string, node: Path)

  predicate Before(a: Key, b: Key) {
    || a.depth < b.depth
    || (a.depth == b.depth && Less(a.pathSort, b.pathSort))
    || (a.depth == b.depth && a.pathSort == b.pathSort && Less(a.node, b.node))
  }

  function KeyOf(w: seq<Path>): Key
    requires w != []
  {
    Key(|w| - 1, Joined(w), w[|w| - 1])
  }

  function Keys(rows: set<seq<Path>>, start: Path): set<Key> {
    set w | w in rows && |w| > 1 && w[|w| - 1] != start :: KeyOf(w)
  }

  /** `rn = 1`: the first row of its node. */
  ghost predicate RanksFirst(keys: set<Key>, k: Key) {
    k in keys && forall j | j in keys && j.node == k.node :: j == k || Before(k, j)
  }

  ghost predicate IsLeast(keys: set<Key>, k: Key) {
    k in keys && forall j | j in keys :: j == k || Before(k, j)
  }

  ghost function Least(keys: set<Key>): (k: Key)
    requires keys != {}
    ensures IsLeast(keys, k)
  {
    LeastExists(keys);
    var k :| IsLeast(keys, k);
    k
  }

  ghost function SortKeys(keys: set<Key>): (r: seq<Key>)
    ensures |r| == |keys|
  {
    if keys == {} then [] else [Least(keys)] + SortKeys(keys - {Least(keys)})
  }

  /** The nodes the query selects, in its order and without a limit. */
  ghost function Selected(links: set<Link>, start: Path, depth: nat): (r: seq<Key>) {
    var keys := Keys(WalkRows(links, start, depth), start);
    SortKeys(set k | k in keys && RanksFirst(keys, k))
  }

  function Nodes(keys: seq<Key>): (r: seq<Path>)
    ensures |r| == |keys| && forall i | 0 <= i < |keys| :: r[i] == keys[i].node
  {
    seq(|keys|, i requires 0 <= i < |keys| => keys[i].node)
  }

  function DepthInUse(depth: int, maxDepth: Option<int>): nat {
    Max(0, if maxDepth.Some? then Min(depth, maxDepth.value) else depth)
  }

  function LimitInUse(limit: Option<int>, maxLimit: Option<nat>): Option<nat> {
    if maxLimit.Some? then
      if limit.None? then maxLimit else Some(Max(1, Min(limit.value, maxLimit.value)))
    else if limit.Some? then Some(Max(1, limit.value)) else None
  }

  function Take<T>(s: seq<T>, limit: Option<nat>): seq<T> {
    if limit.Some? && limit.value < |s| then s[..limit.value] else s
  }

  ghost function Neighbors(
    edges: set<Edge>, start: Path, direction: Direction, depth: int,
    limit: Option<int>, maxDepth: Option<int>, maxLimit: Option<nat>): seq<Path>
  {
    if depth <= 0 || (limit.Some? && limit.value <= 0) then []
    else
      var selected := Selected(Oriented(edges, direction), start, DepthInUse(depth, maxDepth));
      Take(Nodes(selected), LimitInUse(limit, maxLimit))
  }

  // ----- Distance -----

  /** Some walk of exactly `steps` edges, nodes repeated or not. */
  ghost predicate Reaches(links: set<Link>, start: Path, node: Path, steps: nat) {
    exists w :: IsWalk(links, w) && w[0] == start && w[|w| - 1] == node && |w| == steps + 1
  }

  ghost predicate IsDistance(links: set<Link>, start: Path, node: Path, steps: nat) {
    Reaches(links, start, node, steps) && forall k: nat | k < steps :: !Reaches(links, start, node, k)
  }

  ghost predicate Simple(w: seq<Path>) {
    forall i, j | 0 <= i < j < |w| :: w[i] != w[j]
  }

  // ----- The rows are the simple paths -----

  ghost predicate IsSimpleWalk(links: set<Link>, start: Path, w: seq<Path>) {
    IsWalk(links, w) && Simple(w) && w[0] == start
  }

  /** The row of the level above that a row was joined to, and the edge it was joined with. */
  lemma LevelOrigin(links: set<Link>, start: Path, depth: nat, w: seq<Path>) returns (v: seq<Path>, l: Link)
    requires depth > 0 && w in Level(links, start, depth)
    ensures v in Level(links, start, depth - 1) && v != []
    ensures l in links && l.src == v[|v| - 1] && l.dst !in v && w == v + [l.dst]
  {
    v, l :| v in Level(links, start, depth - 1) && l in links && v != []
         && l.src == v[|v| - 1] && l.dst !in v && w == v + [l.dst];
  }

  lemma LevelZero(links: set<Link>, start: Path, w: seq<Path>)
    requires w in Level(links, start, 0)
    ensures IsSimpleWalk(links, start, w) && |w| == 1
  {
  }

  lemma {:induction false} LevelIsSimple(links: set<Link>, start: Path, depth: nat, w: seq<Path>)
    requires w in Level(links, start, depth)
    ensures IsSimpleWalk(links, start, w) && |w| == depth + 1
    decreases depth
  {
    hide Level, IsSimpleWalk;
    if depth == 0 {
      LevelZero(links, start, w);
    } else {
      var v, l := LevelOrigin(links, start, depth, w);
      LevelIsSimple(links, start, depth - 1, v);
      ExtendSimpleWalk(links, start, v, l);
    }
  }

  lemma {:induction false} SimpleIsInLevel(links: set<Link>, start: Path, w: seq<Path>)
    requires IsSimpleWalk(links, start, w)
    ensures w in Level(links, start, |w| - 1)
    decreases |w|
  {
    if |w| == 1 {
      assert w == [start];
    } else {
      var v, l := w[..|w| - 1], Link(w[|w| - 2], w[|w| - 2 + 1]);
      assert l in links && w == v + [l.dst];
      SimpleIsInLevel(links, start, v);
      LevelExtends(links, start, v, l);
    }
  }

  lemma LevelExtends(links: set<Link>, start: Path, v: seq<Path>, l: Link)
    requires v != [] && v in Level(links, start, |v| - 1)
    requires l in links && l.src == v[|v| - 1] && l.dst !in v
    ensures v + [l.dst] in Level(links, start, |v|)
  {
  }

  lemma ExtendSimpleWalk(links: set<Link>, start: Path, v: seq<Path>, l: Link)
    requires IsSimpleWalk(links, start, v) && l in links && l.src == v[|v| - 1] && l.dst !in v
    ensures IsSimpleWalk(links, start, v + [l.dst])
  {
    var w := v + [l.dst];
    forall i | 0 <= i < |w| - 1 ensures Link(w[i], w[i + 1]) in links {
      if i < |v| - 1 {
        assert Link(v[i], v[i + 1]) in links;
      }
    }
  }

  lemma NotEmpty(links: set<Link>, start: Path, w: seq<Path>)
    requires IsSimpleWalk(links, start, w)
    ensures w != []
  {
  }

  lemma {:induction false} RowsAreSimpleWalks(links: set<Link>, start: Path, depth: nat, w: seq<Path>)
    ensures w in WalkRows(links, start, depth) <==> IsSimpleWalk(links, start, w) && |w| <= depth + 1
    decreases depth
  {
    hide Level, IsSimpleWalk;
    if w in Level(links, start, depth) {
      LevelIsSimple(links, start, depth, w);
    }
    if IsSimpleWalk(links, start, w) {
      SimpleIsInLevel(links, start, w);
      NotEmpty(links, start, w);
    }
    if depth > 0 {
      RowsAreSimpleWalks(links, start, depth - 1, w);
    }
  }

  /** Cutting the loops out of a walk leaves a simple one that is no longer. */
  lemma {:induction false} CutLoops(links: set<Link>, w: seq<Path>) returns (v: seq<Path>)
    requires IsWalk(links, w)
    ensures IsSimpleWalk(links, w[0], v) && v[|v| - 1] == w[|w| - 1] && |v| <= |w|
    decreases |w|
  {
    if i, j :| 0 <= i < j < |w| && w[i] == w[j] {
      var u := w[..i] + w[j..];
      forall k | 0 <= k < |u| - 1 ensures Link(u[k], u[k + 1]) in links {
        if k < i - 1 {
          assert Link(w[k], w[k + 1]) in links;
        } else if k == i - 1 {
          assert Link(w[k], w[k + 1]) in links && u[k + 1] == w[j] == w[i];
        } else {
          var m := k - i + j;
          assert Link(w[m], w[m + 1]) in links;
        }
      }
      v := CutLoops(links, u);
    } else {
      v := w;
    }
  }

  /** A node is within `depth` steps exactly when a row ends in it. */
  lemma RowWithin(links: set<Link>, start: Path, depth: nat, node: Path, steps: nat)
    requires steps <= depth && Reaches(links, start, node, steps)
    ensures exists w :: w in WalkRows(links, start, depth) && w != [] && w[|w| - 1] == node && |w| <= steps + 1
  {
    var w :| IsWalk(links, w) && w[0] == start && w[|w| - 1] == node && |w| == steps + 1;
    var v := CutLoops(links, w);
    RowsAreSimpleWalks(links, start, depth, v);
  }

  // ----- Ranking and order -----

  lemma BeforeIsTotal(a: Key, b: Key)
    ensures Before(a, b) || a == b || Before(b, a)
    ensures !Before(a, a) && (Before(a, b) ==> !Before(b, a))
  {
    LessIsTotal(a.pathSort, b.pathSort);
    LessIsTotal(a.node, b.node);
    LessIsStrict(a.pathSort, b.pathSort);
    LessIsStrict(a.node, b.node);
  }

  lemma BeforeIsTransitive(a: Key, b: Key, c: Key)
    requires Before(a, b) && Before(b, c)
    ensures Before(a, c)
  {
    if Less(a.pathSort, b.pathSort) && Less(b.pathSort, c.pathSort) {
      LessIsTransitive(a.pathSort, b.pathSort, c.pathSort);
    }
    if Less(a.node, b.node) && Less(b.node, c.node) {
      LessIsTransitive(a.node, b.node, c.node);
    }
  }

  lemma {:induction false} LeastExists(keys: set<Key>)
    requires keys != {}
    ensures exists k :: IsLeast(keys, k)
  {
    var k :| k in keys;
    var rest := keys - {k};
    if rest == {} {
      assert keys == {k};
      assert IsLeast(keys, k);
    } else {
      LeastExists(rest);
      var m :| IsLeast(rest, m);
      BeforeIsTotal(k, m);
      var least := if Before(k, m) then k else m;
      forall j | j in keys ensures j == least || Before(least, j) {
        if Before(k, m) && Before(m, j) {
          BeforeIsTransitive(k, m, j);
        }
        assert j == k || j in rest;
      }
      assert IsLeast(keys, least);
    }
  }

  ghost predicate Sorted(keys: seq<Key>) {
    forall i, j | 0 <= i < j < |keys| :: Before(keys[i], keys[j])
  }

  lemma {:induction false} SortKeysSorts(keys: set<Key>)
    ensures Sorted(SortKeys(keys))
    ensures forall k :: k in SortKeys(keys) <==> k in keys
    decreases |keys|
  {
    hide Before;
    if keys != {} {
      var k := Least(keys);
      var rest := SortKeys(keys - {k});
      SortKeysSorts(keys - {k});
      forall i | 0 <= i < |rest| ensures Before(k, rest[i]) {
        assert rest[i] in rest;
      }
      PrependSorted(k, rest);
    }
  }

  lemma PrependSorted(k: Key, rest: seq<Key>)
    requires Sorted(rest) && forall i | 0 <= i < |rest| :: Before(k, rest[i])
    ensures Sorted([k] + rest)
    ensures forall j :: j in [k] + rest <==> j == k || j in rest
  {
    hide Before;
    var all := [k] + rest;
    forall i, j | 0 <= i < j < |all| ensures Before(all[i], all[j]) {
      assert all[j] == rest[j - 1];
      if i > 0 {
        assert all[i] == rest[i - 1];
      }
    }
  }

  /** No row of the node is shorter than the one that ranks first. */
  lemma FirstIsShortest(rows: set<seq<Path>>, start: Path, k: Key, v: seq<Path>)
    requires RanksFirst(Keys(rows, start), k)
    requires v in rows && v != [] && v[|v| - 1] == k.node && k.node != start && v[0] == start
    ensures k.depth <= |v| - 1
  {
    assert |v| > 1;
    assert KeyOf(v) in Keys(rows, start);
  }

  /** The row that ranks first for a node tells the node's distance. */
  lemma FirstRankIsDistance(links: set<Link>, start: Path, depth: nat, k: Key)
    requires RanksFirst(Keys(WalkRows(links, start, depth), start), k)
    ensures k.node != start && 1 <= k.depth <= depth
    ensures IsDistance(links, start, k.node, k.depth)
  {
    hide WalkRows;
    var rows := WalkRows(links, start, depth);
    var w :| w in rows && |w| > 1 && w[|w| - 1] != start && k == KeyOf(w);
    RowsAreSimpleWalks(links, start, depth, w);
    assert Reaches(links, start, k.node, k.depth);
    forall steps: nat | Reaches(links, start, k.node, steps) ensures k.depth <= steps {
      if steps <= depth {
        RowWithin(links, start, depth, k.node, steps);
        var v :| v in rows && v != [] && v[|v| - 1] == k.node && |v| <= steps + 1;
        RowsAreSimpleWalks(links, start, depth, v);
        FirstIsShortest(rows, start, k, v);
      }
    }
  }

  lemma ReachableHasFirstRank(links: set<Link>, start: Path, depth: nat, node: Path, steps: nat)
    returns (k: Key)
    requires node != start && steps <= depth && Reaches(links, start, node, steps)
    ensures RanksFirst(Keys(WalkRows(links, start, depth), start), k) && k.node == node
  {
    hide WalkRows, Before;
    var rows := WalkRows(links, start, depth);
    RowWithin(links, start, depth, node, steps);
    var w :| w in rows && w != [] && w[|w| - 1] == node && |w| <= steps + 1;
    RowsAreSimpleWalks(links, start, depth, w);
    var keys := Keys(rows, start);
    assert KeyOf(w) in keys;
    k := FirstOfNode(keys, KeyOf(w));
  }

  lemma FirstOfNode(keys: set<Key>, some: Key) returns (k: Key)
    requires some in keys
    ensures RanksFirst(keys, k) && k.node == some.node
  {
    var mine := set j | j in keys && j.node == some.node;
    assert some in mine;
    k := Least(mine);
  }

  /** The query lists each node of the ball once, nearest first. */
  ghost predicate ListsBall(links: set<Link>, start: Path, depth: nat, out: seq<Path>) {
    && (forall node :: node in out <==>
          node != start && exists d: nat :: 1 <= d <= depth && IsDistance(links, start, node, d))
    && (forall i, j | 0 <= i < j < |out| :: out[i] != out[j])
    && (forall i, j, d, e | 0 <= i < j < |out|
          && IsDistance(links, start, out[i], d) && IsDistance(links, start, out[j], e) :: d <= e)
  }

  lemma DistanceIsUnique(links: set<Link>, start: Path, node: Path, d: nat, e: nat)
    requires IsDistance(links, start, node, d) && IsDistance(links, start, node, e)
    ensures d == e
  {
  }

  /** `selected` holds, in order, the first-ranked key of every node. */
  ghost predicate IsSelection(links: set<Link>, start: Path, depth: nat, selected: seq<Key>) {
    var keys := Keys(WalkRows(links, start, depth), start);
    && Sorted(selected)
    && forall k :: k in selected <==> RanksFirst(keys, k)
  }

  lemma SelectedIsSelection(links: set<Link>, start: Path, depth: nat)
    ensures IsSelection(links, start, depth, Selected(links, start, depth))
  {
    var keys := Keys(WalkRows(links, start, depth), start);
    SortKeysSorts(set k | k in keys && RanksFirst(keys, k));
  }

  lemma SelectionEntry(links: set<Link>, start: Path, depth: nat, selected: seq<Key>, i: nat)
    requires IsSelection(links, start, depth, selected) && i < |selected|
    ensures selected[i].node != start && 1 <= selected[i].depth <= depth
    ensures IsDistance(links, start, selected[i].node, selected[i].depth)
  {
    assert selected[i] in selected;
    FirstRankIsDistance(links, start, depth, selected[i]);
  }

  lemma SelectionHolds(links: set<Link>, start: Path, depth: nat, selected: seq<Key>, node: Path, d: nat)
    requires IsSelection(links, start, depth, selected)
    requires node != start && d <= depth && IsDistance(links, start, node, d)
    ensures node in Nodes(selected)
  {
    var k := ReachableHasFirstRank(links, start, depth, node, d);
    var i :| 0 <= i < |selected| && selected[i] == k;
    assert Nodes(selected)[i] == node;
  }

  lemma SelectionOrder(
    links: set<Link>, start: Path, depth: nat, selected: seq<Key>, i: nat, j: nat)
    requires IsSelection(links, start, depth, selected) && i < j < |selected|
    ensures selected[i].node != selected[j].node && selected[i].depth <= selected[j].depth
  {
    assert selected[i] in selected && selected[j] in selected;
    assert Before(selected[i], selected[j]);
    BeforeIsTotal(selected[i], selected[j]);
  }

  lemma SelectedListsBall(links: set<Link>, start: Path, depth: nat)
    ensures ListsBall(links, start, depth, Nodes(Selected(links, start, depth)))
  {
    hide IsSelection, IsDistance, Selected;
    var selected := Selected(links, start, depth);
    SelectedIsSelection(links, start, depth);
    var out := Nodes(selected);
    forall node
      ensures node in out <==> node != start && exists d: nat :: 1 <= d <= depth && IsDistance(links, start, node, d)
    {
      if node in out {
        var i :| 0 <= i < |out| && out[i] == node;
        SelectionEntry(links, start, depth, selected, i);
      }
      if node != start && exists d: nat :: 1 <= d <= depth && IsDistance(links, start, node, d) {
        var d: nat :| 1 <= d <= depth && IsDistance(links, start, node, d);
        SelectionHolds(links, start, depth, selected, node, d);
      }
    }
    forall i, j | 0 <= i < j < |out| ensures out[i] != out[j] {
      SelectionOrder(links, start, depth, selected, i, j);
    }
    forall i, j, d, e | 0 <= i < j < |out|
      && IsDistance(links, start, out[i], d) && IsDistance(links, start, out[j], e)
      ensures d <= e
    {
      SelectionOrder(links, start, depth, selected, i, j);
      SelectionEntry(links, start, depth, selected, i);
      SelectionEntry(links, start, depth, selected, j);
      DistanceIsUnique(links, start, out[i], d, selected[i].depth);
      DistanceIsUnique(links, start, out[j], e, selected[j].depth);
    }
  }

  /** `w` is a simple walk to the node with as many steps as the key says. */
  ghost predicate WalkOfKey(links: set<Link>, start: Path, k: Key, w: seq<Path>) {
    IsSimpleWalk(links, start, w) && w[|w| - 1] == k.node && |w| == k.depth + 1
  }

  lemma KeyHasWalk(links: set<Link>, start: Path, depth: nat, k: Key) returns (w: seq<Path>)
    requires RanksFirst(Keys(WalkRows(links, start, depth), start), k)
    ensures WalkOfKey(links, start, k, w) && k == KeyOf(w)
  {
    hide WalkRows, Before;
    w :| w in WalkRows(links, start, depth) && |w| > 1 && w[|w| - 1] != start && k == KeyOf(w);
    RowsAreSimpleWalks(links, start, depth, w);
  }

  lemma WalkIsRow(links: set<Link>, start: Path, depth: nat, k: Key, v: seq<Path>)
    requires RanksFirst(Keys(WalkRows(links, start, depth), start), k) && WalkOfKey(links, start, k, v)
    ensures k == KeyOf(v) || Before(k, KeyOf(v))
  {
    hide Before;
    FirstRankIsDistance(links, start, depth, k);
    RowsAreSimpleWalks(links, start, depth, v);
    hide WalkRows;
    assert KeyOf(v) in Keys(WalkRows(links, start, depth), start);
  }

  /**
   * Of two nodes at the same distance the one listed first has a shortest path whose text is before
   * that of every shortest path of the other, or the same text and the lesser name.
   */
  lemma TiesByPath(links: set<Link>, start: Path, depth: nat, i: nat, j: nat, v: seq<Path>) returns (w: seq<Path>)
    requires i < j < |Selected(links, start, depth)|
    requires var selected := Selected(links, start, depth);
             selected[i].depth == selected[j].depth && WalkOfKey(links, start, selected[j], v)
    ensures WalkOfKey(links, start, Selected(links, start, depth)[i], w)
    ensures Less(Joined(w), Joined(v)) || (Joined(w) == Joined(v) && Less(w[|w| - 1], v[|v| - 1]))
  {
    hide Selected, WalkRows, RanksFirst;
    var selected := Selected(links, start, depth);
    SelectedIsSelection(links, start, depth);
    assert selected[i] in selected && selected[j] in selected;
    w := KeyHasWalk(links, start, depth, selected[i]);
    WalkIsRow(links, start, depth, selected[j], v);
    BeforeIsTransitiveOrSame(selected[i], selected[j], KeyOf(v));
  }

  lemma BeforeIsTransitiveOrSame(a: Key, b: Key, c: Key)
    requires Before(a, b) && (b == c || Before(b, c))
    ensures Before(a, c)
  {
    if b != c {
      BeforeIsTransitive(a, b, c);
    }
  }

  /** The first entries of the list of a ball, as many as the limit allows. */
  ghost predicate ListsSomeOfBall(links: set<Link>, start: Path, depth: nat, limit: Option<nat>, out: seq<Path>) {
    exists whole ::
      && ListsBall(links, start, depth, whole)
      && out <= whole
      && |out| == if limit.Some? then Min(limit.value, |whole|) else |whole|
  }

  /**
   * Without a limit the call lists the ball of the depth in use; with one, the first entries of
   * that list; and nothing when the depth or the limit asked for is not positive.
   */
  lemma NeighborsListBall(
    edges: set<Edge>, start: Path, direction: Direction, depth: int,
    limit: Option<int>, maxDepth: Option<int>, maxLimit: Option<nat>)
    ensures var out := Neighbors(edges, start, direction, depth, limit, maxDepth, maxLimit);
            if depth <= 0 || (limit.Some? && limit.value <= 0) then out == []
            else ListsSomeOfBall(Oriented(edges, direction), start, DepthInUse(depth, maxDepth),
                                 LimitInUse(limit, maxLimit), out)
  {
    hide Selected, ListsBall, Oriented, DepthInUse, LimitInUse;
    var links := Oriented(edges, direction);
    SelectedListsBall(links, start, DepthInUse(depth, maxDepth));
    var whole := Nodes(Selected(links, start, DepthInUse(depth, maxDepth)));
    assert ListsBall(links, start, DepthInUse(depth, maxDepth), whole);
  }

  /** A step of a query for dependents goes from a target to its source, and one for dependencies the other way. */
  lemma StepsFollowEdges(edges: set<Edge>, p: Path, q: Path)
    ensures Link(p, q) in Oriented(edges, Out) <==> exists e | e in edges :: e.src == p && e.dst == q
    ensures Link(p, q) in Oriented(edges, In) <==> exists e | e in edges :: e.dst == p && e.src == q
  {
    if Link(p, q) in Oriented(edges, Out) {
      var e :| e in edges && Link(e.src, e.dst) == Link(p, q);
    }
    if Link(p, q) in Oriented(edges, In) {
      var e :| e in edges && Link(e.dst, e.src) == Link(p, q);
    }
    if e :| e in edges && e.src == p && e.dst == q {
      assert Link(e.src, e.dst) in Oriented(edges, Out);
    }
    if e :| e in edges && e.dst == p && e.src == q {
      assert Link(e.dst, e.src) in Oriented(edges, In);
    }
  }

  /** The greatest depth that neither bound forbids, and the least limit of those given, both not negative. */
  lemma ClampsAreBounds(depth: int, limit: Option<int>, maxDepth: Option<int>, maxLimit: Option<nat>)
    requires depth > 0 && (limit.Some? ==> limit.value > 0)
    ensures var d := DepthInUse(depth, maxDepth);
            && d <= depth && (maxDepth.Some? ==> d <= maxDepth.value || d == 0)
            && (d == depth || (maxDepth.Some? && (d == maxDepth.value || (d == 0 && maxDepth.value < 0))))
    ensures var l := LimitInUse(limit, maxLimit);
            && (l.None? <==> limit.None? && maxLimit.None?)
            && (l.Some? && limit.Some? ==> 1 <= l.value <= limit.value)
            && (l.Some? && maxLimit.Some? ==> l.value <= maxLimit.value || (limit.Some? && l.value == 1))
            && (l.Some? ==> || l == maxLimit || (limit.Some? && l.value == limit.value)
                            || (maxLimit == Some(0) && l.value == 1))
  {
  }

  lemma OneStep(links: set<Link>, start: Path, node: Path)
    requires node != start
    ensures IsDistance(links, start, node, 1) <==> Link(start, node) in links
  {
    if IsDistance(links, start, node, 1) {
      var w :| IsWalk(links, w) && w[0] == start && w[|w| - 1] == node && |w| == 2;
      assert Link(w[0], w[0 + 1]) in links;
    }
    if Link(start, node) in links {
      var w := [start, node];
      assert IsWalk(links, w) && w[0] == start && w[|w| - 1] == node && |w| == 1 + 1;
    }
  }

  /** At depth one a query without a limit lists exactly the other ends of the edges out of, or into, the file. */
  lemma DirectNeighbors(edges: set<Edge>, start: Path, node: Path)
    requires node != start
    ensures node in Neighbors(edges, start, Out, 1, None, None, None) <==>
              exists e | e in edges :: e.src == start && e.dst == node
    ensures node in Neighbors(edges, start, In, 1, None, None, None) <==>
              exists e | e in edges :: e.dst == start && e.src == node
  {
    DirectNeighborsAre(edges, start, Out, node);
    DirectNeighborsAre(edges, start, In, node);
    StepsFollowEdges(edges, start, node);
  }

  lemma DirectNeighborsAre(edges: set<Edge>, start: Path, direction: Direction, node: Path)
    requires node != start
    ensures node in Neighbors(edges, start, direction, 1, None, None, None) <==>
              Link(start, node) in Oriented(edges, direction)
  {
    hide Selected, IsDistance, Oriented;
    var links := Oriented(edges, direction);
    SelectedListsBall(links, start, 1);
    OneStep(links, start, node);
  }
}
