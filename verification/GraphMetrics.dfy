/**
 * Fan-in, fan-out and SCC ids of the file graph, kept up to date by patching:
 * `backend/app/graph.py` and the edge and node part of `backend/app/scan.py`.
 */
module GraphMetrics {
  import opened Basics
  import opened FileGraph

  /** What a FileNode row keeps for the graph. */
  datatype Row = Row(fanIn: int, fanOut: int, sccId: int)

  /** The FileNode and FileEdge rows of one project; edges are unique by source, target and kind. */
  datatype Db = Db(nodes: map<Path, Row>, edges: set<Edge>)

  datatype Settings = Settings(
    computeScc: bool, sccMaxNodes: int, sccMaxEdges: int,
    incrementalMaxPaths: int, maxComponentNodes: int, maxComponentEdges: int,
    deferNodes: int, deferEdges: int)

  // ----- Edge queries -----

  function Links(edges: set<Edge>): set<Link> {
    set e | e in edges :: Link(e.src, e.dst)
  }

  function InCount(edges: set<Edge>, p: Path): nat {
    |set e | e in edges && e.dst == p|
  }

  function OutCount(edges: set<Edge>, p: Path): nat {
    |set e | e in edges && e.src == p|
  }

  // ----- Reachability and strongly connected components -----

  ghost predicate Reaches(links: set<Link>, p: Path, q: Path) {
    exists w :: IsWalk(links, w) && w[0] == p && w[|w| - 1] == q
  }

  ghost predicate Mutual(links: set<Link>, p: Path, q: Path) {
    Reaches(links, p, q) && Reaches(links, q, p)
  }

  /** A numbering of the strongly connected components of a graph. */
  ghost predicate Numbers(ids: map<Path, nat>, nodes: set<Path>, links: set<Link>) {
    && (forall p | p in nodes :: p in ids)
    && (forall l | l in links :: l.src in ids && l.dst in ids)
    && (forall p, q {:trigger Mutual(links, p, q)} | p in ids && q in ids :: ids[p] == ids[q] <==> Mutual(links, p, q))
  }

  // ----- The invariants -----

  /** Every node's fan counts are its edge-row counts. */
  ghost predicate FansExact(db: Db) {
    forall p | p in db.nodes :: FanExact(db, p)
  }

  ghost predicate FanExact(db: Db, p: Path)
    requires p in db.nodes
  {
    db.nodes[p].fanIn == InCount(db.edges, p) && db.nodes[p].fanOut == OutCount(db.edges, p)
  }

  /** Mutually reachable files carry the same SCC id. */
  ghost predicate SccSound(db: Db) {
    forall p, q {:trigger Mutual(Links(db.edges), p, q)}
      | p in db.nodes && q in db.nodes && Mutual(Links(db.edges), p, q) ::
      db.nodes[p].sccId == db.nodes[q].sccId
  }

  /** Within `paths`, a shared SCC id also means mutual reachability. */
  ghost predicate SccExactOn(db: Db, paths: set<Path>) {
    forall p, q {:trigger Mutual(Links(db.edges), p, q)}
      | p in db.nodes && q in db.nodes && p in paths && q in paths ::
      db.nodes[p].sccId == db.nodes[q].sccId <==> Mutual(Links(db.edges), p, q)
  }

  ghost predicate WithinSccCaps(cfg: Settings, db: Db) {
    |db.nodes| <= cfg.sccMaxNodes && |db.edges| <= cfg.sccMaxEdges
  }

  // ----- The write stage of a scan -----

  /**
   * What the prepare stage hands over: files found, files gone, node rows and edges to write.
   * Rows and edges belong to files found.
   */
  datatype Scan = Scan(present: set<Path>, removed: set<Path>, rows: set<Path>, added: set<Edge>) {
    predicate Valid() {
      present !! removed && rows <= present && forall e | e in added :: e.src in present
    }
  }

  function DeletedEdges(edges: set<Edge>, scan: Scan): set<Edge> {
    set e | e in edges && (e.src in scan.present || e.src in scan.removed || e.dst in scan.removed)
  }

  /** `removed_edge_neighbors`: both ends of every edge the write stage is about to delete. */
  function EdgeNeighbors(edges: set<Edge>, scan: Scan): set<Path> {
    Ends(DeletedEdges(edges, scan))
  }

  function WriteScan(db: Db, scan: Scan): Db {
    var kept := db.nodes - scan.removed;
    Db(map p | p in kept.Keys + scan.rows :: if p in kept then kept[p] else Row(0, 0, -1),
       db.edges - DeletedEdges(db.edges, scan) + scan.added)
  }

  // ----- The component of the changed files -----

  ghost predicate Closed(edges: set<Edge>, paths: set<Path>) {
    forall e | e in edges && (e.src in paths || e.dst in paths) :: e.src in paths && e.dst in paths
  }

  /** The files connected to `seeds` when edge directions are ignored: the least closed set around them. */
  ghost function Component(edges: set<Edge>, seeds: set<Path>): (c: set<Path>)
    ensures seeds <= c && Closed(edges, c)
    ensures forall d: set<Path> | seeds <= d && Closed(edges, d) :: c <= d
  {
    var all := seeds + Ends(edges);
    assert Closed(edges, all);
    set p | p in all && forall d: set<Path> | seeds <= d && Closed(edges, d) :: p in d
  }

  // ----- What an update may do -----

  /** Full recompute: every row is written; with the edge cap exceeded the SCC graph has no edges. */
  ghost predicate Recomputed(cfg: Settings, db: Db, after: Db) {
    && after.edges == db.edges
    && after.nodes.Keys == db.nodes.Keys
    && (forall p | p in db.nodes :: FanExact(after, p))
    && if !cfg.computeScc || |db.nodes| > cfg.sccMaxNodes || cfg.sccMaxEdges < 0
       then forall p | p in db.nodes :: after.nodes[p].sccId == -1
       else exists ids :: Numbers(ids, db.nodes.Keys, SccLinks(cfg, db))
                          && forall p | p in db.nodes :: after.nodes[p].sccId == ids[p]
  }

  function SccLinks(cfg: Settings, db: Db): set<Link> {
    if |db.nodes| <= cfg.sccMaxNodes && |db.edges| <= cfg.sccMaxEdges then Links(db.edges) else {}
  }

  function ShouldDefer(cfg: Settings, db: Db): bool {
    cfg.deferNodes > 0 && cfg.deferEdges > 0 && (|db.nodes| >= cfg.deferNodes || |db.edges| >= cfg.deferEdges)
  }

  /** The recompute, or nothing yet when it is handed to a background task. */
  ghost predicate MaybeRecomputed(cfg: Settings, db: Db, background: bool, after: Db, pending: bool) {
    if background && ShouldDefer(cfg, db) then after == db && pending
    else Recomputed(cfg, db, after) && !pending
  }

  function Affected(edges: set<Edge>, changed: set<Path>, neighbors: set<Path>): set<Path> {
    changed + neighbors + Ends(Touching(edges, changed))
  }

  ghost predicate TooLarge(cfg: Settings, edges: set<Edge>, component: set<Path>) {
    |component| > cfg.maxComponentNodes || |Links(Touching(edges, component))| > cfg.maxComponentEdges
  }

  predicate Shrinks(db: Db, changed: set<Path>) {
    exists p | p in changed ::
      p !in db.nodes || InCount(db.edges, p) < db.nodes[p].fanIn || OutCount(db.edges, p) < db.nodes[p].fanOut
  }

  ghost predicate FallsBack(cfg: Settings, db: Db, changed: set<Path>) {
    || |changed| > cfg.incrementalMaxPaths
    || TooLarge(cfg, db.edges, Component(db.edges, changed))
    || Shrinks(db, changed)
  }

  /** The rows an incremental update writes: fans of affected files, SCC ids of the component. */
  ghost predicate Patched(cfg: Settings, db: Db, changed: set<Path>, neighbors: set<Path>, after: Db) {
    var component := Component(db.edges, changed);
    && after.edges == db.edges
    && after.nodes.Keys == db.nodes.Keys
    && (forall p | p in db.nodes ::
          if p in Affected(db.edges, changed, neighbors) then FanExact(after, p)
          else after.nodes[p].fanIn == db.nodes[p].fanIn && after.nodes[p].fanOut == db.nodes[p].fanOut)
    && (forall p | p in db.nodes && (p !in component || !cfg.computeScc) ::
          after.nodes[p].sccId == db.nodes[p].sccId)
    && (cfg.computeScc ==>
          exists ids ::
            && Numbers(ids, component, Links(Touching(db.edges, component)))
            && forall p | p in db.nodes && p in component :: after.nodes[p].sccId == ids[p])
  }

  ghost predicate Updated(
    cfg: Settings, db: Db, changed: set<Path>, neighbors: set<Path>, background: bool, after: Db, pending: bool)
  {
    if changed == {} then after == db && !pending
    else if FallsBack(cfg, db, changed) then MaybeRecomputed(cfg, db, background, after, pending)
    else Patched(cfg, db, changed, neighbors, after) && !pending
  }

  // ----- Fan counts -----

  /** A file no deleted and no added edge touches keeps its counts. */
  lemma CountsKept(db: Db, scan: Scan, p: Path)
    requires p !in EdgeNeighbors(db.edges, scan)
    requires forall e | e in scan.added :: e.src != p && e.dst != p
    ensures InCount(WriteScan(db, scan).edges, p) == InCount(db.edges, p)
    ensures OutCount(WriteScan(db, scan).edges, p) == OutCount(db.edges, p)
  {
    var edges := WriteScan(db, scan).edges;
    forall e | e in DeletedEdges(db.edges, scan) ensures e.src != p && e.dst != p {
      assert e.src in EdgeNeighbors(db.edges, scan) && e.dst in EdgeNeighbors(db.edges, scan);
    }
    assert (set e | e in edges && e.dst == p) == (set e | e in db.edges && e.dst == p);
    assert (set e | e in edges && e.src == p) == (set e | e in db.edges && e.src == p);
  }

  /** Scanning changed files and then updating keeps all fan counts exact, whatever branch is taken. */
  lemma UpdateKeepsFans(cfg: Settings, db: Db, scan: Scan, changed: set<Path>, background: bool, after: Db, pending: bool)
    requires FansExact(db) && scan.Valid() && scan.present + scan.removed <= changed
    requires Updated(cfg, WriteScan(db, scan), changed, EdgeNeighbors(db.edges, scan), background, after, pending)
    ensures pending || FansExact(after)
  {
    var mid := WriteScan(db, scan);
    if changed == {} {
      forall p | p in after.nodes ensures FanExact(after, p) {
        CountsKept(db, scan, p);
        assert FanExact(db, p);
      }
    } else if !FallsBack(cfg, mid, changed) {
      forall p | p in after.nodes ensures FanExact(after, p) {
        if p !in Affected(mid.edges, changed, EdgeNeighbors(db.edges, scan)) {
          forall e | e in scan.added ensures e.src != p && e.dst != p {
            assert e in Touching(mid.edges, changed);
          }
          CountsKept(db, scan, p);
          assert p in db.nodes && FanExact(db, p);
        }
      }
    }
  }

  // ----- SCC ids -----

  /** A walk that starts in a closed set stays in it and uses only its edges. */
  lemma WalkStaysInside(edges: set<Edge>, paths: set<Path>, w: seq<Path>)
    requires Closed(edges, paths) && IsWalk(Links(edges), w) && w[0] in paths
    ensures w[|w| - 1] in paths
    ensures IsWalk(Links(Touching(edges, paths)), w)
  {
    var i := 0;
    while i < |w| - 1
      invariant 0 <= i < |w|
      invariant w[i] in paths
      invariant forall j | 0 <= j < i :: Link(w[j], w[j + 1]) in Links(Touching(edges, paths))
    {
      assert Link(w[i], w[i + 1]) in Links(edges);
      var e :| e in edges && Link(e.src, e.dst) == Link(w[i], w[i + 1]);
      assert e in Touching(edges, paths);
      i := i + 1;
    }
  }

  /** A walk that starts outside a closed set stays outside. */
  lemma WalkStaysOutside(edges: set<Edge>, paths: set<Path>, w: seq<Path>)
    requires Closed(edges, paths) && IsWalk(Links(edges), w) && w[0] !in paths
    ensures w[|w| - 1] !in paths
    ensures IsWalk(Links(edges - Touching(edges, paths)), w)
  {
    var i := 0;
    while i < |w| - 1
      invariant 0 <= i < |w|
      invariant w[i] !in paths
      invariant forall j | 0 <= j < i :: Link(w[j], w[j + 1]) in Links(edges - Touching(edges, paths))
    {
      assert Link(w[i], w[i + 1]) in Links(edges);
      var e :| e in edges && Link(e.src, e.dst) == Link(w[i], w[i + 1]);
      assert e in edges - Touching(edges, paths);
      i := i + 1;
    }
  }

  lemma MoreLinksReach(fewer: set<Link>, more: set<Link>, p: Path, q: Path)
    requires fewer <= more && Reaches(fewer, p, q)
    ensures Reaches(more, p, q)
  {
    var w :| IsWalk(fewer, w) && w[0] == p && w[|w| - 1] == q;
    assert IsWalk(more, w);
  }

  /** Reachability from a closed set is decided by the edges that touch it. */
  lemma ReachesInside(edges: set<Edge>, paths: set<Path>, p: Path, q: Path)
    requires Closed(edges, paths) && p in paths
    ensures Reaches(Links(edges), p, q) <==> Reaches(Links(Touching(edges, paths)), p, q)
    ensures Reaches(Links(edges), p, q) ==> q in paths
  {
    if Reaches(Links(edges), p, q) {
      var w :| IsWalk(Links(edges), w) && w[0] == p && w[|w| - 1] == q;
      WalkStaysInside(edges, paths, w);
    }
    if Reaches(Links(Touching(edges, paths)), p, q) {
      MoreLinksReach(Links(Touching(edges, paths)), Links(edges), p, q);
    }
  }

  lemma ReachesOutside(edges: set<Edge>, paths: set<Path>, p: Path, q: Path)
    requires Closed(edges, paths) && p !in paths && Reaches(Links(edges), p, q)
    ensures q !in paths && Reaches(Links(edges - Touching(edges, paths)), p, q)
  {
    var w :| IsWalk(Links(edges), w) && w[0] == p && w[|w| - 1] == q;
    WalkStaysOutside(edges, paths, w);
  }

  /** Inside the component of the last incremental update, SCC ids are exact. */
  lemma PatchedSccExact(cfg: Settings, db: Db, changed: set<Path>, neighbors: set<Path>, after: Db)
    requires cfg.computeScc && Patched(cfg, db, changed, neighbors, after)
    ensures SccExactOn(after, Component(db.edges, changed))
  {
    var component := Component(db.edges, changed);
    forall p, q | p in component && q in component
      ensures Mutual(Links(db.edges), p, q) <==> Mutual(Links(Touching(db.edges, component)), p, q)
    {
      ReachesInside(db.edges, component, p, q);
      ReachesInside(db.edges, component, q, p);
    }
  }

  /** After a full recompute within the caps, SCC ids are exact everywhere. */
  lemma RecomputedSccExact(cfg: Settings, db: Db, after: Db)
    requires cfg.computeScc && WithinSccCaps(cfg, db) && Recomputed(cfg, db, after)
    ensures SccExactOn(after, after.nodes.Keys) && SccSound(after)
  {
  }

  lemma WalkNeedsLinks(links: set<Link>, w: seq<Path>)
    requires IsWalk(links, w)
    ensures |w| > 1 ==> links != {}
  {
    if |w| > 1 {
      assert Link(w[0], w[0 + 1]) in links;
    }
  }

  lemma NoLinksNoReach(p: Path, q: Path)
    ensures Mutual({}, p, q) <==> p == q
  {
    var none: set<Link> := {};
    if w: seq<Path> :| IsWalk(none, w) && w[0] == p && w[|w| - 1] == q {
      WalkNeedsLinks(none, w);
    }
    MutualIsEquivalence({}, p, p, p);
  }

  /** Some two different files reach each other. */
  ghost predicate HasCycle(db: Db) {
    exists p, q {:trigger Mutual(Links(db.edges), p, q)} ::
      p in db.nodes && q in db.nodes && p != q && Mutual(Links(db.edges), p, q)
  }

  /**
   * When a recompute keeps mutually reachable files together: unless the edge cap alone is exceeded,
   * for then the SCC graph is built without edges and every file of a cycle gets an id of its own.
   */
  lemma RecomputedSccSoundIff(cfg: Settings, db: Db, after: Db)
    requires cfg.computeScc && Recomputed(cfg, db, after)
    ensures SccSound(after) <==>
            !(|db.nodes| <= cfg.sccMaxNodes && 0 <= cfg.sccMaxEdges < |db.edges| && HasCycle(db))
  {
    if |db.nodes| <= cfg.sccMaxNodes && 0 <= cfg.sccMaxEdges < |db.edges| {
      forall p, q | p in db.nodes && q in db.nodes
        ensures after.nodes[p].sccId == after.nodes[q].sccId <==> p == q
      {
        NoLinksNoReach(p, q);
      }
      assert after.edges == db.edges;
    } else if |db.nodes| <= cfg.sccMaxNodes && 0 <= cfg.sccMaxEdges {
      RecomputedSccExact(cfg, db, after);
    }
  }

  /** Two files that import each other. */
  function TwoCycle(): set<Edge> {
    {Edge("a", "b", "import"), Edge("b", "a", "import")}
  }

  function TwoFiles(a: Row, b: Row): Db {
    Db(map["a" := a, "b" := b], TwoCycle())
  }

  lemma TwoCycleCounts()
    ensures InCount(TwoCycle(), "a") == 1 && OutCount(TwoCycle(), "a") == 1
    ensures InCount(TwoCycle(), "b") == 1 && OutCount(TwoCycle(), "b") == 1
    ensures |TwoCycle()| == 2
  {
    var edges, ab, ba := TwoCycle(), Edge("a", "b", "import"), Edge("b", "a", "import");
    assert (set e | e in edges && e.dst == "a") == {ba} && (set e | e in edges && e.dst == "b") == {ab};
    assert (set e | e in edges && e.src == "a") == {ab} && (set e | e in edges && e.src == "b") == {ba};
  }

  lemma OneLinkReaches(links: set<Link>, p: Path, q: Path)
    requires Link(p, q) in links
    ensures Reaches(links, p, q)
  {
    var w: seq<Path> := [p, q];
    assert IsWalk(links, w) && w[0] == p && w[|w| - 1] == q;
  }

  lemma TwoCycleIsMutual()
    ensures Mutual(Links(TwoCycle()), "a", "b")
  {
    hide Reaches;
    assert Edge("a", "b", "import") in TwoCycle() && Edge("b", "a", "import") in TwoCycle();
    OneLinkReaches(Links(TwoCycle()), "a", "b");
    OneLinkReaches(Links(TwoCycle()), "b", "a");
  }

  lemma NumbersWithoutLinks(ids: map<Path, nat>)
    requires forall p, q | p in ids && q in ids && ids[p] == ids[q] :: p == q
    ensures Numbers(ids, ids.Keys, {})
  {
    hide Mutual;
    forall p, q | p in ids && q in ids ensures ids[p] == ids[q] <==> Mutual({}, p, q) {
      NoLinksNoReach(p, q);
    }
  }

  /** Under a cap of one edge the recompute of the two files gives them different ids. */
  lemma CycleSplitByEdgeCap(cfg: Settings, row: Row) returns (after: Db)
    requires cfg.computeScc && cfg.sccMaxNodes >= 2 && cfg.sccMaxEdges == 1
    ensures Mutual(Links(TwoCycle()), "a", "b") && Recomputed(cfg, TwoFiles(row, row), after)
    ensures after == TwoFiles(Row(1, 1, 0), Row(1, 1, 1))
  {
    hide InCount, OutCount, Mutual, Numbers, Links, TwoCycle;
    var db := TwoFiles(row, row);
    after := TwoFiles(Row(1, 1, 0), Row(1, 1, 1));
    TwoCycleCounts();
    TwoCycleIsMutual();
    var ids: map<Path, nat> := map["a" := 0, "b" := 1];
    NumbersWithoutLinks(ids);
    assert db.nodes.Keys == ids.Keys == {"a", "b"} && after.nodes.Keys == db.nodes.Keys;
    assert |db.nodes| == |db.nodes.Keys| == 2;
    assert SccLinks(cfg, db) == {};
  }

  /** Mutual reachability outside the component is older than the scan. */
  lemma OutsideIsOld(db: Db, scan: Scan, changed: set<Path>, p: Path, q: Path)
    requires scan.Valid() && scan.present + scan.removed <= changed
    requires var mid := WriteScan(db, scan);
             p !in Component(mid.edges, changed) && Reaches(Links(mid.edges), p, q)
    ensures q !in Component(WriteScan(db, scan).edges, changed) && Reaches(Links(db.edges), p, q)
  {
    var mid := WriteScan(db, scan);
    var component := Component(mid.edges, changed);
    ReachesOutside(mid.edges, component, p, q);
    var far := mid.edges - Touching(mid.edges, component);
    assert far <= db.edges;
    assert Links(far) <= Links(db.edges);
    MoreLinksReach(Links(far), Links(db.edges), p, q);
  }

  /** Scanning changed files and then updating keeps mutually reachable files on one SCC id. */
  lemma UpdateKeepsScc(cfg: Settings, db: Db, scan: Scan, changed: set<Path>, background: bool, after: Db, pending: bool)
    requires cfg.computeScc && WithinSccCaps(cfg, WriteScan(db, scan))
    requires SccSound(db) && scan.Valid() && scan.present + scan.removed <= changed
    requires Updated(cfg, WriteScan(db, scan), changed, EdgeNeighbors(db.edges, scan), background, after, pending)
    ensures pending || SccSound(after)
  {
    var mid := WriteScan(db, scan);
    if changed == {} {
      NothingScanned(db, scan);
    } else if FallsBack(cfg, mid, changed) {
      hide Component, WriteScan, EdgeNeighbors, FallsBack, Recomputed, SccSound;
      if !pending {
        RecomputedSccExact(cfg, mid, after);
      }
    } else {
      hide Component, WriteScan, EdgeNeighbors, FallsBack, Patched, SccSound;
      PatchKeepsScc(cfg, db, scan, changed, after);
    }
  }

  /** A scan that found nothing writes nothing. */
  lemma NothingScanned(db: Db, scan: Scan)
    requires scan.Valid() && scan.present + scan.removed == {}
    ensures WriteScan(db, scan) == db
  {
    assert scan.added == {} && scan.rows == {} && DeletedEdges(db.edges, scan) == {};
    assert WriteScan(db, scan).nodes == db.nodes;
    assert WriteScan(db, scan).edges == db.edges;
  }

  lemma PatchKeepsScc(cfg: Settings, db: Db, scan: Scan, changed: set<Path>, after: Db)
    requires cfg.computeScc && SccSound(db) && scan.Valid() && scan.present + scan.removed <= changed
    requires Patched(cfg, WriteScan(db, scan), changed, EdgeNeighbors(db.edges, scan), after)
    ensures SccSound(after)
  {
    hide Component, WriteScan, EdgeNeighbors, DeletedEdges, Ends, Touching, Links, Reaches, Patched, Affected, Closed;
    var mid := WriteScan(db, scan);
    var component := Component(mid.edges, changed);
    PatchedSccExact(cfg, mid, changed, EdgeNeighbors(db.edges, scan), after);
    PatchKeepsGraph(cfg, mid, changed, EdgeNeighbors(db.edges, scan), after);
    forall p, q | p in after.nodes && q in after.nodes && Mutual(Links(after.edges), p, q)
      ensures after.nodes[p].sccId == after.nodes[q].sccId
    {
      if p in component {
        ReachesInside(mid.edges, component, p, q);
      } else {
        OutsideIsOld(db, scan, changed, p, q);
        OutsideIsOld(db, scan, changed, q, p);
        OutsideRowKept(cfg, db, scan, changed, after, p);
        OutsideRowKept(cfg, db, scan, changed, after, q);
        assert Mutual(Links(db.edges), p, q);
      }
    }
  }

  lemma PatchKeepsGraph(cfg: Settings, db: Db, changed: set<Path>, neighbors: set<Path>, after: Db)
    requires Patched(cfg, db, changed, neighbors, after)
    ensures after.edges == db.edges && after.nodes.Keys == db.nodes.Keys
  {
    hide Component, Touching, Links, Affected;
  }

  lemma OutsideRowKept(cfg: Settings, db: Db, scan: Scan, changed: set<Path>, after: Db, p: Path)
    requires scan.Valid() && scan.present + scan.removed <= changed
    requires Patched(cfg, WriteScan(db, scan), changed, EdgeNeighbors(db.edges, scan), after)
    requires p in after.nodes && p !in Component(WriteScan(db, scan).edges, changed)
    ensures p in db.nodes && after.nodes[p].sccId == db.nodes[p].sccId
  {
  }

  // ----- Whole runs -----

  /** One file mutation: the scan of the changed files, unless it was aborted, and the update after it. */
  datatype Mutation = Mutation(scan: Scan, changed: set<Path>, aborted: bool)

  ghost predicate Mutates(cfg: Settings, m: Mutation, db: Db, after: Db) {
    && m.scan.Valid() && m.scan.present + m.scan.removed <= m.changed
    && if m.aborted then after == db
       else Updated(cfg, WriteScan(db, m.scan), m.changed, EdgeNeighbors(db.edges, m.scan), false, after, false)
  }

  ghost predicate IsRun(cfg: Settings, ms: seq<Mutation>, dbs: seq<Db>) {
    |dbs| == |ms| + 1 && forall i | 0 <= i < |ms| :: Mutates(cfg, ms[i], dbs[i], dbs[i + 1])
  }

  /**
   * What a mutation leaves: rows of files gone are out, those written are in, and the edges of files found are
   * the ones just written. The update is given new rows blank and kept rows as they were.
   */
  lemma MutationWrites(cfg: Settings, m: Mutation, db: Db, after: Db) returns (mid: Db)
    requires Mutates(cfg, m, db, after) && !m.aborted
    ensures Updated(cfg, mid, m.changed, EdgeNeighbors(db.edges, m.scan), false, after, false)
    ensures forall p :: p in after.nodes <==> p in mid.nodes
    ensures forall p :: p in mid.nodes <==> (p in db.nodes && p !in m.scan.removed) || p in m.scan.rows
    ensures forall p | p in mid.nodes ::
              mid.nodes[p] == if p in db.nodes && p !in m.scan.removed then db.nodes[p] else Row(0, 0, -1)
    ensures forall e :: e in after.edges <==> e in mid.edges
    ensures forall e :: e in mid.edges <==>
              || e in m.scan.added
              || (e in db.edges && !(e.src in m.scan.present || e.src in m.scan.removed || e.dst in m.scan.removed))
  {
    hide Updated;
    mid := WriteScan(db, m.scan);
    UpdateKeepsGraph(cfg, mid, m.changed, EdgeNeighbors(db.edges, m.scan), false, after, false);
  }

  /** The mutation deletes the edge if it is there. */
  predicate Deletes(m: Mutation, e: Edge) {
    !m.aborted && (e.src in m.scan.present || e.src in m.scan.removed || e.dst in m.scan.removed)
  }

  /** The file has a row at the start (`k == 0`) or from the mutation before `k`, and is not removed from then on. */
  ghost predicate RowLasts(ms: seq<Mutation>, db: Db, p: Path, k: nat, n: nat)
    requires k <= n <= |ms|
  {
    && (if k == 0 then p in db.nodes else !ms[k - 1].aborted && p in ms[k - 1].scan.rows)
    && forall j | k <= j < n :: ms[j].aborted || p !in ms[j].scan.removed
  }

  ghost predicate EdgeLasts(ms: seq<Mutation>, db: Db, e: Edge, k: nat, n: nat)
    requires k <= n <= |ms|
  {
    && (if k == 0 then e in db.edges else !ms[k - 1].aborted && e in ms[k - 1].scan.added)
    && forall j | k <= j < n :: !Deletes(ms[j], e)
  }

  /** Over every sequence of mutations the files with a row are those last written after they were last removed. */
  lemma {:induction false} RunKeepsRows(cfg: Settings, ms: seq<Mutation>, dbs: seq<Db>, n: nat, p: Path)
    requires IsRun(cfg, ms, dbs) && n < |dbs|
    ensures p in dbs[n].nodes <==> exists k: nat | k <= n :: RowLasts(ms, dbs[0], p, k, n)
    decreases n
  {
    hide Mutates;
    if n == 0 {
      assert p in dbs[0].nodes <==> RowLasts(ms, dbs[0], p, 0, 0);
    } else {
      var m := ms[n - 1];
      RunKeepsRows(cfg, ms, dbs, n - 1, p);
      assert Mutates(cfg, m, dbs[n - 1], dbs[n]);
      MutationRow(cfg, m, dbs[n - 1], dbs[n], p);
      if p in dbs[n].nodes {
        if !m.aborted && p in m.scan.rows {
          assert RowLasts(ms, dbs[0], p, n, n);
        } else {
          var k: nat :| k <= n - 1 && RowLasts(ms, dbs[0], p, k, n - 1);
          assert RowLasts(ms, dbs[0], p, k, n);
        }
      }
      if k: nat :| k <= n && RowLasts(ms, dbs[0], p, k, n) {
        assert k < n ==> RowLasts(ms, dbs[0], p, k, n - 1);
      }
    }
  }

  lemma MutationRow(cfg: Settings, m: Mutation, db: Db, after: Db, p: Path)
    requires Mutates(cfg, m, db, after)
    ensures p in after.nodes <==>
              (p in db.nodes && (m.aborted || p !in m.scan.removed)) || (!m.aborted && p in m.scan.rows)
  {
    hide Updated, WriteScan;
    if !m.aborted {
      var mid := MutationWrites(cfg, m, db, after);
    }
  }

  /** Over every sequence of mutations the edges are those last written after they were last deleted. */
  lemma {:induction false} RunKeepsEdges(cfg: Settings, ms: seq<Mutation>, dbs: seq<Db>, n: nat, e: Edge)
    requires IsRun(cfg, ms, dbs) && n < |dbs|
    ensures e in dbs[n].edges <==> exists k: nat | k <= n :: EdgeLasts(ms, dbs[0], e, k, n)
    decreases n
  {
    hide Mutates;
    if n == 0 {
      assert e in dbs[0].edges <==> EdgeLasts(ms, dbs[0], e, 0, 0);
    } else {
      var m := ms[n - 1];
      RunKeepsEdges(cfg, ms, dbs, n - 1, e);
      assert Mutates(cfg, m, dbs[n - 1], dbs[n]);
      MutationEdge(cfg, m, dbs[n - 1], dbs[n], e);
      if e in dbs[n].edges {
        if !m.aborted && e in m.scan.added {
          assert EdgeLasts(ms, dbs[0], e, n, n);
        } else {
          var k: nat :| k <= n - 1 && EdgeLasts(ms, dbs[0], e, k, n - 1);
          assert EdgeLasts(ms, dbs[0], e, k, n);
        }
      }
      if k: nat :| k <= n && EdgeLasts(ms, dbs[0], e, k, n) {
        assert k < n ==> EdgeLasts(ms, dbs[0], e, k, n - 1);
      }
    }
  }

  lemma MutationEdge(cfg: Settings, m: Mutation, db: Db, after: Db, e: Edge)
    requires Mutates(cfg, m, db, after)
    ensures e in after.edges <==> (e in db.edges && !Deletes(m, e)) || (!m.aborted && e in m.scan.added)
  {
    hide Updated, WriteScan;
    if !m.aborted {
      var mid := MutationWrites(cfg, m, db, after);
    }
  }

  /**
   * When an update after exact counts gives the incremental branch up: too many changed files, too large a
   * component, or a changed file without a row or with fewer edges, in or out, than before the scan.
   */
  lemma FallsBackIff(cfg: Settings, db: Db, scan: Scan, changed: set<Path>)
    requires FansExact(db)
    ensures var mid := WriteScan(db, scan);
            var component := Component(mid.edges, changed);
            FallsBack(cfg, mid, changed) <==>
              || |changed| > cfg.incrementalMaxPaths
              || |component| > cfg.maxComponentNodes
              || |Links(Touching(mid.edges, component))| > cfg.maxComponentEdges
              || exists p | p in changed ::
                   || !((p in db.nodes && p !in scan.removed) || p in scan.rows)
                   || (p in db.nodes && p !in scan.removed
                       && (InCount(mid.edges, p) < InCount(db.edges, p) || OutCount(mid.edges, p) < OutCount(db.edges, p)))
  {
    hide Component, InCount, OutCount, Links, Touching;
    var mid := WriteScan(db, scan);
    forall p | p in db.nodes && p !in scan.removed
      ensures db.nodes[p].fanIn == InCount(db.edges, p) && db.nodes[p].fanOut == OutCount(db.edges, p)
    {
      assert FanExact(db, p);
    }
    assert forall p | p in mid.nodes ::
      mid.nodes[p] == if p in db.nodes && p !in scan.removed then db.nodes[p] else Row(0, 0, -1);
  }

  /**
   * What the two branches are good for: given up, an update within the caps makes the SCC ids exact for all
   * files; otherwise it leaves alone every row that no changed, neighbouring or connected file stands for.
   */
  lemma UpdateBranches(
    cfg: Settings, db: Db, changed: set<Path>, neighbors: set<Path>, background: bool, after: Db, pending: bool)
    requires changed != {} && Updated(cfg, db, changed, neighbors, background, after, pending)
    ensures FallsBack(cfg, db, changed) && !pending && cfg.computeScc && WithinSccCaps(cfg, db) ==>
              SccExactOn(after, after.nodes.Keys)
    ensures !FallsBack(cfg, db, changed) ==>
              forall p | p in db.nodes && p !in Component(db.edges, changed) && p !in Affected(db.edges, changed, neighbors) ::
                p in after.nodes && after.nodes[p] == db.nodes[p]
  {
    hide Component, FallsBack, Affected, SccExactOn, Numbers, FanExact;
    if FallsBack(cfg, db, changed) && !pending && cfg.computeScc && WithinSccCaps(cfg, db) {
      RecomputedSccExact(cfg, db, after);
    }
  }

  /** Over every sequence of mutations the fan counts stay exact. */
  lemma {:induction false} RunKeepsFans(cfg: Settings, ms: seq<Mutation>, dbs: seq<Db>, n: nat)
    requires IsRun(cfg, ms, dbs) && n < |dbs| && FansExact(dbs[0])
    ensures FansExact(dbs[n])
    decreases n
  {
    if n > 0 {
      RunKeepsFans(cfg, ms, dbs, n - 1);
      var m := ms[n - 1];
      assert Mutates(cfg, m, dbs[n - 1], dbs[n]);
      if !m.aborted {
        UpdateKeepsFans(cfg, dbs[n - 1], m.scan, m.changed, false, dbs[n], false);
      }
    }
  }

  /** An update changes neither the set of nodes nor the edges. */
  lemma UpdateKeepsGraph(
    cfg: Settings, db: Db, changed: set<Path>, neighbors: set<Path>, background: bool, after: Db, pending: bool)
    requires Updated(cfg, db, changed, neighbors, background, after, pending)
    ensures after.edges == db.edges && after.nodes.Keys == db.nodes.Keys && |after.nodes| == |db.nodes|
  {
    assert |after.nodes| == |after.nodes.Keys| && |db.nodes| == |db.nodes.Keys|;
  }

  /** Over every sequence of mutations within the caps, mutually reachable files share an SCC id. */
  lemma {:induction false} RunKeepsScc(cfg: Settings, ms: seq<Mutation>, dbs: seq<Db>, n: nat)
    requires cfg.computeScc && IsRun(cfg, ms, dbs) && n < |dbs| && SccSound(dbs[0])
    requires forall db | db in dbs :: WithinSccCaps(cfg, db)
    ensures SccSound(dbs[n])
    decreases n
  {
    if n > 0 {
      RunKeepsScc(cfg, ms, dbs, n - 1);
      var m := ms[n - 1];
      assert Mutates(cfg, m, dbs[n - 1], dbs[n]);
      if !m.aborted {
        var mid := WriteScan(dbs[n - 1], m.scan);
        UpdateKeepsGraph(cfg, mid, m.changed, EdgeNeighbors(dbs[n - 1].edges, m.scan), false, dbs[n], false);
        assert dbs[n] in dbs;
        UpdateKeepsScc(cfg, dbs[n - 1], m.scan, m.changed, false, dbs[n], false);
      }
    }
  }

  // ----- The update as the source writes it -----

  class Store {
    var nodes: map<Path, Row>
    var edges: set<Edge>
    const cfg: Settings
    /** networkx's strongly connected components, as the index of each node's component. */
    const components: (set<Path>, set<Link>) -> map<Path, nat>

    ghost predicate Valid() {
      forall paths, links :: Numbers(components(paths, links), paths, links)
    }

    function Now(): Db
      reads this
    {
      Db(nodes, edges)
    }

    method ScanFiles(scan: Scan) returns (neighbors: set<Path>)
      requires scan.Valid()
      modifies this`nodes, this`edges
      ensures Now() == WriteScan(old(Now()), scan)
      ensures neighbors == EdgeNeighbors(old(edges), scan)
      ensures forall p :: p in nodes <==> (p in old(nodes) && p !in scan.removed) || p in scan.rows
      ensures forall p | p in nodes ::
                nodes[p] == if p in old(nodes) && p !in scan.removed then old(nodes)[p] else Row(0, 0, -1)
      ensures forall e :: e in edges <==>
                || e in scan.added
                || (e in old(edges) && !(e.src in scan.present || e.src in scan.removed || e.dst in scan.removed))
    {
      var doomed := DeletedEdges(edges, scan);
      neighbors := Ends(doomed);
      DeletedInTwoSteps(edges, scan);
      if scan.removed != {} {
        edges := edges - set e | e in edges && (e.src in scan.removed || e.dst in scan.removed);
        nodes := nodes - scan.removed;
      }
      if scan.present != {} {
        edges := edges - set e | e in edges && e.src in scan.present;
      }
      assert edges == old(edges) - doomed && nodes == old(nodes) - scan.removed;
      nodes := map p | p in nodes.Keys + scan.rows :: if p in nodes then nodes[p] else Row(0, 0, -1);
      edges := edges + scan.added;
    }

    lemma DeletedInTwoSteps(edges: set<Edge>, scan: Scan)
      ensures var fewer := edges - set e | e in edges && (e.src in scan.removed || e.dst in scan.removed);
              fewer - (set e | e in fewer && e.src in scan.present) == edges - DeletedEdges(edges, scan)
      ensures scan.removed == {} ==> edges - (set e | e in edges && (e.src in scan.removed || e.dst in scan.removed)) == edges
      ensures scan.present == {} ==>
                edges - (set e | e in edges && (e.src in scan.removed || e.dst in scan.removed))
                == edges - DeletedEdges(edges, scan)
    {
    }

    /** The rows fetched for one frontier, folded into the component. */
    method Absorb(rows: set<Edge>, paths: set<Path>, links: set<Link>)
      returns (paths': set<Path>, links': set<Link>, next: set<Path>)
      ensures paths' == paths + Ends(rows)
      ensures links' == links + Links(rows)
      ensures next == paths' - paths
    {
      paths', links', next := paths, links, {};
      var todo := rows;
      while todo != {}
        invariant todo <= rows
        invariant paths' == paths + Ends(rows - todo)
        invariant links' == links + Links(rows - todo)
        invariant next == paths' - paths
      {
        var e :| e in todo;
        assert rows - (todo - {e}) == rows - todo + {e};
        AddEdge(rows - todo, e);
        todo := todo - {e};
        links' := links' + {Link(e.src, e.dst)};
        if e.src !in paths' {
          paths' := paths' + {e.src};
          next := next + {e.src};
        }
        if e.dst !in paths' {
          paths' := paths' + {e.dst};
          next := next + {e.dst};
        }
      }
      assert rows - {} == rows;
    }

    /** The component of the changed files, given up when it grows over the limits. */
    method GrowComponent(changed: set<Path>) returns (paths: set<Path>, links: set<Link>, tooLarge: bool)
      requires changed != {}
      ensures tooLarge <==> TooLarge(cfg, edges, Component(edges, changed))
      ensures !tooLarge ==>
                paths == Component(edges, changed) && links == Links(Touching(edges, Component(edges, changed)))
    {
      hide Component, Touching, Ends, Links, Growing, Unread;
      paths, links, tooLarge := changed, {}, false;
      var frontier := changed;
      GrowthStarts(edges, changed);
      while frontier != {}
        invariant Growing(edges, changed, paths, links, frontier)
        invariant frontier == {} ==> !Over(paths, links)
        decreases Unread(edges, changed, paths, frontier)
      {
        var rows := Touching(edges, frontier);
        var paths', links', next := Absorb(rows, paths, links);
        GrowthStep(edges, changed, paths, links, frontier);
        paths, links := paths', links';
        if Over(paths, links) {
          GrowthIsBelow(edges, changed, paths, links, next);
          tooLarge := true;
          return;
        }
        frontier := next;
      }
      GrowthEnds(edges, changed, paths, links);
    }

    predicate Over(paths: set<Path>, links: set<Link>) {
      |paths| > cfg.maxComponentNodes || |links| > cfg.maxComponentEdges
    }

    method Recompute()
      requires Valid()
      modifies this`nodes
      ensures Recomputed(cfg, old(Now()), Now())
      ensures forall p | p in nodes :: nodes[p].fanIn == InCount(edges, p) && nodes[p].fanOut == OutCount(edges, p)
      ensures !cfg.computeScc || |nodes| > cfg.sccMaxNodes ==> forall p | p in nodes :: nodes[p].sccId == -1
    {
      if nodes == map[] {
        ghost var ids := components(nodes.Keys, SccLinks(cfg, Now()));
        assert Numbers(ids, nodes.Keys, SccLinks(cfg, Now()));
        return;
      }
      var links := SccLinks(cfg, Now());
      var ids: map<Path, nat> := map[];
      var numbered := cfg.computeScc && |nodes| <= cfg.sccMaxNodes && 0 <= cfg.sccMaxEdges;
      if numbered {
        ids := components(nodes.Keys, links);
        assert Numbers(ids, nodes.Keys, links);
      }
      nodes := map p | p in nodes ::
        Row(InCount(edges, p), OutCount(edges, p), if p in ids then ids[p] else -1);
    }

    method MaybeRecompute(background: bool) returns (pending: bool)
      requires Valid()
      modifies this`nodes
      ensures MaybeRecomputed(cfg, old(Now()), background, Now(), pending)
      ensures pending <==>
                && background && cfg.deferNodes > 0 && cfg.deferEdges > 0
                && (|nodes| >= cfg.deferNodes || |edges| >= cfg.deferEdges)
      ensures pending ==> nodes == old(nodes)
    {
      if background && ShouldDefer(cfg, Now()) {
        return true;
      }
      Recompute();
      return false;
    }

    method UpdateIncremental(changed: set<Path>, neighbors: set<Path>, background: bool) returns (pending: bool)
      requires Valid()
      modifies this`nodes
      ensures Updated(cfg, old(Now()), changed, neighbors, background, Now(), pending)
    {
      if changed == {} {
        return false;
      }
      if |changed| > cfg.incrementalMaxPaths {
        pending := MaybeRecompute(background);
        return;
      }
      var paths, links, tooLarge := GrowComponent(changed);
      if tooLarge {
        pending := MaybeRecompute(background);
        return;
      }
      var affected := Affected(edges, changed, neighbors);
      if Shrinks(Now(), changed) {
        pending := MaybeRecompute(background);
        return;
      }
      var ids: map<Path, nat> := map[];
      if cfg.computeScc {
        ids := components(paths, links);
        assert Numbers(ids, paths, links);
      }
      nodes := map p | p in nodes ::
        Row(if p in affected then InCount(edges, p) else nodes[p].fanIn,
            if p in affected then OutCount(edges, p) else nodes[p].fanOut,
            if cfg.computeScc && p in paths then (if p in ids then ids[p] else -1) else nodes[p].sccId);
      return false;
    }

    /** One request: scan the changed files, then update the metrics; nothing is deferred. */
    method RunMutation(m: Mutation)
      requires Valid() && m.scan.Valid() && m.scan.present + m.scan.removed <= m.changed
      modifies this`nodes, this`edges
      ensures Mutates(cfg, m, old(Now()), Now())
      ensures m.aborted ==> Now() == old(Now())
      ensures !m.aborted ==> forall p :: p in nodes <==> (p in old(nodes) && p !in m.scan.removed) || p in m.scan.rows
      ensures !m.aborted ==> forall e :: e in edges <==> e in m.scan.added || (e in old(edges) && !Deletes(m, e))
      ensures old(FansExact(Now())) ==> FansExact(Now())
      ensures cfg.computeScc && WithinSccCaps(cfg, Now()) && old(SccSound(Now())) ==> SccSound(Now())
    {
      hide FansExact, SccSound;
      if m.aborted {
        return;
      }
      var neighbors := ScanFiles(m.scan);
      var pending := UpdateIncremental(m.changed, neighbors, false);
      assert !pending;
      if old(FansExact(Now())) {
        UpdateKeepsFans(cfg, old(Now()), m.scan, m.changed, false, Now(), false);
      }
      UpdateKeepsGraph(cfg, WriteScan(old(Now()), m.scan), m.changed, neighbors, false, Now(), false);
      if cfg.computeScc && WithinSccCaps(cfg, Now()) && old(SccSound(Now())) {
        UpdateKeepsScc(cfg, old(Now()), m.scan, m.changed, false, Now(), false);
      }
    }
  }

  lemma AddEdge(edges: set<Edge>, e: Edge)
    ensures Ends(edges + {e}) == Ends(edges) + {e.src, e.dst}
    ensures Links(edges + {e}) == Links(edges) + {Link(e.src, e.dst)}
  {
  }

  lemma EndsOfUnion(a: set<Edge>, b: set<Edge>)
    ensures Ends(a + b) == Ends(a) + Ends(b) && Links(a + b) == Links(a) + Links(b)
  {
  }

  // ----- The frontier loop -----

  /** What the frontier loop has read: every edge of the files found, but for those on the frontier. */
  ghost predicate Growing(edges: set<Edge>, changed: set<Path>, paths: set<Path>, links: set<Link>, frontier: set<Path>) {
    && changed <= paths && frontier <= paths && paths <= Component(edges, changed)
    && links == Links(Touching(edges, paths - frontier))
    && Ends(Touching(edges, paths - frontier)) <= paths
  }

  ghost function Unread(edges: set<Edge>, changed: set<Path>, paths: set<Path>, frontier: set<Path>): nat {
    |Component(edges, changed) - (paths - frontier)|
  }

  lemma GrowthStarts(edges: set<Edge>, changed: set<Path>)
    ensures Growing(edges, changed, changed, {}, changed)
  {
    assert Touching(edges, changed - changed) == {};
  }

  lemma EndsStayInside(edges: set<Edge>, component: set<Path>, frontier: set<Path>)
    requires Closed(edges, component) && frontier <= component
    ensures Ends(Touching(edges, frontier)) <= component
  {
  }

  lemma GrowthStep(edges: set<Edge>, changed: set<Path>, paths: set<Path>, links: set<Link>, frontier: set<Path>)
    requires Growing(edges, changed, paths, links, frontier) && frontier != {}
    ensures var rows := Touching(edges, frontier);
            var paths', links', next := paths + Ends(rows), links + Links(rows), Ends(rows) - paths;
            && Growing(edges, changed, paths', links', next)
            && next == paths' - paths
            && Unread(edges, changed, paths', next) < Unread(edges, changed, paths, frontier)
  {
    hide Component, Ends, Links, Touching;
    PutFront(paths, frontier);
    TouchingUnion(edges, paths - frontier, frontier);
    EndsOfUnion(Touching(edges, paths - frontier), Touching(edges, frontier));
    EndsStayInside(edges, Component(edges, changed), frontier);
    PutBack(paths, Ends(Touching(edges, frontier)));
    FewerUnread(Component(edges, changed), paths, frontier);
  }

  lemma PutFront(paths: set<Path>, frontier: set<Path>)
    requires frontier <= paths
    ensures (paths - frontier) + frontier == paths
  {
  }

  lemma PutBack(paths: set<Path>, ends: set<Path>)
    ensures paths + ends - (ends - paths) == paths
    ensures ends - paths == paths + ends - paths && ends - paths <= paths + ends
  {
  }

  lemma FewerUnread(component: set<Path>, paths: set<Path>, frontier: set<Path>)
    requires frontier <= paths <= component && frontier != {}
    ensures |component - paths| < |component - (paths - frontier)|
  {
    var p :| p in frontier;
    var fewer := component - (paths - frontier) - {p};
    assert component - paths <= fewer;
    SubsetSize(component - paths, fewer);
  }

  lemma GrowthIsBelow(edges: set<Edge>, changed: set<Path>, paths: set<Path>, links: set<Link>, frontier: set<Path>)
    requires Growing(edges, changed, paths, links, frontier)
    ensures |paths| <= |Component(edges, changed)|
    ensures |links| <= |Links(Touching(edges, Component(edges, changed)))|
  {
    hide Component;
    var component := Component(edges, changed);
    SubsetSize(paths, component);
    assert Touching(edges, paths - frontier) <= Touching(edges, component);
    SubsetSize(links, Links(Touching(edges, component)));
  }

  lemma GrowthEnds(edges: set<Edge>, changed: set<Path>, paths: set<Path>, links: set<Link>)
    requires Growing(edges, changed, paths, links, {})
    ensures paths == Component(edges, changed)
    ensures links == Links(Touching(edges, paths))
  {
    hide Component;
    assert paths - {} == paths;
    forall e | e in edges && (e.src in paths || e.dst in paths) ensures e.src in paths && e.dst in paths {
      assert e in Touching(edges, paths);
      assert e.src in Ends(Touching(edges, paths)) && e.dst in Ends(Touching(edges, paths));
    }
    assert Closed(edges, paths);
  }

  // ----- The assumption on networkx can be met -----

  lemma MutualIsEquivalence(links: set<Link>, p: Path, q: Path, r: Path)
    ensures Mutual(links, p, p)
    ensures Mutual(links, p, q) ==> Mutual(links, q, p)
    ensures Mutual(links, p, q) && Mutual(links, q, r) ==> Mutual(links, p, r)
  {
    assert IsWalk(links, [p]) && [p][0] == p;
    if Mutual(links, p, q) && Mutual(links, q, r) {
      ReachesOn(links, p, q, r);
      ReachesOn(links, r, q, p);
    }
  }

  lemma ReachesOn(links: set<Link>, p: Path, q: Path, r: Path)
    requires Reaches(links, p, q) && Reaches(links, q, r)
    ensures Reaches(links, p, r)
  {
    var v :| IsWalk(links, v) && v[0] == p && v[|v| - 1] == q;
    var w :| IsWalk(links, w) && w[0] == q && w[|w| - 1] == r;
    var u := v + w[1..];
    forall i | 0 <= i < |u| - 1 ensures Link(u[i], u[i + 1]) in links {
      if i < |v| - 1 {
        assert Link(v[i], v[i + 1]) in links;
      } else {
        var j := i - |v| + 1;
        assert Link(w[j], w[j + 1]) in links;
        assert u[i] == w[j] && u[i + 1] == w[j + 1];
      }
    }
    assert IsWalk(links, u);
  }

  /** Every finite graph has a numbering of its strongly connected components. */
  lemma {:induction false} NumberingExists(nodes: set<Path>, links: set<Link>)
    ensures exists ids :: Numbers(ids, nodes, links)
  {
    var all := nodes + (set l | l in links :: l.src) + (set l | l in links :: l.dst);
    var ids := Numbering(all, links);
    assert Numbers(ids, nodes, links);
  }

  lemma {:induction false} Numbering(all: set<Path>, links: set<Link>) returns (ids: map<Path, nat>)
    ensures ids.Keys == all
    ensures forall p | p in all :: ids[p] < |all|
    ensures forall p, q | p in all && q in all :: ids[p] == ids[q] <==> Mutual(links, p, q)
  {
    ids := map[];
    if p :| p in all {
      var rest := Numbering(all - {p}, links);
      if q :| q in rest && Mutual(links, p, q) {
        ids := rest[p := rest[q]];
        forall r | r in rest ensures Mutual(links, p, r) <==> rest[r] == rest[q] {
          MutualIsEquivalence(links, p, q, r);
          MutualIsEquivalence(links, q, p, r);
        }
      } else {
        ids := rest[p := |all| - 1];
      }
      forall r | r in rest ensures Mutual(links, p, r) <==> Mutual(links, r, p) {
      }
      MutualIsEquivalence(links, p, p, p);
      assert ids.Keys == all;
    }
  }
}
