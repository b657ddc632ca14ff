/** The capped neighbourhood of a file: `load_local_graph_async` in `backend/app/services/project_service.py`. */
module LocalGraph {
  import opened Basics
  import opened FileGraph

  datatype Reply =
    | BadRequest
    | NotFound
    | Found(nodes: set<Path>, edges: set<Edge>, reached: set<Path>, truncated: bool)

  const MAX_HOPS := 6
  const IN_CHUNK := 400

  // ----- The ball of a file -----

  /** The files within `radius` undirected hops, ring by ring. */
  function Ball(edges: set<Edge>, center: Path, radius: nat): set<Path> {
    if radius == 0 then {center}
    else Ball(edges, center, radius - 1) + Ends(Touching(edges, Ball(edges, center, radius - 1)))
  }

  /** The edges seen when every file of the ball one hop smaller was expanded. */
  function BallEdges(edges: set<Edge>, center: Path, radius: nat): set<Edge> {
    if radius == 0 then {} else Touching(edges, Ball(edges, center, radius - 1))
  }

  ghost predicate Adjacent(edges: set<Edge>, p: Path, q: Path) {
    exists e | e in edges :: (e.src == p && e.dst == q) || (e.src == q && e.dst == p)
  }

  ghost predicate IsUndirectedWalk(edges: set<Edge>, w: seq<Path>) {
    w != [] && forall i | 0 <= i < |w| - 1 :: Adjacent(edges, w[i], w[i + 1])
  }

  ghost predicate Within(edges: set<Edge>, center: Path, p: Path, radius: nat) {
    exists w :: IsUndirectedWalk(edges, w) && w[0] == center && w[|w| - 1] == p && |w| <= radius + 1
  }

  /** The ball is what undirected walks of at most `radius` hops reach. */
  lemma {:induction false} BallIsWithin(edges: set<Edge>, center: Path, p: Path, radius: nat)
    ensures p in Ball(edges, center, radius) <==> Within(edges, center, p, radius)
    decreases radius
  {
    if p in Ball(edges, center, radius) {
      BallHasWalk(edges, center, p, radius);
    }
    if Within(edges, center, p, radius) {
      var w :| IsUndirectedWalk(edges, w) && w[0] == center && w[|w| - 1] == p && |w| <= radius + 1;
      WalkStaysInBall(edges, w, radius);
    }
  }

  lemma {:induction false} BallHasWalk(edges: set<Edge>, center: Path, p: Path, radius: nat)
    requires p in Ball(edges, center, radius)
    ensures Within(edges, center, p, radius)
    decreases radius
  {
    hide Ball;
    if radius == 0 {
      BallZero(edges, center, p);
    } else if p in Ball(edges, center, radius - 1) {
      BallHasWalk(edges, center, p, radius - 1);
    } else {
      var q, e := BallOrigin(edges, center, p, radius);
      BallHasWalk(edges, center, q, radius - 1);
      var w :| IsUndirectedWalk(edges, w) && w[0] == center && w[|w| - 1] == q && |w| <= radius;
      ExtendWalk(edges, w, p, e);
    }
  }

  lemma BallZero(edges: set<Edge>, center: Path, p: Path)
    requires p in Ball(edges, center, 0)
    ensures Within(edges, center, p, 0)
  {
    assert IsUndirectedWalk(edges, [center]);
  }

  lemma BallOrigin(edges: set<Edge>, center: Path, p: Path, radius: nat) returns (q: Path, e: Edge)
    requires radius > 0 && p in Ball(edges, center, radius) && p !in Ball(edges, center, radius - 1)
    ensures q in Ball(edges, center, radius - 1) && e in edges
    ensures (e.src == p && e.dst == q) || (e.dst == p && e.src == q)
  {
    e :| e in Touching(edges, Ball(edges, center, radius - 1)) && (e.src == p || e.dst == p);
    q := if e.src == p then e.dst else e.src;
  }

  lemma BallGoesOn(edges: set<Edge>, center: Path, p: Path, q: Path, radius: nat)
    requires q in Ball(edges, center, radius) && Adjacent(edges, q, p)
    ensures p in Ball(edges, center, radius + 1)
  {
    var e :| e in edges && ((e.src == q && e.dst == p) || (e.src == p && e.dst == q));
    assert e in Touching(edges, Ball(edges, center, radius));
  }

  lemma ExtendWalk(edges: set<Edge>, w: seq<Path>, p: Path, e: Edge)
    requires IsUndirectedWalk(edges, w) && e in edges
    requires (e.src == p && e.dst == w[|w| - 1]) || (e.dst == p && e.src == w[|w| - 1])
    ensures IsUndirectedWalk(edges, w + [p])
  {
    var v := w + [p];
    forall i | 0 <= i < |v| - 1 ensures Adjacent(edges, v[i], v[i + 1]) {
      if i < |w| - 1 {
        assert Adjacent(edges, w[i], w[i + 1]);
      }
    }
  }

  lemma {:induction false} WalkStaysInBall(edges: set<Edge>, w: seq<Path>, radius: nat)
    requires IsUndirectedWalk(edges, w) && |w| <= radius + 1
    ensures w[|w| - 1] in Ball(edges, w[0], radius)
    decreases radius
  {
    hide Ball, Adjacent;
    if |w| == 1 {
      CenterInBall(edges, w[0], radius);
    } else {
      var v := w[..|w| - 1];
      assert forall i | 0 <= i < |v| - 1 :: Adjacent(edges, w[i], w[i + 1]);
      WalkStaysInBall(edges, v, radius - 1);
      assert Adjacent(edges, w[|w| - 2], w[|w| - 2 + 1]);
      BallGoesOn(edges, w[0], w[|w| - 1], w[|w| - 2], radius - 1);
    }
  }

  lemma {:induction false} CenterInBall(edges: set<Edge>, center: Path, radius: nat)
    ensures center in Ball(edges, center, radius)
    decreases radius
  {
    if radius > 0 {
      CenterInBall(edges, center, radius - 1);
    }
  }

  // ----- Rings -----

  /** The files first reached at this radius. */
  function Ring(edges: set<Edge>, center: Path, radius: nat): set<Path> {
    if radius == 0 then {center} else Ball(edges, center, radius) - Ball(edges, center, radius - 1)
  }

  /** Expanding the outermost ring is enough. */
  lemma RingExpands(edges: set<Edge>, center: Path, radius: nat)
    ensures var rows := Touching(edges, Ring(edges, center, radius));
            && Ball(edges, center, radius + 1) == Ball(edges, center, radius) + Ends(rows)
            && BallEdges(edges, center, radius + 1) == BallEdges(edges, center, radius) + rows
  {
    var ball, ring := Ball(edges, center, radius), Ring(edges, center, radius);
    var rows := Touching(edges, ring);
    if radius > 0 {
      var inner := Ball(edges, center, radius - 1);
      assert ball == inner + ring;
      assert Touching(edges, ball) == Touching(edges, inner) + rows;
      assert Ends(Touching(edges, ball)) == Ends(Touching(edges, inner)) + Ends(rows);
    }
  }

  lemma RingOf(edges: set<Edge>, center: Path, radius: nat)
    requires radius > 0
    ensures Ring(edges, center, radius) == Ball(edges, center, radius) - Ball(edges, center, radius - 1)
  {
  }

  lemma {:induction false} BallGrows(edges: set<Edge>, center: Path, r: nat, s: nat)
    requires r <= s
    ensures Ball(edges, center, r) <= Ball(edges, center, s)
    ensures BallEdges(edges, center, r) <= BallEdges(edges, center, s)
    decreases s
  {
    hide Ball, BallEdges, Touching, Ends;
    if r < s {
      BallGrows(edges, center, r, s - 1);
      RingExpands(edges, center, s - 1);
    }
  }

  lemma NothingTouches(edges: set<Edge>)
    ensures Touching(edges, {}) == {} && Ends(Touching(edges, {})) == {}
  {
  }

  /** Once a ring is empty the ball has stopped growing. */
  lemma {:induction false} EmptyRingEnds(edges: set<Edge>, center: Path, r: nat, s: nat)
    requires r <= s && Ring(edges, center, r) == {}
    ensures Ball(edges, center, s) == Ball(edges, center, r)
    ensures BallEdges(edges, center, s) == BallEdges(edges, center, r)
    ensures Ring(edges, center, s) == {}
    decreases s
  {
    hide Ball, BallEdges, Touching, Ends, Ring;
    if r < s {
      EmptyRingEnds(edges, center, r, s - 1);
      RingExpands(edges, center, s - 1);
      NothingTouches(edges);
      RingOf(edges, center, s);
    }
  }

  // ----- The breadth-first search -----

  function Members(s: seq<Path>): set<Path> {
    set p | p in s
  }

  /** `list(dict.fromkeys(s))` */
  function Dedup(s: seq<Path>): (r: seq<Path>)
    ensures Members(r) == Members(s)
  {
    if s == [] then []
    else
      var rest := Dedup(s[..|s| - 1]);
      var p := s[|s| - 1];
      assert s == s[..|s| - 1] + [p];
      MembersOfMore(s[..|s| - 1], p);
      MembersOfMore(rest, p);
      if p in rest then rest else rest + [p]
  }

  /** What one fetch may do to the node set, the edge set and the next frontier, caps included. */
  ghost predicate Visited(
    rows: set<Edge>, maxNodes: nat, maxEdges: nat,
    nodes: set<Path>, picked: set<Edge>, next: set<Path>,
    nodes': set<Path>, picked': set<Edge>, next': set<Path>)
  {
    && nodes <= nodes' <= nodes + Ends(rows)
    && picked <= picked' <= picked + rows
    && next' == next + (nodes' - nodes)
    && |nodes'| <= maxNodes && |picked'| <= maxEdges
    && (|nodes'| < maxNodes ==> nodes' == nodes + Ends(rows))
    && (|picked'| < maxEdges ==> picked' == picked + rows)
  }

  /** The loop over the rows of one fetch, in whatever order the database gives them. */
  method VisitRows(
    rows: set<Edge>, maxNodes: nat, maxEdges: nat, nodes: set<Path>, picked: set<Edge>, next: seq<Path>)
    returns (nodes': set<Path>, picked': set<Edge>, next': seq<Path>)
    requires |nodes| <= maxNodes && |picked| <= maxEdges && maxEdges > 0
    ensures Visited(rows, maxNodes, maxEdges, nodes, picked, Members(next), nodes', picked', Members(next'))
    ensures |nodes'| <= maxNodes && |picked'| <= maxEdges
  {
    hide Visited;
    nodes', picked', next' := nodes, picked, next;
    var todo := rows;
    NothingVisited(maxNodes, maxEdges, nodes, picked, Members(next));
    assert rows - todo == {};
    while todo != {}
      invariant todo <= rows && |nodes'| <= maxNodes && |picked'| <= maxEdges
      invariant Visited(rows - todo, maxNodes, maxEdges, nodes, picked, Members(next), nodes', picked', Members(next'))
    {
      var e :| e in todo;
      ghost var n1, p1, f1 := nodes', picked', Members(next');
      nodes', picked', next' := VisitRow(e, maxNodes, maxEdges, nodes', picked', next');
      VisitedTwice(rows - todo, {e}, maxNodes, maxEdges,
                   nodes, picked, Members(next), n1, p1, f1, nodes', picked', Members(next'));
      assert rows - (todo - {e}) == rows - todo + {e};
      todo := todo - {e};
    }
    assert rows - {} == rows;
  }

  lemma NothingVisited(maxNodes: nat, maxEdges: nat, nodes: set<Path>, picked: set<Edge>, next: set<Path>)
    requires |nodes| <= maxNodes && |picked| <= maxEdges
    ensures Visited({}, maxNodes, maxEdges, nodes, picked, next, nodes, picked, next)
  {
  }

  /** The loop body for one row. */
  method VisitRow(
    e: Edge, maxNodes: nat, maxEdges: nat, nodes: set<Path>, picked: set<Edge>, next: seq<Path>)
    returns (nodes': set<Path>, picked': set<Edge>, next': seq<Path>)
    requires |nodes| <= maxNodes && |picked| <= maxEdges && maxEdges > 0
    ensures Visited({e}, maxNodes, maxEdges, nodes, picked, Members(next), nodes', picked', Members(next'))
    ensures |nodes'| <= maxNodes && |picked'| <= maxEdges
  {
    hide Members, Ends;
    picked' := picked;
    if |picked'| < maxEdges {
      picked' := picked' + {e};
    }
    var nodes1, next1 := VisitNode(e.src, maxNodes, nodes, next);
    nodes', next' := VisitNode(e.dst, maxNodes, nodes1, next1);
    SubsetSize(nodes1, nodes');
    OneRowEnds(e);
    BothEnds(nodes, nodes1, nodes', Members(next), {e.src}, {e.dst});
  }

  lemma OneRowEnds(e: Edge)
    ensures Ends({e}) == {e.src} + {e.dst}
  {
  }

  lemma BothEnds(n0: set<Path>, n1: set<Path>, n2: set<Path>, next: set<Path>, a: set<Path>, b: set<Path>)
    requires n0 <= n1 <= n0 + a && n1 <= n2 <= n1 + b
    ensures n0 <= n2 <= n0 + (a + b)
    ensures next + (n1 - n0) + (n2 - n1) == next + (n2 - n0)
    ensures n1 == n0 + a && n2 == n1 + b ==> n2 == n0 + (a + b)
  {
  }

  /** The inner loop's turn for one end of an edge. */
  method VisitNode(p: Path, maxNodes: nat, nodes: set<Path>, next: seq<Path>)
    returns (nodes': set<Path>, next': seq<Path>)
    requires |nodes| <= maxNodes
    ensures nodes <= nodes' <= nodes + {p} && |nodes'| <= maxNodes
    ensures |nodes'| < maxNodes ==> nodes' == nodes + {p}
    ensures Members(next') == Members(next) + (nodes' - nodes)
  {
    nodes', next' := nodes, next;
    if p !in nodes && |nodes| < maxNodes {
      nodes' := nodes + {p};
      MembersOfMore(next, p);
      next' := next + [p];
    }
  }

  lemma MembersOfMore(s: seq<Path>, p: Path)
    ensures Members(s + [p]) == Members(s) + {p}
  {
  }

  lemma MembersOfTwo(s: seq<Path>, t: seq<Path>)
    ensures Members(s + t) == Members(s) + Members(t)
  {
  }

  /** Two fetches one after the other are one fetch of both. */
  lemma VisitedTwice(
    r1: set<Edge>, r2: set<Edge>, maxNodes: nat, maxEdges: nat,
    n0: set<Path>, p0: set<Edge>, f0: set<Path>, n1: set<Path>, p1: set<Edge>, f1: set<Path>,
    n2: set<Path>, p2: set<Edge>, f2: set<Path>)
    requires Visited(r1, maxNodes, maxEdges, n0, p0, f0, n1, p1, f1)
    requires Visited(r2, maxNodes, maxEdges, n1, p1, f1, n2, p2, f2)
    ensures Visited(r1 + r2, maxNodes, maxEdges, n0, p0, f0, n2, p2, f2)
  {
    assert Ends(r1 + r2) == Ends(r1) + Ends(r2);
    hide Ends;
    SubsetSize(n1, n2);
    SubsetSize(p1, p2);
  }

  /** One round: the edges of the frontier, fetched in chunks. */
  method VisitFrontier(
    edges: set<Edge>, frontier: seq<Path>, maxNodes: nat, maxEdges: nat, nodes: set<Path>, picked: set<Edge>)
    returns (nodes': set<Path>, picked': set<Edge>, next: seq<Path>)
    requires |nodes| <= maxNodes && |picked| <= maxEdges && maxEdges > 0
    ensures Visited(Touching(edges, Members(frontier)), maxNodes, maxEdges, nodes, picked, {}, nodes', picked', Members(next))
    ensures |nodes'| <= maxNodes && |picked'| <= maxEdges
  {
    hide Visited, Touching;
    nodes', picked', next := nodes, picked, [];
    var i := 0;
    NothingTouches(edges);
    assert Members(frontier[..0]) == {} && Members(next) == {};
    NothingVisited(maxNodes, maxEdges, nodes, picked, {});
    while i < |frontier|
      invariant 0 <= i <= |frontier| && |nodes'| <= maxNodes && |picked'| <= maxEdges
      invariant Visited(Touching(edges, Members(frontier[..i])), maxNodes, maxEdges,
                        nodes, picked, {}, nodes', picked', Members(next))
    {
      var stop := Min(i + IN_CHUNK, |frontier|);
      var chunk := frontier[i..stop];
      var rows := Touching(edges, Members(chunk));
      assert frontier[..stop] == frontier[..i] + chunk;
      MembersOfTwo(frontier[..i], chunk);
      TouchingUnion(edges, Members(frontier[..i]), Members(chunk));
      ghost var n1, p1, f1 := nodes', picked', Members(next);
      nodes', picked', next := VisitRows(rows, maxNodes, maxEdges, nodes', picked', next);
      VisitedTwice(Touching(edges, Members(frontier[..i])), rows, maxNodes, maxEdges,
                   nodes, picked, {}, n1, p1, f1, nodes', picked', Members(next));
      i := stop;
    }
    assert frontier[..|frontier|] == frontier;
  }

  /** The search after some rounds: inside the ball, and all of it while no cap is reached. */
  ghost predicate Searched(
    edges: set<Edge>, center: Path, rounds: nat, maxNodes: nat, maxEdges: nat,
    nodes: set<Path>, picked: set<Edge>, frontier: set<Path>)
  {
    && center in nodes
    && nodes <= Ball(edges, center, rounds) && picked <= BallEdges(edges, center, rounds)
    && frontier <= nodes
    && |nodes| <= maxNodes && |picked| <= maxEdges
    && (|nodes| < maxNodes ==> nodes == Ball(edges, center, rounds) && frontier == Ring(edges, center, rounds))
    && (|nodes| < maxNodes && |picked| < maxEdges ==> picked == BallEdges(edges, center, rounds))
  }

  lemma SearchStarts(edges: set<Edge>, center: Path, maxNodes: nat, maxEdges: nat)
    requires maxNodes > 0
    ensures Searched(edges, center, 0, maxNodes, maxEdges, {center}, {}, {center})
  {
  }

  lemma SearchRound(
    edges: set<Edge>, center: Path, rounds: nat, maxNodes: nat, maxEdges: nat,
    nodes: set<Path>, picked: set<Edge>, frontier: set<Path>,
    nodes': set<Path>, picked': set<Edge>, next: set<Path>)
    requires Searched(edges, center, rounds, maxNodes, maxEdges, nodes, picked, frontier) && |nodes| < maxNodes
    requires Visited(Touching(edges, frontier), maxNodes, maxEdges, nodes, picked, {}, nodes', picked', next)
    ensures Searched(edges, center, rounds + 1, maxNodes, maxEdges, nodes', picked', next)
  {
    hide Ball, BallEdges, Touching, Ends;
    RingExpands(edges, center, rounds);
    SubsetSize(picked, picked');
    assert rounds + 1 > 0;
    RingOf(edges, center, rounds + 1);
  }

  method LoadLocalGraph(
    files: set<Path>, edges: set<Edge>, center: Path, hops: int, maxNodes: int, maxEdges: int) returns (r: Reply)
    ensures r.BadRequest? <==> hops < 0 || maxNodes <= 0 || maxEdges <= 0
    ensures !r.BadRequest? ==> (r.NotFound? <==> center !in files)
    ensures r.Found? ==>
              var h := Min(hops, 6);
              && center in r.reached && r.reached <= Ball(edges, center, h)
              && r.nodes == r.reached * files
              && r.edges <= BallEdges(edges, center, h) && Ends(r.edges) <= r.reached
              && |r.nodes| <= |r.reached| <= maxNodes && |r.edges| <= maxEdges
              && (r.truncated <==> |Ball(edges, center, h)| >= maxNodes || |BallEdges(edges, center, h)| >= maxEdges)
              && (!r.truncated ==> r.reached == Ball(edges, center, h) && r.edges == BallEdges(edges, center, h))
              && (Ends(r.edges) <= r.nodes <==> Ends(r.edges) <= files)
  {
    if hops < 0 {
      return BadRequest;
    }
    if maxNodes <= 0 || maxEdges <= 0 {
      return BadRequest;
    }
    hide Ball, BallEdges, Ring, Searched, Visited, Touching, Ends;
    var h := Min(hops, MAX_HOPS);
    if center !in files {
      return NotFound;
    }
    var reached, picked := {center}, {};
    var frontier := [center];
    var round := 0;
    assert Members(frontier) == {center};
    SearchStarts(edges, center, maxNodes, maxEdges);
    while round < h
      invariant 0 <= round <= h
      invariant |reached| <= maxNodes && |picked| <= maxEdges
      invariant Searched(edges, center, round, maxNodes, maxEdges, reached, picked, Members(frontier))
    {
      if frontier == [] || |reached| >= maxNodes {
        break;
      }
      ghost var reached0, picked0, frontier0 := reached, picked, Members(frontier);
      frontier := Dedup(frontier);
      reached, picked, frontier := VisitFrontier(edges, frontier, maxNodes, maxEdges, reached, picked);
      SearchRound(edges, center, round, maxNodes, maxEdges, reached0, picked0, frontier0,
                  reached, picked, Members(frontier));
      round := round + 1;
    }
    var shown := set e | e in picked && e.src in reached && e.dst in reached;
    var truncated := |reached| >= maxNodes || |picked| >= maxEdges;
    r := Found(reached * files, shown, reached, truncated);
    SearchEnds(edges, center, round, h, maxNodes, maxEdges, reached, picked, Members(frontier));
    SubsetSize(reached * files, reached);
    SubsetSize(shown, picked);
    SubsetSize(reached, Ball(edges, center, h));
    SubsetSize(picked, BallEdges(edges, center, h));
    ShownEnds(picked, reached);
  }

  lemma ShownEnds(picked: set<Edge>, reached: set<Path>)
    ensures Ends(set e | e in picked && e.src in reached && e.dst in reached) <= reached
  {
  }

  /** What the last round leaves, whether the search ran out of hops, of frontier or of room. */
  lemma SearchEnds(
    edges: set<Edge>, center: Path, rounds: nat, h: nat, maxNodes: nat, maxEdges: nat,
    nodes: set<Path>, picked: set<Edge>, frontier: set<Path>)
    requires Searched(edges, center, rounds, maxNodes, maxEdges, nodes, picked, frontier)
    requires rounds <= h && (rounds == h || frontier == {} || |nodes| >= maxNodes)
    ensures center in nodes && nodes <= Ball(edges, center, h) && picked <= BallEdges(edges, center, h)
    ensures |nodes| <= maxNodes && |picked| <= maxEdges
    ensures |nodes| < maxNodes && |picked| < maxEdges ==>
              nodes == Ball(edges, center, h) && picked == BallEdges(edges, center, h)
              && (set e | e in picked && e.src in nodes && e.dst in nodes) == picked
  {
    BallGrows(edges, center, rounds, h);
    if |nodes| < maxNodes && frontier == {} {
      EmptyRingEnds(edges, center, rounds, h);
    }
    BallEdgesEnd(edges, center, h);
  }

  lemma BallEdgesEnd(edges: set<Edge>, center: Path, h: nat)
    ensures Ends(BallEdges(edges, center, h)) <= Ball(edges, center, h)
  {
  }

  /** The ball of a file with one edge. */
  lemma OneEdgeBall(e: Edge)
    ensures Ball({e}, e.src, 1) == {e.src, e.dst} && BallEdges({e}, e.src, 1) == {e}
  {
    assert Ball({e}, e.src, 0) == {e.src};
    assert Touching({e}, {e.src}) == {e};
    assert Ends({e}) == {e.src, e.dst};
  }

  /** An edge to a path that has no FileNode row is in the reply, and the path is not. */
  method EdgeWithoutNode() returns (r: Reply)
    ensures r.Found? && r.edges == {Edge("a", "b", "import")} && r.nodes == {"a"} && !r.truncated
  {
    var e := Edge("a", "b", "import");
    OneEdgeBall(e);
    r := LoadLocalGraph({"a"}, {e}, "a", 1, 10, 10);
    assert {"a", "b"} * {"a"} == {"a"};
  }
}
