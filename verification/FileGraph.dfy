/** The file graph of a project: the rows of the FileEdge table, and walks along them. */
module FileGraph {

  /** A project-relative path; the indexer never writes an empty one. */
  type Path = p: string | p != "" witness "p"

  /** Edge rows are unique by source, target and kind. */
  datatype Edge = Edge(src: Path, dst: Path, kind: string)

  datatype Link = Link(src: Path, dst: Path)

  /** The rows with an end among the paths. */
  function Touching(edges: set<Edge>, paths: set<Path>): set<Edge> {
    set e | e in edges && (e.src in paths || e.dst in paths)
  }

  function Ends(edges: set<Edge>): set<Path> {
    (set e | e in edges :: e.src) + (set e | e in edges :: e.dst)
  }

  lemma TouchingUnion(edges: set<Edge>, a: set<Path>, b: set<Path>)
    ensures Touching(edges, a + b) == Touching(edges, a) + Touching(edges, b)
  {
  }

  ghost predicate IsWalk(links: set<Link>, w: seq<Path>) {
    w != [] && forall i | 0 <= i < |w| - 1 :: Link(w[i], w[i + 1]) in links
  }
}
