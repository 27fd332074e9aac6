/**
 * The network topology shared by the rate model and the path search:
 * opaque node identifiers and a distance graph, a map from a node to the
 * map of its neighbours and the fibre length (in metres) to each.
 */
module Topology {

  /** node -> (neighbour -> distance); absence of an entry means no direct link */
  type Distances<N> = map<N, map<N, real>>

  /** `a` has an adjacency entry and that entry lists `b` */
  predicate HasLink<N>(dist: Distances<N>, a: N, b: N) {
    a in dist && b in dist[a]
  }

  /** The set of node identifiers in the node list */
  function NodeSet<N>(nodes: seq<N>): set<N> {
    set n | n in nodes
  }

  /** Node identifiers are unique in the list (the node list stands for a set) */
  predicate NoDuplicates<N(==)>(nodes: seq<N>) {
    forall i, j :: 0 <= i < j < |nodes| ==> nodes[i] != nodes[j]
  }

  /** Every listed node has an adjacency entry */
  predicate Covers<N>(nodes: seq<N>, dist: Distances<N>) {
    forall i :: 0 <= i < |nodes| ==> nodes[i] in dist
  }

  /** Fibre lengths are never negative */
  ghost predicate NonNegativeDistances<N>(dist: Distances<N>) {
    forall a, b :: a in dist && b in dist[a] ==> dist[a][b] >= 0.0
  }

  /** Every consecutive pair of `p` is a link of the graph */
  predicate IsWalk<N>(p: seq<N>, dist: Distances<N>) {
    forall i :: 0 <= i < |p| - 1 ==> HasLink(dist, p[i], p[i + 1])
  }

  /** No node occurs twice in `p` */
  predicate IsSimple<N(==)>(p: seq<N>) {
    forall i, j :: 0 <= i < j < |p| ==> p[i] != p[j]
  }

  /** Removing one more member of `s` from the still-unseen part shrinks it */
  lemma UnseenShrinks<N>(s: set<N>, seen: set<N>, x: N)
    requires x in s && x !in seen
    ensures |s - (seen + {x})| < |s - seen|
  {
    var rest := s - seen;
    assert s - (seen + {x}) == rest - {x};
    assert rest == (rest - {x}) + {x};
  }
}
