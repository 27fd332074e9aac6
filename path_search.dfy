/**
 * The exhaustive path search: depth-first enumeration of the simple paths
 * between two nodes (`enumerate_paths`) and the selection of the candidate
 * path with the highest entanglement rate over all node pairs
 * (`find_optimal_path`).
 */
module PathSearch {
  import opened Topology
  import opened RateModel

  datatype Option<T> = None | Some(value: T)

  /** Every path of `ps` with `x` put in front */
  function Prepend<N>(x: N, ps: seq<seq<N>>): (r: seq<seq<N>>)
    ensures |r| == |ps|
  {
    seq(|ps|, i requires 0 <= i < |ps| => [x] + ps[i])
  }

  /** Extending the prefix of `ps` by one path extends its prefixed copy by that path with `x` in front */
  lemma PrependSnoc<N>(x: N, ps: seq<seq<N>>, j: nat)
    requires j < |ps|
    ensures Prepend(x, ps[..j + 1]) == Prepend(x, ps[..j]) + [[x] + ps[j]]
  {
    var r, t := Prepend(x, ps[..j + 1]), Prepend(x, ps[..j]) + [[x] + ps[j]];
    assert |r| == |t|;
    forall i | 0 <= i < |r|
      ensures r[i] == t[i]
    {
      if i < j {
        assert t[i] == Prepend(x, ps[..j])[i];
      }
    }
  }

  /**
   * The paths the search returns from `src` to `dst` when `visited` holds
   * the nodes already on the current path: `[[dst]]` on arrival, otherwise
   * the paths through each neighbour in the order of `nodes`. A node
   * without an adjacency entry has no neighbours here (the search itself
   * never looks one up).
   */
  function Paths<N(==)>(src: N, dst: N, nodes: seq<N>, dist: Distances<N>, visited: set<N>): seq<seq<N>>
    decreases |NodeSet(nodes) - (visited + {src})|, 1
  {
    if src == dst then [[dst]]
    else Branches(src, dst, nodes, dist, visited + {src}, |nodes|)
  }

  /**
   * The paths from `src` through the first `n` nodes of `nodes` that are
   * unseen neighbours of `src`, in that order; `seen` already holds `src`.
   */
  function Branches<N(==)>(src: N, dst: N, nodes: seq<N>, dist: Distances<N>, seen: set<N>, n: nat): seq<seq<N>>
    requires n <= |nodes|
    decreases |NodeSet(nodes) - seen|, 0, n
  {
    if n == 0 then []
    else
      var nb := nodes[n - 1];
      Branches(src, dst, nodes, dist, seen, n - 1) +
        if nb !in seen && HasLink(dist, src, nb) then
          UnseenShrinks(NodeSet(nodes), seen, nb);
          Prepend(src, Paths(nb, dst, nodes, dist, seen))
        else []
  }

  /**
   * The depth-first backtracking search. Each branch gets its own copy of
   * the visited set; paths are collected in the order of `nodes`. A node
   * that is expanded is looked up in `dist`, so every node that can be
   * expanded (all but the destination) needs an adjacency entry.
   */
  method EnumeratePaths<N(==)>(src: N, dst: N, nodes: seq<N>, dist: Distances<N>, visited: set<N>)
    returns (paths: seq<seq<N>>)
    requires src == dst || src in dist
    requires forall i :: 0 <= i < |nodes| && nodes[i] != dst ==> nodes[i] in dist
    ensures paths == Paths(src, dst, nodes, dist, visited)
    decreases |NodeSet(nodes) - (visited + {src})|, 1
  {
    var seen := visited + {src};
    if src == dst {
      return [[dst]];
    }
    paths := [];
    for i := 0 to |nodes|
      invariant paths == Branches(src, dst, nodes, dist, seen, i)
    {
      var nb := nodes[i];
      if nb !in seen && nb in dist[src] {
        UnseenShrinks(NodeSet(nodes), seen, nb);
        var sub := EnumeratePaths(nb, dst, nodes, dist, seen);
        paths := AppendPrefixed(paths, src, sub);
      }
    }
  }

  /** The inner loop of the search: append each sub-path, with `x` put in front, to `paths` */
  method AppendPrefixed<N>(paths: seq<seq<N>>, x: N, ps: seq<seq<N>>) returns (r: seq<seq<N>>)
    ensures r == paths + Prepend(x, ps)
  {
    r := paths;
    for j := 0 to |ps|
      invariant r == paths + Prepend(x, ps[..j])
    {
      PrependSnoc(x, ps, j);
      r := r + [[x] + ps[j]];
    }
    assert ps[..|ps|] == ps;
  }

  /**
   * A simple path from `src` to `dst` whose later nodes are listed in
   * `nodes`, avoid `visited`, and follow links of the graph.
   */
  predicate IsRoute<N(==)>(p: seq<N>, src: N, dst: N, nodes: seq<N>, dist: Distances<N>, visited: set<N>) {
    && |p| >= 1 && p[0] == src && p[|p| - 1] == dst
    && IsSimple(p)
    && (forall i :: 1 <= i < |p| ==> p[i] in nodes && p[i] !in visited)
    && IsWalk(p, dist)
  }

  /** A route of two or more nodes is its first link followed by a route from the second node that also avoids the first */
  lemma RouteCons<N>(src: N, dst: N, nodes: seq<N>, dist: Distances<N>, visited: set<N>, q: seq<N>)
    requires src != dst && |q| >= 1
    ensures IsRoute([src] + q, src, dst, nodes, dist, visited) <==>
              && q[0] in nodes && q[0] !in visited + {src} && HasLink(dist, src, q[0])
              && IsRoute(q, q[0], dst, nodes, dist, visited + {src})
  {
    var p := [src] + q;
    assert forall i :: 1 <= i < |p| ==> p[i] == q[i - 1];
    if IsRoute(p, src, dst, nodes, dist, visited) {
      assert p[1] == q[0];
      assert HasLink(dist, p[0], p[1]);
      forall i | 0 <= i < |q|
        ensures q[i] != src && q[i] in nodes && q[i] !in visited
      {
        assert p[i + 1] == q[i] && p[0] == src;
      }
      forall i, j | 0 <= i < j < |q|
        ensures q[i] != q[j]
      {
        assert p[i + 1] == q[i] && p[j + 1] == q[j];
      }
      forall i | 0 <= i < |q| - 1
        ensures HasLink(dist, q[i], q[i + 1])
      {
        assert p[i + 1] == q[i] && p[i + 2] == q[i + 1];
      }
      assert q[|q| - 1] == p[|p| - 1];
      assert IsWalk(q, dist);
      assert IsRoute(q, q[0], dst, nodes, dist, visited + {src});
    }
    if && q[0] in nodes && q[0] !in visited + {src} && HasLink(dist, src, q[0])
       && IsRoute(q, q[0], dst, nodes, dist, visited + {src})
    {
      forall i | 1 <= i < |p|
        ensures p[i] != src && p[i] in nodes && p[i] !in visited
      {
        assert p[i] == q[i - 1];
      }
      forall i, j | 0 <= i < j < |p|
        ensures p[i] != p[j]
      {
        if i > 0 {
          assert p[i] == q[i - 1] && p[j] == q[j - 1];
        }
      }
      forall i | 0 <= i < |p| - 1
        ensures HasLink(dist, p[i], p[i + 1])
      {
        if i > 0 {
          assert p[i] == q[i - 1] && p[i + 1] == q[i];
        }
      }
      assert p[|p| - 1] == q[|q| - 1];
      assert IsRoute(p, src, dst, nodes, dist, visited);
    }
  }

  /** Soundness: every enumerated path is a route from `src` to `dst` avoiding `visited` after its first node */
  lemma {:induction false} PathsSound<N>(src: N, dst: N, nodes: seq<N>, dist: Distances<N>, visited: set<N>, p: seq<N>)
    requires p in Paths(src, dst, nodes, dist, visited)
    ensures IsRoute(p, src, dst, nodes, dist, visited)
    decreases |NodeSet(nodes) - (visited + {src})|, 1
  {
    if src != dst {
      BranchesSound(src, dst, nodes, dist, visited, |nodes|, p);
    }
  }

  lemma {:induction false} BranchesSound<N>(src: N, dst: N, nodes: seq<N>, dist: Distances<N>, visited: set<N>, n: nat, p: seq<N>)
    requires n <= |nodes| && src != dst
    requires p in Branches(src, dst, nodes, dist, visited + {src}, n)
    ensures IsRoute(p, src, dst, nodes, dist, visited)
    decreases |NodeSet(nodes) - (visited + {src})|, 0, n
  {
    var seen := visited + {src};
    var nb := nodes[n - 1];
    if p in Branches(src, dst, nodes, dist, seen, n - 1) {
      BranchesSound(src, dst, nodes, dist, visited, n - 1, p);
    } else {
      assert nb !in seen && HasLink(dist, src, nb);
      UnseenShrinks(NodeSet(nodes), seen, nb);
      var ps := Paths(nb, dst, nodes, dist, seen);
      var i :| 0 <= i < |ps| && p == [src] + ps[i];
      PathsSound(nb, dst, nodes, dist, seen, ps[i]);
      RouteCons(src, dst, nodes, dist, visited, ps[i]);
    }
  }

  lemma {:induction false} PrependCount<N>(x: N, ps: seq<seq<N>>, p: seq<N>)
    ensures multiset(Prepend(x, ps))[p] == if |p| >= 1 && p[0] == x then multiset(ps)[p[1..]] else 0
  {
    if ps != [] {
      PrependCount(x, ps[1..], p);
      PrependCons(x, ps);
      ConsCount([x] + ps[0], Prepend(x, ps[1..]), p);
      HeadSplit(x, ps[0], p);
      if |p| >= 1 && p[0] == x {
        assert ps == [ps[0]] + ps[1..];
        ConsCount(ps[0], ps[1..], p[1..]);
      }
    }
  }

  lemma PrependCons<N>(x: N, ps: seq<seq<N>>)
    requires ps != []
    ensures Prepend(x, ps) == [[x] + ps[0]] + Prepend(x, ps[1..])
  {
    var r, t := Prepend(x, ps), [[x] + ps[0]] + Prepend(x, ps[1..]);
    assert |r| == |t|;
    forall i | 0 <= i < |r|
      ensures r[i] == t[i]
    {
      if i > 0 {
        assert t[i] == Prepend(x, ps[1..])[i - 1] == [x] + ps[1..][i - 1];
      }
    }
  }

  /** Occurrences of `q` in a sequence with `e` in front */
  lemma ConsCount<T>(e: T, s: seq<T>, q: T)
    ensures multiset([e] + s)[q] == (if e == q then 1 else 0) + multiset(s)[q]
  {
    assert multiset([e] + s) == multiset([e]) + multiset(s);
  }

  /** `[x] + a` is `p` exactly when `p` starts with `x` and continues with `a` */
  lemma HeadSplit<N>(x: N, a: seq<N>, p: seq<N>)
    ensures [x] + a == p <==> |p| >= 1 && p[0] == x && a == p[1..]
  {
    if [x] + a == p {
      assert ([x] + a)[1..] == a;
    }
    if |p| >= 1 && p[0] == x && a == p[1..] {
      assert p == [x] + p[1..];
    }
  }

  /**
   * Completeness without duplicates: when node identifiers are unique,
   * every route from `src` to `dst` avoiding `visited` is enumerated
   * exactly once, and nothing else is.
   */
  lemma {:induction false} PathsExactlyOnce<N>(src: N, dst: N, nodes: seq<N>, dist: Distances<N>, visited: set<N>, p: seq<N>)
    requires NoDuplicates(nodes)
    ensures multiset(Paths(src, dst, nodes, dist, visited))[p] ==
              if IsRoute(p, src, dst, nodes, dist, visited) then 1 else 0
    decreases |NodeSet(nodes) - (visited + {src})|, 1
  {
    if src == dst {
      if IsRoute(p, src, dst, nodes, dist, visited) {
        assert p[0] == p[|p| - 1];
        assert p == [dst];
      }
    } else {
      BranchesExactlyOnce(src, dst, nodes, dist, visited, |nodes|, p);
      assert nodes[..|nodes|] == nodes;
      if IsRoute(p, src, dst, nodes, dist, visited) {
        assert |p| >= 2;
        assert p[1] in nodes;
      }
    }
  }

  lemma {:induction false} BranchesExactlyOnce<N>(src: N, dst: N, nodes: seq<N>, dist: Distances<N>, visited: set<N>, n: nat, p: seq<N>)
    requires NoDuplicates(nodes) && n <= |nodes| && src != dst
    ensures multiset(Branches(src, dst, nodes, dist, visited + {src}, n))[p] ==
              if |p| >= 2 && p[1] in nodes[..n] && IsRoute(p, src, dst, nodes, dist, visited) then 1 else 0
    decreases |NodeSet(nodes) - (visited + {src})|, 0, n
  {
    if n > 0 {
      var seen := visited + {src};
      var nb := nodes[n - 1];
      BranchesExactlyOnce(src, dst, nodes, dist, visited, n - 1, p);
      BranchesStepCount(src, dst, nodes, dist, seen, n, p);
      RouteViaLastNeighbour(src, dst, nodes, dist, visited, n, p);
      if nb !in seen && HasLink(dist, src, nb) {
        UnseenShrinks(NodeSet(nodes), seen, nb);
        PrependCount(src, Paths(nb, dst, nodes, dist, seen), p);
        if |p| >= 1 && p[0] == src {
          PathsExactlyOnce(nb, dst, nodes, dist, seen, p[1..]);
        }
      }
    }
  }

  /**
   * A route whose second node is among the first n nodes has it among the
   * first n - 1, or else is a route through the n-th node; never both.
   */
  lemma RouteViaLastNeighbour<N>(src: N, dst: N, nodes: seq<N>, dist: Distances<N>, visited: set<N>, n: nat, p: seq<N>)
    requires NoDuplicates(nodes) && 0 < n <= |nodes| && src != dst
    ensures (|p| >= 2 && p[1] in nodes[..n] && IsRoute(p, src, dst, nodes, dist, visited)) <==>
              || (|p| >= 2 && p[1] in nodes[..n - 1] && IsRoute(p, src, dst, nodes, dist, visited))
              || (&& |p| >= 1 && p[0] == src && nodes[n - 1] !in visited + {src} && HasLink(dist, src, nodes[n - 1])
                  && IsRoute(p[1..], nodes[n - 1], dst, nodes, dist, visited + {src}))
    ensures !(&& |p| >= 2 && p[1] in nodes[..n - 1]
              && |p| >= 1 && IsRoute(p[1..], nodes[n - 1], dst, nodes, dist, visited + {src}))
  {
    if |p| >= 2 {
      PrefixMember(nodes, n, p[1]);
      if p[0] == src {
        RouteCons(src, dst, nodes, dist, visited, p[1..]);
        assert p == [src] + p[1..];
      }
    }
  }

  /** One more node of the list: the neighbour loop adds that node's extensions when it is an unseen neighbour */
  lemma BranchesStepCount<N>(src: N, dst: N, nodes: seq<N>, dist: Distances<N>, seen: set<N>, n: nat, p: seq<N>)
    requires 0 < n <= |nodes|
    ensures multiset(Branches(src, dst, nodes, dist, seen, n))[p] ==
              multiset(Branches(src, dst, nodes, dist, seen, n - 1))[p] +
              if nodes[n - 1] !in seen && HasLink(dist, src, nodes[n - 1])
              then multiset(Prepend(src, Paths(nodes[n - 1], dst, nodes, dist, seen)))[p] else 0
  {
  }

  /** With unique nodes, the n-th node is new to the prefix before it */
  lemma PrefixMember<N>(nodes: seq<N>, n: nat, x: N)
    requires NoDuplicates(nodes) && 0 < n <= |nodes|
    ensures x in nodes[..n] <==> x in nodes[..n - 1] || x == nodes[n - 1]
    ensures nodes[n - 1] !in nodes[..n - 1]
  {
    assert nodes[..n] == nodes[..n - 1] + [nodes[n - 1]];
    assert forall j :: 0 <= j < n - 1 ==> nodes[j] != nodes[n - 1];
  }

  /** The pairs (x, y) for each y of `rest`, in order */
  function PairsWith<N>(x: N, rest: seq<N>): seq<(N, N)> {
    if rest == [] then [] else [(x, rest[0])] + PairsWith(x, rest[1..])
  }

  /**
   * `combinations(nodes, 2)`: the pairs (nodes[i], nodes[j]) with i < j,
   * in lexicographic order of the positions; each unordered pair once,
   * in one direction only.
   */
  function Pairs<N>(nodes: seq<N>): seq<(N, N)> {
    if nodes == [] then [] else PairsWith(nodes[0], nodes[1..]) + Pairs(nodes[1..])
  }

  /** `a` occurs in `nodes` before `b` */
  ghost predicate Precedes<N>(nodes: seq<N>, a: N, b: N) {
    exists i, j :: 0 <= i < j < |nodes| && nodes[i] == a && nodes[j] == b
  }

  lemma {:induction false} PairsWithCount<N>(x: N, rest: seq<N>, pr: (N, N))
    ensures multiset(PairsWith(x, rest))[pr] == if pr.0 == x then multiset(rest)[pr.1] else 0
  {
    if rest != [] {
      PairsWithCount(x, rest[1..], pr);
      assert rest == [rest[0]] + rest[1..];
      assert multiset(rest) == multiset([rest[0]]) + multiset(rest[1..]);
    }
  }

  lemma {:induction false} CountUnique<N>(s: seq<N>, x: N)
    requires NoDuplicates(s)
    ensures multiset(s)[x] == if x in s then 1 else 0
  {
    if s != [] {
      CountUnique(s[1..], x);
      assert s == [s[0]] + s[1..];
      assert multiset(s) == multiset([s[0]]) + multiset(s[1..]);
      if x == s[0] {
        assert forall j :: 1 <= j < |s| ==> s[j] != s[0];
        assert x !in s[1..];
      }
    }
  }

  /** Every pair is two nodes in list order, and (with unique nodes) each such pair occurs exactly once */
  lemma {:induction false} PairsExactlyOnce<N>(nodes: seq<N>, pr: (N, N))
    requires NoDuplicates(nodes)
    ensures multiset(Pairs(nodes))[pr] == if Precedes(nodes, pr.0, pr.1) then 1 else 0
  {
    if nodes != [] {
      var rest := nodes[1..];
      PairsExactlyOnce(rest, pr);
      PairsWithCount(nodes[0], rest, pr);
      CountUnique(rest, pr.1);
      if Precedes(nodes, pr.0, pr.1) {
        var i, j :| 0 <= i < j < |nodes| && nodes[i] == pr.0 && nodes[j] == pr.1;
        if i == 0 {
          assert rest[j - 1] == pr.1;
        } else {
          assert rest[i - 1] == pr.0 && rest[j - 1] == pr.1;
          assert nodes[0] != nodes[i];
        }
      }
      if Precedes(rest, pr.0, pr.1) {
        var i, j :| 0 <= i < j < |rest| && rest[i] == pr.0 && rest[j] == pr.1;
        assert nodes[i + 1] == pr.0 && nodes[j + 1] == pr.1;
        assert nodes[0] != nodes[i + 1];
      }
      if pr.0 == nodes[0] && pr.1 in rest {
        var j :| 0 <= j < |rest| && rest[j] == pr.1;
        assert nodes[j + 1] == pr.1;
      }
    }
  }

  /** Only listed nodes are paired, each before its partner */
  lemma {:induction false} PairsMembers<N>(nodes: seq<N>, pr: (N, N))
    requires pr in Pairs(nodes)
    ensures Precedes(nodes, pr.0, pr.1)
  {
    var rest := nodes[1..];
    if pr in PairsWith(nodes[0], rest) {
      PairsWithCount(nodes[0], rest, pr);
      assert multiset(rest)[pr.1] > 0;
      var j :| 0 <= j < |rest| && rest[j] == pr.1;
      assert nodes[j + 1] == pr.1;
    } else {
      PairsMembers(rest, pr);
      var i, j :| 0 <= i < j < |rest| && rest[i] == pr.0 && rest[j] == pr.1;
      assert nodes[i + 1] == pr.0 && nodes[j + 1] == pr.1;
    }
  }

  /** The concatenated enumerations for the given pairs, from an empty visited set, in pair order */
  function AllPaths<N(==)>(pairs: seq<(N, N)>, nodes: seq<N>, dist: Distances<N>): seq<seq<N>> {
    if pairs == [] then []
    else
      var last := pairs[|pairs| - 1];
      AllPaths(pairs[..|pairs| - 1], nodes, dist) + Paths(last.0, last.1, nodes, dist, {})
  }

  /** One more pair adds that pair's enumeration at the end */
  lemma AllPathsSnoc<N>(pairs: seq<(N, N)>, nodes: seq<N>, dist: Distances<N>, i: nat)
    requires i < |pairs|
    ensures AllPaths(pairs[..i + 1], nodes, dist) ==
              AllPaths(pairs[..i], nodes, dist) + Paths(pairs[i].0, pairs[i].1, nodes, dist, {})
  {
    assert pairs[..i + 1][..i] == pairs[..i];
  }

  /** Every candidate path `find_optimal_path` scores, in scoring order */
  function Candidates<N(==)>(nodes: seq<N>, dist: Distances<N>): seq<seq<N>> {
    AllPaths(Pairs(nodes), nodes, dist)
  }

  lemma {:induction false} AllPathsCount<N>(pairs: seq<(N, N)>, nodes: seq<N>, dist: Distances<N>, p: seq<N>)
    requires NoDuplicates(nodes)
    ensures multiset(AllPaths(pairs, nodes, dist))[p] ==
              if |p| >= 1 && IsRoute(p, p[0], p[|p| - 1], nodes, dist, {})
              then multiset(pairs)[(p[0], p[|p| - 1])] else 0
    decreases |pairs|
  {
    if pairs != [] {
      var init, last := pairs[..|pairs| - 1], pairs[|pairs| - 1];
      AllPathsCount(init, nodes, dist, p);
      PathsExactlyOnce(last.0, last.1, nodes, dist, {}, p);
      RouteEnds(p, last.0, last.1, nodes, dist);
      if |p| >= 1 {
        SnocCount(pairs, (p[0], p[|p| - 1]));
      }
    }
  }

  /** Occurrences of `q` in a non-empty sequence: those before its last element, plus the last */
  lemma SnocCount<T>(s: seq<T>, q: T)
    requires s != []
    ensures multiset(s)[q] == multiset(s[..|s| - 1])[q] + (if s[|s| - 1] == q then 1 else 0)
  {
    assert s == s[..|s| - 1] + [s[|s| - 1]];
  }

  /** A route between given ends is a route between its own first and last node, and those are the given ends */
  lemma RouteEnds<N>(p: seq<N>, a: N, b: N, nodes: seq<N>, dist: Distances<N>)
    ensures IsRoute(p, a, b, nodes, dist, {}) <==>
              |p| >= 1 && (a, b) == (p[0], p[|p| - 1]) && IsRoute(p, p[0], p[|p| - 1], nodes, dist, {})
  {
  }

  /**
   * The candidates are exactly the simple paths from a node to a later
   * node of the list (with unique nodes): each such path is scored once,
   * and no path is scored in the other direction.
   */
  lemma CandidatesExactlyOnce<N>(nodes: seq<N>, dist: Distances<N>, p: seq<N>)
    requires NoDuplicates(nodes)
    ensures multiset(Candidates(nodes, dist))[p] ==
              if && |p| >= 1 && Precedes(nodes, p[0], p[|p| - 1])
                 && IsRoute(p, p[0], p[|p| - 1], nodes, dist, {}) then 1 else 0
  {
    AllPathsCount(Pairs(nodes), nodes, dist, p);
    if |p| >= 1 {
      PairsExactlyOnce(nodes, (p[0], p[|p| - 1]));
    }
  }

  /**
   * The result of the scan: a non-negative best rate no candidate beats;
   * no path exactly when no candidate has a positive rate (the rate then
   * 0.0); otherwise the first candidate, in scoring order, that reaches
   * the best rate.
   */
  ghost predicate IsFirstBest<N>(cands: seq<seq<N>>, rate: seq<N> -> real, best: Option<seq<N>>, bestRate: real) {
    && bestRate >= 0.0
    && (forall j :: 0 <= j < |cands| ==> rate(cands[j]) <= bestRate)
    && (best.None? <==> forall j :: 0 <= j < |cands| ==> rate(cands[j]) <= 0.0)
    && (best.None? ==> bestRate == 0.0)
    && (best.Some? ==>
          exists k :: && 0 <= k < |cands| && cands[k] == best.value && rate(cands[k]) == bestRate
                      && forall j :: 0 <= j < k ==> rate(cands[j]) < bestRate)
  }

  /** The scan's specification leaves no choice: at most one result satisfies it */
  lemma FirstBestUnique<N>(cands: seq<seq<N>>, rate: seq<N> -> real, b1: Option<seq<N>>, r1: real, b2: Option<seq<N>>, r2: real)
    requires IsFirstBest(cands, rate, b1, r1) && IsFirstBest(cands, rate, b2, r2)
    ensures b1 == b2 && r1 == r2
  {
    if b1.Some? && b2.Some? {
      var k1 :| && 0 <= k1 < |cands| && cands[k1] == b1.value && rate(cands[k1]) == r1
                && forall j :: 0 <= j < k1 ==> rate(cands[j]) < r1;
      var k2 :| && 0 <= k2 < |cands| && cands[k2] == b2.value && rate(cands[k2]) == r2
                && forall j :: 0 <= j < k2 ==> rate(cands[j]) < r2;
      assert r1 == r2;
      assert !(k1 < k2) by { assert rate(cands[k1]) == r1; }
      assert !(k2 < k1) by { assert rate(cands[k2]) == r2; }
    }
  }

  /**
   * `find_optimal_path` over any rate function: enumerate the paths of
   * every pair of `combinations(nodes, 2)`, then scan them keeping the
   * first strictly better one, starting from no path and rate 0.0.
   */
  method FindOptimalPath<N(==)>(nodes: seq<N>, dist: Distances<N>, rate: seq<N> -> real)
    returns (best: Option<seq<N>>, bestRate: real)
    requires Covers(nodes, dist)
    ensures IsFirstBest(Candidates(nodes, dist), rate, best, bestRate)
  {
    var pairs := Pairs(nodes);
    var allPaths := [];
    for i := 0 to |pairs|
      invariant allPaths == AllPaths(pairs[..i], nodes, dist)
    {
      var src, dst := pairs[i].0, pairs[i].1;
      PairsMembers(nodes, pairs[i]);
      var paths := EnumeratePaths(src, dst, nodes, dist, {});
      AllPathsSnoc(pairs, nodes, dist, i);
      allPaths := allPaths + paths;
    }
    assert pairs[..|pairs|] == pairs;

    best, bestRate := None, 0.0;
    ghost var at := 0;
    for i := 0 to |allPaths|
      invariant bestRate >= 0.0
      invariant forall j :: 0 <= j < i ==> rate(allPaths[j]) <= bestRate
      invariant best.None? <==> forall j :: 0 <= j < i ==> rate(allPaths[j]) <= 0.0
      invariant best.None? ==> bestRate == 0.0
      invariant best.Some? ==>
                  && 0 <= at < i && allPaths[at] == best.value && rate(allPaths[at]) == bestRate
                  && forall j :: 0 <= j < at ==> rate(allPaths[j]) < bestRate
    {
      var r := rate(allPaths[i]);
      if r > bestRate {
        best, bestRate := Some(allPaths[i]), r;
        at := i;
      }
    }
  }

  /**
   * The end-to-end rate where it is defined, 0.0 elsewhere (every
   * candidate of a valid topology is in the defined part, see
   * CandidateRateInput)
   */
  function PathRate<N>(net: QuantumNetwork, exp: real -> real, dist: Distances<N>, p: seq<N>): real {
    if RateInput(net, exp, p, dist) then EndToEndRate(net, exp, p, dist) else 0.0
  }

  function RouteRate<N>(net: QuantumNetwork, exp: real -> real, dist: Distances<N>): seq<N> -> real {
    p => PathRate(net, exp, dist, p)
  }

  /** On a valid topology with unique nodes every candidate is a valid input of the end-to-end rate */
  lemma CandidateRateInput<N>(net: QuantumNetwork, exp: real -> real, nodes: seq<N>, dist: Distances<N>, p: seq<N>)
    requires ValidNetwork(net) && Attenuates(exp)
    requires NoDuplicates(nodes) && NonNegativeDistances(dist)
    requires p in Candidates(nodes, dist)
    ensures RateInput(net, exp, p, dist)
  {
    CandidatesExactlyOnce(nodes, dist, p);
    var i, j :| 0 <= i < j < |nodes| && nodes[i] == p[0] && nodes[j] == p[|p| - 1];
    assert |p| >= 2;
    forall k | 0 <= k < |p| - 1
      ensures ValidLink(net, exp, dist, p[k], p[k + 1])
    {
      assert HasLink(dist, p[k], p[k + 1]);
      var d := dist[p[k]][p[k + 1]];
      DivMonotone(0.0, d, net.L0);
    }
  }

  /**
   * `find_optimal_path` with the end-to-end rate of the model (the
   * repaired recursion): the first candidate with the highest rate, or no
   * path and 0.0 when no candidate has a positive rate.
   */
  method FindOptimalRoute<N(==)>(net: QuantumNetwork, exp: real -> real, nodes: seq<N>, dist: Distances<N>)
    returns (best: Option<seq<N>>, bestRate: real)
    requires ValidNetwork(net) && Attenuates(exp)
    requires NoDuplicates(nodes) && Covers(nodes, dist) && NonNegativeDistances(dist)
    ensures IsFirstBest(Candidates(nodes, dist), RouteRate(net, exp, dist), best, bestRate)
    ensures forall p :: p in Candidates(nodes, dist) ==>
              RateInput(net, exp, p, dist) && EndToEndRate(net, exp, p, dist) <= bestRate
  {
    best, bestRate := FindOptimalPath(nodes, dist, RouteRate(net, exp, dist));
    var cands := Candidates(nodes, dist);
    forall p | p in cands
      ensures RateInput(net, exp, p, dist) && EndToEndRate(net, exp, p, dist) <= bestRate
    {
      CandidateRateInput(net, exp, nodes, dist, p);
      var k :| 0 <= k < |cands| && cands[k] == p;
      assert RouteRate(net, exp, dist)(cands[k]) <= bestRate;
    }
  }

  /**
   * With the recursion as written, scoring any candidate of a topology
   * with unique nodes ends in RecursionError (every candidate has at least
   * two nodes), so `find_optimal_path` as written raises as soon as one
   * pair of nodes is connected.
   */
  lemma AsWrittenScoringFails<N>(net: QuantumNetwork, nodes: seq<N>, dist: Distances<N>, p: seq<N>, depth: nat)
    requires ValidNetwork(net) && NoDuplicates(nodes)
    requires p in Candidates(nodes, dist)
    ensures EndToEndAsWritten(net, p, dist, depth) == RecursionError
  {
    CandidatesExactlyOnce(nodes, dist, p);
    var i, j :| 0 <= i < j < |nodes| && nodes[i] == p[0] && nodes[j] == p[|p| - 1];
    AsWrittenNeverReturns(net, p, dist, depth);
  }
}
