# Quantum network path selection — a verified model

The system estimates how fast entangled pairs can be generated between two
nodes of a quantum network and picks the path that maximises that rate.

- **Link rate.** A single fibre link's heralded entanglement rate follows from the
  atom-photon and detector efficiencies, the fibre attenuation `exp(-d/L0)` and the
  attempt timings. It is zero when the memory coherence time `T_ch` is shorter than
  the link's signal time.
- **End-to-end rate.** A path's rate is composed recursively. The path is split at its
  middle node, both halves are rated, and the halves are joined by an
  entanglement swap. The swap is again cut off when the slower half plus the
  swap duration outlasts `T_ch`.
- **Path search.** A depth-first backtracking search enumerates every simple path
  between two nodes. The optimal-path search enumerates the paths of every
  pair from `combinations(nodes, 2)` and keeps the first path with the
  strictly highest rate.

The project has three modules:

- `Topology` (`topology.dfy`): node identifiers of any equality type, the
  distance graph `map<N, map<N, real>>`, and walks and simple paths.
- `RateModel` (`rate_model.dfy`): the parameter record `QuantumNetwork` and its
  default values, the link rate, the swap, and the end-to-end recursion.
  The recursion appears twice:
  - `EndToEndAsWritten` follows the source as written, where each call
    returns a rate or the exception it raises.
  - `EndToEndRate` is the repaired version with its base case at two nodes.
    It is the one the rest of the model uses.
- `PathSearch` (`path_search.dfy`):
  - `EnumeratePaths` is an imperative recursive method with loops, proved equal
    to the specification function `Paths`.
  - `Pairs` models `combinations`.
  - `FindOptimalPath` is an imperative scan over any rate function.
    `FindOptimalRoute` is the same scan using the repaired end-to-end rate.

`np.exp` is a parameter `exp: real -> real` of the rate model. A single
rate needs only `exp(-d/L0)` in [0, 1] for each link of the path. The
monotonicity results need `exp` to be bounded and increasing on
non-positive arguments (`Attenuates`).

The code disagrees with itself on the recursion's base case. The branch
is commented `# Direct link case` (`main/app.py:54`) and reads the pair
`path[0]`, `path[1]` (`main/app.py:55`): a two-node path. The test in front
of it (`main/app.py:53`) is `len(path) == 1`. The model follows the code
in `EndToEndAsWritten` and records the discrepancy under "Findings".

## Model

| member | source | states |
|---|---|---|
| RateModel.DefaultNetwork | main/app.py:9-24 | The constructor's default parameters are physically valid (efficiencies in [0, 1], positive durations), with a 10 ms coherence time, 2e8 m/s fibre light speed and 22 km attenuation length |
| RateModel.LinkEfficiency | main/app.py:31 | The distance-independent factor 0.5·v_o·(p_ht·v_h·v_t)² of the success probability lies in [0, 0.5] |
| RateModel.SuccessProbability | main/app.py:31 | The per-attempt success probability lies in [0, 0.5] |
| RateModel.RoundTrip | main/app.py:34 | The signal time of one attempt is the telecom plus optical detection time plus d/c_f, so it is never below tau_t + tau_o |
| RateModel.LinkRate | main/app.py:29-47 | The link rate is non-negative; it is zero exactly when the coherence time is strictly shorter than the signal time or the success probability is zero; otherwise it never exceeds one success per successful-attempt duration |
| RateModel.SuccessTime | main/app.py:35 | Definition: a successful attempt takes tau_p plus the longer of tau_h and the signal time |
| RateModel.FailureTime | main/app.py:38 | Definition: a failed attempt takes tau_p plus the longest of tau_h, the signal time and the cooling time tau_d |
| RateModel.ExpectedTime | main/app.py:41 | Definition: the expected time per success ((1 − p)·T_fail + p·T_success) / p, for p ≠ 0 |
| RateModel.ExpectedTimeSplit | main/app.py:41 | The expected time per success equals T_fail·(1/p − 1) + T_success: the expected failures followed by one success |
| RateModel.ExpectedTimeBound | main/app.py:35-41 | The expected time per success is at least one successful attempt, so the link rate is positive and at most 1/T_success |
| RateModel.ExpectedTimeMonotone | main/app.py:35-41 | A lower success probability and longer attempts never shorten the expected time |
| RateModel.SuccessProbabilityMonotone | main/app.py:31 | For an attenuating exp, a longer link has a success probability no higher than a shorter one |
| RateModel.LinkRateMonotone | main/app.py:29-47 | For an attenuating exp, a longer link never has a higher rate |
| RateModel.DefaultCutoffDistance | main/app.py:34-45 | With the default parameters a link is cut off exactly when it is longer than 1996 km |
| RateModel.Split | main/app.py:59-61 | Splitting at k = len/2 gives, for three or more nodes, two strictly shorter halves of at least two nodes that share the middle node and reassemble to the path; for two or fewer nodes the left half is the whole path |
| RateModel.SwapRate | main/app.py:67-84 | A swap's rate is non-negative and at most each half's rate. It is zero exactly when a half is zero or the slower half's time plus tau_a exceeds T_ch. Otherwise it is v_a / (max(1/r_l, 1/r_r) + tau_a), and rate·T_ch ≥ v_a |
| RateModel.EndToEndRate | main/app.py:52-84 | The repaired end-to-end rate is defined on every path of at least two nodes whose links are valid, and is non-negative |
| RateModel.EndToEndBoundedByLinks | main/app.py:52-84 | No path's end-to-end rate exceeds the rate of any one of its links |
| RateModel.ShortCoherenceInfeasible | main/app.py:44-45 | A coherence time shorter than tau_t + tau_o makes every path's rate zero |
| RateModel.EndToEndAsWritten | main/app.py:52-65 | The outcome of the recursion as written, with a frame budget: a rate, or the exception the call raises (KeyError, IndexError or RecursionError). Its own ensures, that a returned rate is non-negative, is vacuous; its content is AsWrittenNeverReturns |
| RateModel.AsWrittenNeverReturns | main/app.py:53-61 | The recursion as written never returns a rate. A one-node path raises KeyError (node without an entry) or IndexError. Every path of two or more nodes splits until its left half has two nodes, then recurses on that identical half until the frame budget runs out (RecursionError); an empty path does the same |
| PathSearch.Paths | main/app.py:111-125 | Definition of the search's result: `[[dst]]` when src is dst, otherwise the neighbour loop over all of `nodes` with src added to the visited set |
| PathSearch.Branches | main/app.py:120-124 | Definition of the neighbour loop after n nodes: the paths through each listed node that is unvisited and a neighbour of src, src put in front, in node-list order |
| PathSearch.AppendPrefixed | main/app.py:122-123 | The inner loop appends exactly the sub-paths with src put in front, in order, after the paths already collected |
| PathSearch.EnumeratePaths | main/app.py:111-125 | The depth-first search returns exactly the sequence `Paths` (`[[dst]]` on arrival; otherwise the extensions through each unvisited neighbour in node-list order), given that every expanded node has an adjacency entry |
| PathSearch.RouteCons | main/app.py:120-123 | A route of two or more nodes is exactly a link from src to an unvisited listed neighbour followed by a route from that neighbour that also avoids src |
| PathSearch.PathsSound | main/app.py:111-125 | Every enumerated path is a simple path from src to dst along graph links, through listed nodes outside the visited set |
| PathSearch.BranchesSound | main/app.py:120-123 | Every path the neighbour loop collects is such a route |
| PathSearch.PrependCount | main/app.py:122-123 | Prefixing src to every sub-path keeps the number of occurrences of each path |
| PathSearch.PathsExactlyOnce | main/app.py:111-125 | With unique node identifiers every route is enumerated exactly once and nothing else is: no path is missed and none is duplicated |
| PathSearch.BranchesExactlyOnce | main/app.py:120-123 | After the first n neighbours, the loop has collected exactly once each route whose second node is one of them |
| PathSearch.Pairs | main/app.py:92 | Definition of `combinations(nodes, 2)`: for each position, the node paired with each later node, positions in lexicographic order |
| PathSearch.PairsWithCount | main/app.py:92 | Pairing x with each later node yields the pair (x, y) as often as y occurs later |
| PathSearch.PairsExactlyOnce | main/app.py:92 | With unique nodes, `combinations(nodes, 2)` yields (a, b) exactly once when a precedes b in the list and never otherwise |
| PathSearch.PairsMembers | main/app.py:92 | Every generated pair is two listed nodes, the first before the second |
| PathSearch.AllPaths | main/app.py:91-96 | Definition of `all_paths`: the enumerations from an empty visited set for the given pairs, concatenated in pair order |
| PathSearch.Candidates | main/app.py:91-96 | Definition: the `all_paths` of `combinations(nodes, 2)`, the sequence the scan visits |
| PathSearch.AllPathsCount | main/app.py:91-96 | The concatenated enumerations contain each route as often as its (first, last) node pair occurs among the pairs |
| PathSearch.CandidatesExactlyOnce | main/app.py:89-96 | With unique nodes the scored paths are exactly the simple paths whose first node precedes their last node in the node list, each scored once |
| PathSearch.FirstBestUnique | main/app.py:98-108 | The scan's result is fully determined: two results meeting its specification are equal |
| PathSearch.FindOptimalPath | main/app.py:89-108 | The result rate is non-negative and no candidate beats it. The result is no path, with rate 0.0, exactly when no candidate has a positive rate. Otherwise it is the first candidate in scoring order that reaches the best rate |
| PathSearch.CandidateRateInput | main/app.py:92-103 | On a valid topology with unique nodes and non-negative lengths, every scored path is a valid input of the end-to-end rate |
| PathSearch.FindOptimalRoute | main/app.py:89-108 | With the repaired end-to-end rate: every candidate's rate is defined and at most the returned rate, and the result is the first best candidate as above |
| PathSearch.AsWrittenScoringFails | main/app.py:92-103 | With the recursion as written, scoring any candidate raises RecursionError |

## Left out

- The numerical body of `np.exp` is not modelled: it is the parameter `exp`.
- IEEE-754 double arithmetic is not modelled: rates, times and lengths are exact reals. The decimal literals of the default parameters are taken at their exact decimal values. Rounding and overflow are not modelled.
- The one floating-point special case the rate depends on is modelled: a success probability that underflows to 0 makes the expected time infinite and the rate `1.0/inf == 0.0`, so `RateModel.LinkRate` returns 0.0 there.
- PathSearch.EnumeratePaths: its precondition is sufficient, not exact. It requires an adjacency entry for `src` (unless `src == dst`) and for every listed node other than `dst`. Python only raises KeyError when it actually looks up an unvisited neighbour of a node without an entry.
- PathSearch.EnumeratePaths: the caller's `visited` set is taken as a value. `visited.add(src)` in the source also mutates a set the caller passed in, and that aliasing is not modelled. The recursive calls receive copies, so the result is the same.
- PathSearch.EnumeratePaths: adjacency entries whose value is `None` (treated as "no link" by `.get(..) is not None`) are not modelled; distances are reals.
- PathSearch.PathsExactlyOnce: "exactly once" is stated only for node lists without duplicates. With a repeated identifier the source explores that neighbour twice and returns its paths twice; the model's `Paths` does the same, but no count is proved for it.
- PathSearch.FindOptimalPath: the output order of the enumeration is the order fixed by `Paths` and `Pairs`. No separate ordering lemma (such as lexicographic order of node positions) is stated.
- PathSearch.FindOptimalPath: requires an adjacency entry for every listed node (`Covers`), which is stricter than the source. With nodes `[A, B]` and distances `{A: {B: 5000.0}}` the source enumerates `[[A, B]]` without a KeyError; the model does not cover such inputs.
- PathSearch.FindOptimalRoute: requires `Covers` as FindOptimalPath does, with the same gap.
- RateModel.ValidNetwork: requires the swap efficiency `v_a` to be positive. With `v_a = 0` the source divides a numpy float by zero, gets `inf` for the swap time and returns 0.0 for a swapped path; that case is not modelled.
- RateModel.LinkInput: requires a non-negative link length `d`. The source accepts any number; a negative length (a shorter-than-zero signal time, an attenuation factor above 1) is not modelled.
- RateModel.EndToEndAsWritten: Python's recursion limit is modelled as the `depth` budget of interpreter frames. The exact frame accounting of CPython is not modelled.
- The example topology, the console output and the `__main__` entry point are not part of this model.

## Findings

| source | as written | input that shows it | evidently intended | confidence | as-written member | corrected member |
|---|---|---|---|---|---|---|
| main/app.py:53-61 | The base case tests `len(path) == 1` and then reads `path[1]`. A two-node path splits at k = 1 into `path[:2]`, the same path, and recurses on it forever | `["v1", "v2"]` with a 5 km link raises RecursionError instead of returning the link rate; `["v1"]` raises IndexError | The base case at two nodes, the direct link named by the comment at line 54 and read at line 55; every longer path splits into strictly shorter halves | high; not executed | RateModel.AsWrittenNeverReturns | RateModel.EndToEndRate |
| main/app.py:98-103 | `find_optimal_path` scores every candidate with the recursion above. Candidates have at least two nodes, so scoring the first one raises | any topology with one link, e.g. nodes `["v1", "v2"]` with `v1`–`v2` at 5 km | Scoring with the repaired rate: the first candidate with the highest rate is returned | high; not executed | PathSearch.AsWrittenScoringFails | PathSearch.FindOptimalRoute |
