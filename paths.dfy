/** Paths through the open cells of a maze, the parent links a search records,
    and the facts about them that the two solvers rely on. */
module Paths {
  import opened Cells
  import opened Options

  /** `path` starts at `from`, stays inside `open`, and moves one orthogonal step at a time. */
  ghost predicate IsPathFrom(open: set<Pos>, from: Pos, path: seq<Pos>)
  {
    && |path| >= 1
    && path[0] == from
    && (forall k :: 0 <= k < |path| ==> path[k] in open)
    && (forall k :: 0 <= k < |path| - 1 ==> Adjacent(path[k], path[k + 1]))
  }

  /** Some open path from `from` ends at `q` in at most `n` positions. */
  ghost predicate ReachableWithin(open: set<Pos>, from: Pos, q: Pos, n: nat)
  {
    exists P :: IsPathFrom(open, from, P) && P[|P| - 1] == q && |P| <= n
  }

  /** Some open path from `from` ends at `q`. */
  ghost predicate Reachable(open: set<Pos>, from: Pos, q: Pos)
  {
    exists P :: IsPathFrom(open, from, P) && P[|P| - 1] == q
  }

  /** No position occurs twice. */
  ghost predicate Distinct(s: seq<Pos>)
  {
    forall a, b :: 0 <= a < b < |s| ==> s[a] != s[b]
  }

  /** The parent recorded for `p`, looked up under the key `p` has once it is marked solved. */
  ghost predicate HasParent(parents: map<Key, Option<Pos>>, depth: map<Pos, nat>, p: Pos)
    requires p in depth
  {
    && SolvedKey(p) in parents
    && parents[SolvedKey(p)].Some?
    && parents[SolvedKey(p)].value in depth
    && Adjacent(parents[SolvedKey(p)].value, p)
    && depth[p] == depth[parents[SolvedKey(p)].value] + 1
  }

  /** The parent links of a search: every discovered position other than `start`
      has an adjacent parent one link closer to `start`, and the lookup for
      `start` yields nothing. */
  ghost predicate ParentLinks(parents: map<Key, Option<Pos>>, depth: map<Pos, nat>, start: Pos)
  {
    && start in depth
    && depth[start] == 0
    && (SolvedKey(start) in parents ==> parents[SolvedKey(start)] == None)
    && forall p :: p in depth && p != start ==> HasParent(parents, depth, p)
  }

  /** The positions met when following the parent links from `p` back to `start`,
      listed from `start` to `p`. */
  ghost function Chain(parents: map<Key, Option<Pos>>, depth: map<Pos, nat>, start: Pos, p: Pos): seq<Pos>
    requires ParentLinks(parents, depth, start) && p in depth
    decreases depth[p]
  {
    if p == start then [p]
    else Chain(parents, depth, start, parents[SolvedKey(p)].value) + [p]
  }

  /** The chain to `p` is a path of `depth[p]` steps from `start` to `p` through
      discovered positions, and its k-th position is k links from `start`. */
  lemma {:induction false} ChainShape(parents: map<Key, Option<Pos>>, depth: map<Pos, nat>, start: Pos, p: Pos)
    requires ParentLinks(parents, depth, start) && p in depth
    ensures var c := Chain(parents, depth, start, p);
      && |c| == depth[p] + 1
      && c[|c| - 1] == p
      && IsPathFrom(depth.Keys, start, c)
      && (forall k :: 0 <= k < |c| ==> depth[c[k]] == k)
      && Distinct(c)
    decreases depth[p]
  {
    if p != start {
      var q := parents[SolvedKey(p)].value;
      ChainShape(parents, depth, start, q);
      var c := Chain(parents, depth, start, p);
      assert c == Chain(parents, depth, start, q) + [p];
    }
  }

  /** `chain` is what following the parent links back from its last position
      meets: each position's solved key leads to the one before it, and the first
      position's key leads nowhere. */
  ghost predicate LinkedChain(parents: map<Key, Option<Pos>>, chain: seq<Pos>)
  {
    && |chain| >= 1
    && (SolvedKey(chain[0]) in parents ==> parents[SolvedKey(chain[0])] == None)
    && forall k :: 0 < k < |chain| ==> SolvedKey(chain[k]) in parents && parents[SolvedKey(chain[k])] == Some(chain[k - 1])
  }

  /** Following the parent links back from `p` meets exactly the chain to `p`. */
  lemma {:induction false} ChainLinks(parents: map<Key, Option<Pos>>, depth: map<Pos, nat>, start: Pos, p: Pos)
    requires ParentLinks(parents, depth, start) && p in depth
    ensures Chain(parents, depth, start, p)[0] == start
    ensures LinkedChain(parents, Chain(parents, depth, start, p))
    decreases depth[p]
  {
    if p != start {
      var q := parents[SolvedKey(p)].value;
      assert HasParent(parents, depth, p);
      ChainLinks(parents, depth, start, q);
      ChainShape(parents, depth, start, q);
      var c := Chain(parents, depth, start, p);
      assert c == Chain(parents, depth, start, q) + [p];
    }
  }

  /** One link back: the parent of a position other than `start` is discovered
      one level shallower, and its chain is one position shorter. */
  lemma ChainStep(parents: map<Key, Option<Pos>>, depth: map<Pos, nat>, start: Pos, p: Pos)
    requires ParentLinks(parents, depth, start) && p in depth && p != start
    ensures SolvedKey(p) in parents && parents[SolvedKey(p)].Some?
    ensures var q := parents[SolvedKey(p)].value;
      && q in depth && depth[q] < depth[p]
      && Chain(parents, depth, start, p) == Chain(parents, depth, start, q) + [p]
  {
    assert HasParent(parents, depth, p);
  }

  /** Recording a new position and its parent leaves every existing chain as it was. */
  lemma {:induction false} ChainExtends(parents: map<Key, Option<Pos>>, depth: map<Pos, nat>,
                                        parents': map<Key, Option<Pos>>, depth': map<Pos, nat>,
                                        start: Pos, p: Pos)
    requires ParentLinks(parents, depth, start) && ParentLinks(parents', depth', start)
    requires forall q :: q in depth ==> q in depth' && depth'[q] == depth[q]
    requires forall q :: q in depth && q != start ==> parents'[SolvedKey(q)] == parents[SolvedKey(q)]
    requires p in depth
    ensures Chain(parents', depth', start, p) == Chain(parents, depth, start, p)
    decreases depth[p]
  {
    if p != start {
      ChainExtends(parents, depth, parents', depth', start, parents[SolvedKey(p)].value);
    }
  }

  /** A set of positions that contains `from` and every open neighbour of its
      members contains the end of every open path from `from`. */
  lemma {:induction false} ClosedSetContainsPaths(open: set<Pos>, reached: set<Pos>, from: Pos, path: seq<Pos>)
    requires from in reached
    requires forall u, q :: u in reached && q in open && Adjacent(u, q) ==> q in reached
    requires IsPathFrom(open, from, path)
    ensures path[|path| - 1] in reached
    decreases |path|
  {
    if |path| > 1 {
      var prefix := path[..|path| - 1];
      assert IsPathFrom(open, from, prefix);
      ClosedSetContainsPaths(open, reached, from, prefix);
      assert Adjacent(prefix[|prefix| - 1], path[|path| - 1]);
    }
  }

  /** The level argument of breadth-first search. Let every neighbour of an expanded
      position be discovered at most one level deeper, and every position found
      shallower than `bound` be expanded. Then an open path of at most `bound`
      steps ends at a discovered position no deeper than the path is long. */
  lemma {:induction false} ShortPathsAreDiscovered(open: set<Pos>, dist: map<Pos, nat>, expanded: set<Pos>,
                                                   from: Pos, bound: nat, path: seq<Pos>)
    requires from in expanded && from in dist && dist[from] == 0
    requires forall u, q :: u in expanded && q in open && Adjacent(u, q) ==>
               u in dist && q in dist && dist[q] <= dist[u] + 1
    requires forall p :: p in dist && dist[p] < bound ==> p in expanded
    requires IsPathFrom(open, from, path) && |path| - 1 <= bound
    ensures path[|path| - 1] in dist && dist[path[|path| - 1]] <= |path| - 1
    decreases |path|
  {
    if |path| > 1 {
      var prefix := path[..|path| - 1];
      assert IsPathFrom(open, from, prefix);
      ShortPathsAreDiscovered(open, dist, expanded, from, bound, prefix);
      var u := prefix[|prefix| - 1];
      assert Adjacent(u, path[|path| - 1]);
      assert u in expanded;
    }
  }

  /** Breadth-first optimality: when the positions shallower than `goal` have all
      been expanded, no open path reaches `goal` in fewer steps than its depth. */
  lemma {:induction false} DepthIsShortest(open: set<Pos>, dist: map<Pos, nat>, expanded: set<Pos>,
                                           from: Pos, goal: Pos, path: seq<Pos>)
    requires from in expanded && from in dist && dist[from] == 0
    requires forall u, q :: u in expanded && q in open && Adjacent(u, q) ==>
               u in dist && q in dist && dist[q] <= dist[u] + 1
    requires goal in dist
    requires forall p :: p in dist && dist[p] < dist[goal] ==> p in expanded
    requires IsPathFrom(open, from, path) && path[|path| - 1] == goal
    ensures dist[goal] <= |path| - 1
  {
    if |path| - 1 < dist[goal] {
      ShortPathsAreDiscovered(open, dist, expanded, from, dist[goal], path);
    }
  }
}
