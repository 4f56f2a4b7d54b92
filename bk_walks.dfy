/** The two walks the tree makes over its node dictionary, both measuring
    with `levenshtein_distance`: the descent of `add_node`, which finds where
    a new string hangs, and the stack-driven range query of `get_neighbors`. */
module Walks {
  import opened Wrappers
  import opened Nodes
  import opened EditDistance
  import opened TreeShape
  import opened StringOrder

  /** The case folding the tree never asks for: it always compares case-sensitively. */
  function Identity(s: string): string { s }

  /** The distance a tree with weight function `fnWeights` measures with:
      `levenshtein_distance` with those weights, case-sensitive and
      unbounded. */
  function DistanceOf(fnWeights: Option<Weights>): DistanceFn
  {
    (a: string, b: string) => Distance(a, b, WeightsOf(fnWeights))
  }

  /** `dist` agrees with `levenshtein_distance` under `fnWeights`. */
  ghost predicate Measures(dist: DistanceFn, fnWeights: Option<Weights>)
  {
    forall a, b {:trigger Distance(a, b, WeightsOf(fnWeights))} ::
      dist(a, b) == Distance(a, b, WeightsOf(fnWeights))
  }

  lemma DistanceOfMeasures(fnWeights: Option<Weights>)
    ensures Measures(DistanceOf(fnWeights), fnWeights)
  {
  }

  /** No value occurs twice in `order`: each is new when it is appended. */
  predicate Distinct<T(==)>(xs: seq<T>)
    decreases |xs|
  {
    |xs| == 0 || (xs[|xs| - 1] !in xs[..|xs| - 1] && Distinct(xs[..|xs| - 1]))
  }

  lemma DistinctAppend<T>(xs: seq<T>, x: T)
    requires Distinct(xs) && x !in xs
    ensures Distinct(xs + [x])
  {
    assert (xs + [x])[..|xs|] == xs;
  }

  /** A list without repetitions has as many elements as positions. */
  lemma {:induction false} DistinctElements<T>(xs: seq<T>)
    requires Distinct(xs)
    ensures |set x | x in xs| == |xs|
    decreases |xs|
  {
    if |xs| > 0 {
      var init := xs[..|xs| - 1];
      DistinctElements(init);
      assert (set x | x in xs) == (set x | x in init) + {xs[|xs| - 1]};
    }
  }

  /** In a list without repetitions, different positions hold different values. */
  lemma {:induction false} DistinctIndices<T>(xs: seq<T>)
    requires Distinct(xs)
    ensures forall i, j :: 0 <= i < j < |xs| ==> xs[i] != xs[j]
    decreases |xs|
  {
    if |xs| > 0 {
      var init := xs[..|xs| - 1];
      DistinctIndices(init);
      forall i, j | 0 <= i < j < |xs|
        ensures xs[i] != xs[j]
      {
        if j < |xs| - 1 {
          assert xs[i] == init[i] && xs[j] == init[j];
        } else {
          assert xs[i] == init[i];
        }
      }
    }
  }

  /** The `while True` loop of `add_node`: from the root, follow the link
      labelled with the distance from the current node to s until the
      current node has no such link. The path followed is the descent, and
      s lies at the recorded distance from every ancestor of the stopping
      node. */
  method Descend(root: string, tree: Arena, ghost sh: Shape, ghost dist: DistanceFn,
                 fnWeights: Option<Weights>, s: string)
    returns (current: string, d: nat, ghost path: seq<int>)
    requires IsShape(root, tree, sh) && Measures(dist, fnWeights)
    ensures current in tree && d == dist(current, s) && d !in tree[current].links
    ensures Follow(tree, root, path) == Some(current)
    ensures DescentPath(tree, root, s, dist, path)
    ensures forall x :: x in sh.anc[current] ==> dist(x, s) == sh.anc[current][x]
  {
    path := [];
    current := root;
    while true
      invariant current in tree && current in sh.anc
      invariant Follow(tree, root, path) == Some(current)
      invariant DescentPath(tree, root, s, dist, path)
      invariant forall x :: x in sh.anc[current] ==> dist(x, s) == sh.anc[current][x]
      decreases |tree.Keys - sh.anc[current].Keys|
    {
      d := LevenshteinDistance(current, s, None, fnWeights, true, Identity);
      assert d == Distance(current, s, WeightsOf(fnWeights));
      if d !in tree[current].links {
        return;
      }
      DescentMovesDown(root, tree, sh, dist, s, path, current);
      path := path + [d];
      current := tree[current].links[d];
    }
  }

  /** `add_node` on the dictionary alone: descend from the root and hang s
      as a new active leaf where the descent stops. */
  method InsertLeafAlong(root: string, tree: Arena, ghost sh: Shape, ghost dist: DistanceFn,
                         fnWeights: Option<Weights>, s: string)
    returns (tree': Arena, ghost sh': Shape, ghost path: seq<int>)
    requires WellFormed(root, tree) && IsShape(root, tree, sh) && Measures(dist, fnWeights)
    requires s !in tree
    ensures WellFormed(root, tree') && IsShape(root, tree', sh')
    ensures BKDistances(sh, dist) ==> BKDistances(sh', dist)
    ensures AttachedAlong(tree, root, s, dist, path, tree')
    ensures tree'.Keys == tree.Keys + {s} && tree'[s] == NodeDict(s, true, map[])
  {
    var current, d;
    current, d, path := Descend(root, tree, sh, dist, fnWeights, s);
    InsertLeaf(root, tree, sh, dist, BKDistances(sh, dist), path, current, d, s);
    tree' := Attach(tree, current, d, s);
    sh' := ExtendShape(sh, current, d, s);
  }

  /** The inner `for` loop of `get_neighbors`: push the child behind every
      link whose label lies in lo..hi (`taken` lists those labels in the
      order pushed). Each child is pushed once, and only children the caller
      vouches for (`allowed`) can be pushed. */
  method PushInBand(links: map<int, string>, lo: int, hi: int, stack: seq<string>,
                    ghost allowed: set<string>)
    returns (stack': seq<string>, ghost taken: seq<int>)
    requires Distinct(stack)
    requires forall d :: d in links ==> links[d] in allowed && links[d] !in stack
    requires forall d1, d2 :: d1 in links && d2 in links && d1 != d2 ==> links[d1] != links[d2]
    ensures Distinct(stack') && |stack'| == |stack| + |taken| && stack'[..|stack|] == stack
    ensures forall i :: 0 <= i < |taken| ==>
      taken[i] in links && lo <= taken[i] <= hi && stack'[|stack| + i] == links[taken[i]]
    ensures forall d :: d in links && lo <= d <= hi ==> links[d] in stack'
    ensures forall i :: |stack| <= i < |stack'| ==> stack'[i] in allowed
  {
    stack' := stack;
    taken := [];
    var labels := links.Keys;
    while labels != {}
      invariant labels <= links.Keys
      invariant Distinct(stack') && |stack'| == |stack| + |taken| && stack'[..|stack|] == stack
      invariant forall i :: 0 <= i < |taken| ==>
        taken[i] in links && taken[i] !in labels && lo <= taken[i] <= hi
        && stack'[|stack| + i] == links[taken[i]]
      invariant forall d :: d in labels ==> links[d] !in stack'
      invariant forall d :: d in links && d !in labels && lo <= d <= hi ==> links[d] in stack'
      invariant forall i :: |stack| <= i < |stack'| ==> stack'[i] in allowed
      decreases labels
    {
      var d := Pick(labels);
      labels := labels - {d};
      if lo <= d <= hi {
        DistinctAppend(stack', links[d]);
        stack' := stack' + [links[d]];
        taken := taken + [d];
      }
    }
  }

  /** Every bucket is non-empty and holds active entries lying exactly at
      its distance from q, which is at most k. */
  ghost predicate SoundNeighbors(tree: Arena, dist: DistanceFn, q: string, k: int,
                                 neighbors: map<int, set<string>>)
  {
    forall d :: d in neighbors ==>
      && neighbors[d] != {}
      && forall v :: v in neighbors[d] ==> v in tree && tree[v].isActive && dist(q, v) == d && d <= k
  }

  /** Every active entry of `seen` within k of q sits in the bucket of its distance. */
  ghost predicate Covers(tree: Arena, dist: DistanceFn, q: string, k: int,
                         neighbors: map<int, set<string>>, seen: set<string>)
  {
    forall v :: v in seen && v in tree && tree[v].isActive && dist(q, v) <= k ==>
      dist(q, v) in neighbors && v in neighbors[dist(q, v)]
  }

  /** The stack discipline of the range query: every node waiting on the
      stack or already visited is an entry whose parent has been visited,
      nothing waits twice or after its visit, and the root waits or has
      been visited. */
  ghost predicate Frontier(root: string, tree: Arena, sh: Shape, stack: seq<string>, visited: set<string>)
  {
    && Distinct(stack)
    && (forall i :: 0 <= i < |stack| ==>
          && stack[i] in tree && stack[i] !in visited
          && (stack[i] == root || (stack[i] in sh.parent && sh.parent[stack[i]] in visited)))
    && (forall v :: v in visited ==>
          v in tree && (v == root || (v in sh.parent && sh.parent[v] in visited)))
    && (root in visited || root in stack)
  }

  /** Nothing within k of q has been cut off: below every visited ancestor
      of such a node, the next node on the way down is visited or waiting. */
  ghost predicate Explored(tree: Arena, sh: Shape, dist: DistanceFn, q: string, k: int,
                           stack: seq<string>, visited: set<string>)
  {
    forall u, x {:trigger Toward(tree, sh, u, x)} ::
      u in sh.anc && x in sh.anc[u] && x in visited && dist(q, u) <= k ==>
        Toward(tree, sh, u, x) in visited || Toward(tree, sh, u, x) in stack
  }

  /** The children of the node on top of the stack are neither waiting nor
      visited, and each has that node as its parent. */
  lemma ChildrenAreNew(root: string, tree: Arena, sh: Shape, stack: seq<string>,
                       visited: set<string>, children: set<string>)
    requires IsShape(root, tree, sh) && Frontier(root, tree, sh, stack, visited) && stack != []
    requires children == set c | c in tree && c in sh.parent && sh.parent[c] == stack[|stack| - 1]
    ensures var x := stack[|stack| - 1];
      x in tree && forall d :: d in tree[x].links ==>
        tree[x].links[d] in children && tree[x].links[d] !in stack[..|stack| - 1]
        && tree[x].links[d] !in visited
  {
    ChildrenOf(root, tree, sh, stack[|stack| - 1]);
  }

  /** Popping x, marking it visited and pushing some of its children keeps
      the stack discipline. */
  lemma FrontierStep(root: string, tree: Arena, sh: Shape, stack: seq<string>, visited: set<string>,
                     rest: seq<string>, stack': seq<string>, children: set<string>)
    requires IsShape(root, tree, sh) && Frontier(root, tree, sh, stack, visited) && stack != []
    requires rest == stack[..|stack| - 1]
    requires children == set c | c in tree && c in sh.parent && sh.parent[c] == stack[|stack| - 1]
    requires Distinct(stack') && |rest| <= |stack'| && stack'[..|rest|] == rest
    requires forall i :: |rest| <= i < |stack'| ==> stack'[i] in children
    ensures Frontier(root, tree, sh, stack', visited + {stack[|stack| - 1]})
  {
    WaitingStep(root, tree, sh, stack, visited, stack', children);
    var x := stack[|stack| - 1];
    if root !in visited && x != root {
      var i :| 0 <= i < |stack| && stack[i] == root;
      assert stack'[i] == rest[i] == root;
    }
    forall v | v in visited + {x}
      ensures v in tree && (v == root || (v in sh.parent && sh.parent[v] in visited + {x}))
    {
      if v == x {
        assert stack[|stack| - 1] == x;
      }
    }
  }

  /** After the pop and the push, every waiting node is an unvisited entry
      whose parent has been visited. */
  lemma WaitingStep(root: string, tree: Arena, sh: Shape, stack: seq<string>, visited: set<string>,
                    stack': seq<string>, children: set<string>)
    requires IsShape(root, tree, sh) && Frontier(root, tree, sh, stack, visited) && stack != []
    requires children == set c | c in tree && c in sh.parent && sh.parent[c] == stack[|stack| - 1]
    requires |stack| - 1 <= |stack'| && stack'[..|stack| - 1] == stack[..|stack| - 1]
    requires forall i :: |stack| - 1 <= i < |stack'| ==> stack'[i] in children
    ensures var x := stack[|stack| - 1];
      forall i :: 0 <= i < |stack'| ==>
        && stack'[i] in tree && stack'[i] !in visited + {x}
        && (stack'[i] == root || (stack'[i] in sh.parent && sh.parent[stack'[i]] in visited + {x}))
  {
    var x := stack[|stack| - 1];
    var rest := stack[..|stack| - 1];
    assert x !in rest;
    forall i | 0 <= i < |stack'|
      ensures stack'[i] in tree && stack'[i] !in visited + {x}
      ensures stack'[i] == root || (stack'[i] in sh.parent && sh.parent[stack'[i]] in visited + {x})
    {
      if i < |rest| {
        assert stack'[i] == rest[i] == stack[i];
      } else {
        NewChildWaits(root, tree, sh, visited, x, stack'[i]);
      }
    }
  }

  /** A child of an unvisited node x is neither visited nor x itself. */
  lemma NewChildWaits(root: string, tree: Arena, sh: Shape, visited: set<string>, x: string, c: string)
    requires IsShape(root, tree, sh)
    requires forall v :: v in visited ==> v == root || (v in sh.parent && sh.parent[v] in visited)
    requires x !in visited && c in tree && c in sh.parent && sh.parent[c] == x
    ensures c !in visited && c != x && c != root
  {
    assert ParentEdge(tree, sh, c);
  }

  /** Popping x, marking it visited and pushing every child whose label
      lies within k of dist(q, x) cuts nothing within k of q off. */
  lemma ExploredStep(root: string, tree: Arena, sh: Shape, dist: DistanceFn, q: string, k: int,
                     stack: seq<string>, visited: set<string>, rest: seq<string>, stack': seq<string>,
                     x: string, lev: int)
    requires IsShape(root, tree, sh) && BKDistances(sh, dist) && Metric(dist)
    requires Explored(tree, sh, dist, q, k, stack, visited)
    requires stack != [] && rest == stack[..|stack| - 1] && x == stack[|stack| - 1]
    requires |rest| <= |stack'| && stack'[..|rest|] == rest
    requires x in tree && lev == dist(q, x)
    requires forall d :: d in tree[x].links && lev - k <= d <= lev + k ==> tree[x].links[d] in stack'
    ensures Explored(tree, sh, dist, q, k, stack', visited + {x})
  {
    forall u, y | u in sh.anc && y in sh.anc[u] && y in visited + {x} && dist(q, u) <= k
      ensures Toward(tree, sh, u, y) in visited + {x} || Toward(tree, sh, u, y) in stack'
    {
      if y == x {
        PathChildInBand(root, tree, sh, dist, q, k, u, x);
      } else {
        StillWaiting(stack, rest, stack', Toward(tree, sh, u, y), visited);
      }
    }
  }

  /** A node that waited below the top of the stack still waits after the pop and push. */
  lemma StillWaiting(stack: seq<string>, rest: seq<string>, stack': seq<string>, c: string, visited: set<string>)
    requires stack != [] && rest == stack[..|stack| - 1]
    requires |rest| <= |stack'| && stack'[..|rest|] == rest
    requires c in visited || c in stack
    ensures c in visited + {stack[|stack| - 1]} || c in stack'
  {
    if c !in visited && c != stack[|stack| - 1] {
      var i :| 0 <= i < |stack| && stack[i] == c;
      assert stack'[i] == rest[i];
    }
  }

  /** With the stack empty, every node within k of q has been visited. */
  lemma ExploredIsComplete(root: string, tree: Arena, sh: Shape, dist: DistanceFn, q: string, k: int,
                           visited: set<string>)
    requires IsShape(root, tree, sh) && root in visited
    requires Explored(tree, sh, dist, q, k, [], visited)
    ensures forall u :: u in tree && dist(q, u) <= k ==> u in visited
  {
    forall u | u in tree && dist(q, u) <= k
      ensures u in visited
    {
      if u != root {
        RootIsAncestor(root, tree, sh, u);
        ClosedSetReaches(root, tree, sh, visited, u, root);
      }
    }
  }

  /** `get_neighbors` on the dictionary alone: a stack walk from the root
      that files each active node within k of q under its distance and
      descends only through links whose label lies within k of the distance
      from q to the node being left. The buckets are always right; with
      BK-tree labels and a metric, nothing within k is missed. */
  method Query(root: string, tree: Arena, ghost sh: Shape, ghost dist: DistanceFn,
               fnWeights: Option<Weights>, q: string, k: int)
    returns (neighbors: map<int, set<string>>)
    requires WellFormed(root, tree) && IsShape(root, tree, sh) && Measures(dist, fnWeights)
    ensures SoundNeighbors(tree, dist, q, k, neighbors)
    ensures BKDistances(sh, dist) && Metric(dist) ==> Covers(tree, dist, q, k, neighbors, tree.Keys)
  {
    neighbors := map[];
    var stack := [root];
    ghost var visited: set<string> := {};
    assert Distinct(stack) by {
      assert stack[..0] == [];
    }
    while stack != []
      invariant Frontier(root, tree, sh, stack, visited)
      invariant SoundNeighbors(tree, dist, q, k, neighbors)
      invariant Covers(tree, dist, q, k, neighbors, visited)
      invariant BKDistances(sh, dist) && Metric(dist) ==> Explored(tree, sh, dist, q, k, stack, visited)
      decreases |tree.Keys - visited|
    {
      ghost var visited' := visited + {stack[|stack| - 1]};
      stack, neighbors := Visit(root, tree, sh, dist, fnWeights, q, k, stack, visited, neighbors);
      visited := visited';
    }
    if BKDistances(sh, dist) && Metric(dist) {
      ExploredIsComplete(root, tree, sh, dist, q, k, visited);
    }
  }

  /** One turn of the loop of `get_neighbors`: pop x, file it when it is
      an active node within k, and push its children whose labels lie within
      k of dist(q, x). */
  method Visit(root: string, tree: Arena, ghost sh: Shape, ghost dist: DistanceFn,
               fnWeights: Option<Weights>, q: string, k: int,
               stack: seq<string>, ghost visited: set<string>, neighbors: map<int, set<string>>)
    returns (stack': seq<string>, neighbors': map<int, set<string>>)
    requires IsShape(root, tree, sh) && Measures(dist, fnWeights)
    requires stack != [] && Frontier(root, tree, sh, stack, visited)
    requires SoundNeighbors(tree, dist, q, k, neighbors) && Covers(tree, dist, q, k, neighbors, visited)
    requires BKDistances(sh, dist) && Metric(dist) ==> Explored(tree, sh, dist, q, k, stack, visited)
    ensures var x := stack[|stack| - 1];
      && |tree.Keys - (visited + {x})| < |tree.Keys - visited|
      && Frontier(root, tree, sh, stack', visited + {x})
      && SoundNeighbors(tree, dist, q, k, neighbors') && Covers(tree, dist, q, k, neighbors', visited + {x})
      && (BKDistances(sh, dist) && Metric(dist) ==> Explored(tree, sh, dist, q, k, stack', visited + {x}))
  {
    var x := stack[|stack| - 1];
    assert x in tree && x !in visited;
    FewerUnvisited(tree.Keys, visited, x);
    var lev := LevenshteinDistance(q, x, None, fnWeights, true, Identity);
    assert lev == dist(q, x) by {
      assert lev == Distance(q, x, WeightsOf(fnWeights));
    }
    neighbors' := File(tree, dist, q, k, neighbors, visited, x, tree[x].isActive, lev);
    stack' := Advance(root, tree, sh, dist, q, k, stack, visited, lev);
  }

  /** The stack part of a turn: pop x and push its children whose labels
      lie within k of lev, the distance from q to x. */
  method Advance(root: string, tree: Arena, ghost sh: Shape, ghost dist: DistanceFn, q: string, k: int,
                 stack: seq<string>, ghost visited: set<string>, lev: int)
    returns (stack': seq<string>)
    requires IsShape(root, tree, sh) && stack != [] && Frontier(root, tree, sh, stack, visited)
    requires lev == dist(q, stack[|stack| - 1])
    requires BKDistances(sh, dist) && Metric(dist) ==> Explored(tree, sh, dist, q, k, stack, visited)
    ensures var x := stack[|stack| - 1];
      && Frontier(root, tree, sh, stack', visited + {x})
      && (BKDistances(sh, dist) && Metric(dist) ==> Explored(tree, sh, dist, q, k, stack', visited + {x}))
  {
    var x := stack[|stack| - 1];
    var rest := stack[..|stack| - 1];
    stack' := Expand(root, tree, sh, stack, visited, rest, lev - k, lev + k);
    if BKDistances(sh, dist) && Metric(dist) {
      ExploredStep(root, tree, sh, dist, q, k, stack, visited, rest, stack', x, lev);
    }
  }

  /** Each visit leaves one entry fewer unvisited. */
  lemma FewerUnvisited(keys: set<string>, visited: set<string>, x: string)
    requires x in keys && x !in visited
    ensures |keys - (visited + {x})| < |keys - visited|
  {
    assert keys - (visited + {x}) == (keys - visited) - {x};
  }

  /** The stack after the pop of x and the push of its children whose
      labels lie in lo .. hi. */
  method Expand(root: string, tree: Arena, ghost sh: Shape, stack: seq<string>, ghost visited: set<string>,
                rest: seq<string>, lo: int, hi: int)
    returns (stack': seq<string>)
    requires IsShape(root, tree, sh) && stack != [] && Frontier(root, tree, sh, stack, visited)
    requires rest == stack[..|stack| - 1]
    ensures var x := stack[|stack| - 1];
      && x in tree
      && Frontier(root, tree, sh, stack', visited + {x})
      && |rest| <= |stack'| && stack'[..|rest|] == rest
      && forall d :: d in tree[x].links && lo <= d <= hi ==> tree[x].links[d] in stack'
  {
    var x := stack[|stack| - 1];
    ghost var children := set c | c in tree && c in sh.parent && sh.parent[c] == x;
    ChildrenAreNew(root, tree, sh, stack, visited, children);
    forall d1, d2 | d1 in tree[x].links && d2 in tree[x].links && d1 != d2
      ensures tree[x].links[d1] != tree[x].links[d2]
    {
      LinksAreInjective(root, tree, sh, x, d1, d2);
    }
    ghost var taken;
    stack', taken := PushInBand(tree[x].links, lo, hi, rest, children);
    FrontierStep(root, tree, sh, stack, visited, rest, stack', children);
  }

  /** The body of the `if` in `get_neighbors`: an active x within k goes
      into the bucket of its distance, created when missing. */
  method File(ghost tree: Arena, ghost dist: DistanceFn, q: string, k: int,
              neighbors: map<int, set<string>>, ghost visited: set<string>,
              x: string, active: bool, lev: int)
    returns (neighbors': map<int, set<string>>)
    requires x in tree && active == tree[x].isActive && lev == dist(q, x)
    requires SoundNeighbors(tree, dist, q, k, neighbors) && Covers(tree, dist, q, k, neighbors, visited)
    ensures SoundNeighbors(tree, dist, q, k, neighbors') && Covers(tree, dist, q, k, neighbors', visited + {x})
  {
    neighbors' := neighbors;
    if lev <= k && active {
      neighbors' := neighbors[lev := (if lev in neighbors then neighbors[lev] else {}) + {x}];
    }
  }
}
