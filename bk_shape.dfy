/** The node graph of a BK-tree as an arena: each string value maps to its
    node in dictionary form, and a link names its child by value. This module
    states what it means for the arena to be a tree whose edge labels are
    distances, and proves the facts insertion and the range query rely on. */
module TreeShape {
  import opened Wrappers
  import opened Nodes

  /** The flat value-to-node dictionary of the tree. */
  type Arena = map<string, NodeDict>

  /** A distance oracle, for instance the Levenshtein distance. */
  type DistanceFn = (string, string) -> nat

  /** The root exists, every entry is stored under its own value and every
      link names an entry. */
  predicate WellFormed(root: string, nodes: Arena)
  {
    && root in nodes
    && (forall v :: v in nodes ==> nodes[v].value == v)
    && (forall v, d :: v in nodes && d in nodes[v].links ==> nodes[v].links[d] in nodes)
  }

  /** A witness that the arena is a tree: for every node, its ancestors with
      the label of the edge that leaves each of them towards the node, and
      for every node but the root, its parent. */
  datatype Shape = Shape(anc: map<string, map<string, int>>, parent: map<string, string>)

  /** u hangs below its parent by the edge its ancestor map records. */
  ghost predicate ParentEdge(nodes: Arena, sh: Shape, u: string)
    requires u in sh.parent && u in sh.anc
  {
    var p := sh.parent[u];
    && p in nodes && p in sh.anc && p in sh.anc[u]
    && sh.anc[u] == sh.anc[p][p := sh.anc[u][p]]
    && sh.anc[u][p] in nodes[p].links
    && nodes[p].links[sh.anc[u][p]] == u
  }

  /** The link x --d--> c is c's parent edge. */
  ghost predicate LinkEdge(nodes: Arena, sh: Shape, x: string, d: int)
    requires x in nodes && d in nodes[x].links
  {
    var c := nodes[x].links[d];
    && c in sh.parent && sh.parent[c] == x
    && c in sh.anc && x in sh.anc[c] && sh.anc[c][x] == d
  }

  /** Leaving the ancestor x by the label recorded for u leads to u or to
      another ancestor of u. */
  ghost predicate OnPath(nodes: Arena, sh: Shape, u: string, x: string)
    requires u in sh.anc && x in sh.anc[u]
  {
    var d := sh.anc[u][x];
    && x in nodes && d in nodes[x].links
    && (nodes[x].links[d] == u || nodes[x].links[d] in sh.anc[u])
  }

  ghost predicate IsShape(root: string, nodes: Arena, sh: Shape)
  {
    && sh.anc.Keys == nodes.Keys
    && sh.parent.Keys == nodes.Keys - {root}
    && root in sh.anc && sh.anc[root] == map[]
    && (forall u :: u in sh.anc ==> u !in sh.anc[u] && sh.anc[u].Keys <= nodes.Keys)
    && (forall u {:trigger ParentEdge(nodes, sh, u)} :: u in sh.parent ==> ParentEdge(nodes, sh, u))
    && (forall x, d {:trigger LinkEdge(nodes, sh, x, d)} ::
          x in nodes && d in nodes[x].links ==> LinkEdge(nodes, sh, x, d))
    && (forall u, x {:trigger OnPath(nodes, sh, u, x)} ::
          u in sh.anc && x in sh.anc[u] ==> OnPath(nodes, sh, u, x))
  }

  /** The BK invariant: every node lies at distance `label` from each of its
      ancestors, where `label` is the edge by which the path to it leaves
      that ancestor. Insertion establishes it; the range query relies on it. */
  ghost predicate BKDistances(sh: Shape, dist: DistanceFn)
  {
    forall u, x :: u in sh.anc && x in sh.anc[u] ==> dist(x, u) == sh.anc[u][x]
  }

  /** The way from a to c through b is no shorter than the direct one. */
  ghost predicate Triangle(dist: DistanceFn, a: string, b: string, c: string)
  {
    dist(a, c) <= dist(a, b) + dist(b, c)
  }

  /** `dist` is symmetric and obeys the triangle inequality. */
  ghost predicate Metric(dist: DistanceFn)
  {
    && (forall a, b :: dist(a, b) == dist(b, a))
    && (forall a, b, c {:trigger Triangle(dist, a, b, c)} :: Triangle(dist, a, b, c))
  }

  /** Each edge label equals the distance between parent and child. */
  lemma EdgeLabelsAreDistances(root: string, nodes: Arena, sh: Shape, dist: DistanceFn, x: string, d: int)
    requires IsShape(root, nodes, sh) && BKDistances(sh, dist)
    requires x in nodes && d in nodes[x].links
    ensures dist(x, nodes[x].links[d]) == d
  {
    assert LinkEdge(nodes, sh, x, d);
  }

  /** The node reached from `from` by following the labels of `path`. */
  function Follow(nodes: Arena, from: string, path: seq<int>): Option<string>
    decreases |path|
  {
    if path == [] then Some(from)
    else
      match Follow(nodes, from, path[..|path| - 1])
      case None => None
      case Some(x) =>
        if x in nodes && path[|path| - 1] in nodes[x].links
        then Some(nodes[x].links[path[|path| - 1]])
        else None
  }

  lemma AncestorCount(root: string, nodes: Arena, sh: Shape, u: string)
    requires IsShape(root, nodes, sh) && u in sh.parent
    ensures sh.parent[u] in sh.anc && |sh.anc[u]| == |sh.anc[sh.parent[u]]| + 1
  {
    assert ParentEdge(nodes, sh, u);
    var p := sh.parent[u];
    assert sh.anc[u].Keys == sh.anc[p].Keys + {p};
  }

  /** Every entry of the dictionary is reachable from the root. */
  lemma {:induction false} ReachableFromRoot(root: string, nodes: Arena, sh: Shape, u: string)
    returns (path: seq<int>)
    requires IsShape(root, nodes, sh) && u in nodes
    ensures Follow(nodes, root, path) == Some(u)
    decreases |sh.anc[u]|
  {
    if u == root {
      path := [];
    } else {
      assert ParentEdge(nodes, sh, u);
      var p := sh.parent[u];
      AncestorCount(root, nodes, sh, u);
      var prefix := ReachableFromRoot(root, nodes, sh, p);
      path := prefix + [sh.anc[u][p]];
      assert path[..|path| - 1] == prefix;
    }
  }

  /** A node reached by a path is an entry of the dictionary. */
  lemma {:induction false} FollowStaysInside(root: string, nodes: Arena, sh: Shape, path: seq<int>)
    requires IsShape(root, nodes, sh)
    requires Follow(nodes, root, path).Some?
    ensures Follow(nodes, root, path).value in nodes
    decreases |path|
  {
    if path != [] {
      FollowStaysInside(root, nodes, sh, path[..|path| - 1]);
      var x := Follow(nodes, root, path[..|path| - 1]).value;
      assert LinkEdge(nodes, sh, x, path[|path| - 1]);
    }
  }

  /** Following a non-empty path never leads back to the root. */
  lemma NoLinkLeadsToRoot(root: string, nodes: Arena, sh: Shape, path: seq<int>)
    requires IsShape(root, nodes, sh)
    requires path != [] && Follow(nodes, root, path).Some?
    ensures Follow(nodes, root, path).value != root
  {
    var x := Follow(nodes, root, path[..|path| - 1]).value;
    FollowStaysInside(root, nodes, sh, path[..|path| - 1]);
    assert LinkEdge(nodes, sh, x, path[|path| - 1]);
  }

  /** There is only one path from the root to each node. */
  lemma {:induction false} UniquePath(root: string, nodes: Arena, sh: Shape, p1: seq<int>, p2: seq<int>)
    requires IsShape(root, nodes, sh)
    requires Follow(nodes, root, p1).Some? && Follow(nodes, root, p1) == Follow(nodes, root, p2)
    ensures p1 == p2
    decreases |p1| + |p2|
  {
    var u := Follow(nodes, root, p1).value;
    if p1 == [] && p2 == [] {
    } else if p1 == [] || p2 == [] {
      NoLinkLeadsToRoot(root, nodes, sh, if p1 == [] then p2 else p1);
    } else {
      var x1 := Follow(nodes, root, p1[..|p1| - 1]).value;
      var x2 := Follow(nodes, root, p2[..|p2| - 1]).value;
      FollowStaysInside(root, nodes, sh, p1[..|p1| - 1]);
      FollowStaysInside(root, nodes, sh, p2[..|p2| - 1]);
      assert LinkEdge(nodes, sh, x1, p1[|p1| - 1]);
      assert LinkEdge(nodes, sh, x2, p2[|p2| - 1]);
      UniquePath(root, nodes, sh, p1[..|p1| - 1], p2[..|p2| - 1]);
      assert p1 == p1[..|p1| - 1] + [p1[|p1| - 1]];
      assert p2 == p2[..|p2| - 1] + [p2[|p2| - 1]];
    }
  }

  /** The root is an ancestor of every other node. */
  lemma {:induction false} RootIsAncestor(root: string, nodes: Arena, sh: Shape, u: string)
    requires IsShape(root, nodes, sh) && u in nodes && u != root
    ensures root in sh.anc[u]
    decreases |sh.anc[u]|
  {
    assert ParentEdge(nodes, sh, u);
    var p := sh.parent[u];
    if p != root {
      AncestorCount(root, nodes, sh, u);
      RootIsAncestor(root, nodes, sh, p);
    }
  }

  /** A new leaf s hung below p by the label d. */
  function Attach(nodes: Arena, p: string, d: int, s: string): Arena
    requires p in nodes
  {
    nodes[p := nodes[p].(links := nodes[p].links[d := s])][s := NodeDict(s, true, map[])]
  }

  function ExtendShape(sh: Shape, p: string, d: int, s: string): Shape
    requires p in sh.anc
  {
    Shape(sh.anc[s := sh.anc[p][p := d]], sh.parent[s := p])
  }

  /** Hanging a new leaf at a free label keeps the arena a tree. */
  lemma AttachPreservesShape(root: string, nodes: Arena, sh: Shape, p: string, d: int, s: string)
    requires WellFormed(root, nodes) && IsShape(root, nodes, sh)
    requires p in nodes && d !in nodes[p].links && s !in nodes
    ensures WellFormed(root, Attach(nodes, p, d, s))
    ensures IsShape(root, Attach(nodes, p, d, s), ExtendShape(sh, p, d, s))
  {
    AttachWellFormed(root, nodes, p, d, s);
    AttachKeys(root, nodes, sh, p, d, s);
    AttachParentEdges(root, nodes, sh, p, d, s);
    AttachLinkEdges(root, nodes, sh, p, d, s);
    AttachOnPath(root, nodes, sh, p, d, s);
  }

  lemma AttachWellFormed(root: string, nodes: Arena, p: string, d: int, s: string)
    requires WellFormed(root, nodes) && p in nodes
    ensures WellFormed(root, Attach(nodes, p, d, s))
  {
  }

  lemma AttachKeys(root: string, nodes: Arena, sh: Shape, p: string, d: int, s: string)
    requires sh.anc.Keys == nodes.Keys && sh.parent.Keys == nodes.Keys - {root}
    requires root in sh.anc && sh.anc[root] == map[]
    requires forall u :: u in sh.anc ==> u !in sh.anc[u] && sh.anc[u].Keys <= nodes.Keys
    requires p in nodes && s !in nodes
    ensures var nodes', sh' := Attach(nodes, p, d, s), ExtendShape(sh, p, d, s);
      && sh'.anc.Keys == nodes'.Keys
      && sh'.parent.Keys == nodes'.Keys - {root}
      && root in sh'.anc && sh'.anc[root] == map[]
      && (forall u :: u in sh'.anc ==> u !in sh'.anc[u] && sh'.anc[u].Keys <= nodes'.Keys)
  {
    var nodes', sh' := Attach(nodes, p, d, s), ExtendShape(sh, p, d, s);
    forall u | u in sh'.anc
      ensures u !in sh'.anc[u] && sh'.anc[u].Keys <= nodes'.Keys
    {
      if u == s {
        assert sh'.anc[s].Keys == sh.anc[p].Keys + {p};
      }
    }
  }

  lemma AttachParentEdges(root: string, nodes: Arena, sh: Shape, p: string, d: int, s: string)
    requires IsShape(root, nodes, sh)
    requires p in nodes && d !in nodes[p].links && s !in nodes
    ensures var nodes', sh' := Attach(nodes, p, d, s), ExtendShape(sh, p, d, s);
      forall u :: u in sh'.parent ==> u in sh'.anc && ParentEdge(nodes', sh', u)
  {
    var nodes', sh' := Attach(nodes, p, d, s), ExtendShape(sh, p, d, s);
    forall u | u in sh'.parent
      ensures u in sh'.anc && ParentEdge(nodes', sh', u)
    {
      if u != s {
        assert ParentEdge(nodes, sh, u);
      }
    }
  }

  lemma AttachLinkEdges(root: string, nodes: Arena, sh: Shape, p: string, d: int, s: string)
    requires IsShape(root, nodes, sh)
    requires p in nodes && d !in nodes[p].links && s !in nodes
    ensures var nodes', sh' := Attach(nodes, p, d, s), ExtendShape(sh, p, d, s);
      forall x, e :: x in nodes' && e in nodes'[x].links ==> LinkEdge(nodes', sh', x, e)
  {
    var nodes', sh' := Attach(nodes, p, d, s), ExtendShape(sh, p, d, s);
    forall x, e | x in nodes' && e in nodes'[x].links
      ensures LinkEdge(nodes', sh', x, e)
    {
      if x != p || e != d {
        assert LinkEdge(nodes, sh, x, e);
      }
    }
  }

  lemma AttachOnPath(root: string, nodes: Arena, sh: Shape, p: string, d: int, s: string)
    requires IsShape(root, nodes, sh)
    requires p in nodes && d !in nodes[p].links && s !in nodes
    ensures var nodes', sh' := Attach(nodes, p, d, s), ExtendShape(sh, p, d, s);
      forall u, x :: u in sh'.anc && x in sh'.anc[u] ==> OnPath(nodes', sh', u, x)
  {
    var nodes', sh' := Attach(nodes, p, d, s), ExtendShape(sh, p, d, s);
    forall u, x | u in sh'.anc && x in sh'.anc[u]
      ensures OnPath(nodes', sh', u, x)
    {
      if u != s {
        assert OnPath(nodes, sh, u, x);
      } else if x != p {
        assert OnPath(nodes, sh, p, x);
      }
    }
  }

  /** The new leaf keeps the BK invariant when it lies at the recorded
      distance from every node on its path. */
  lemma AttachPreservesDistances(sh: Shape, dist: DistanceFn, p: string, d: int, s: string)
    requires BKDistances(sh, dist) && p in sh.anc && p !in sh.anc[p] && s !in sh.anc
    requires dist(p, s) == d
    requires forall x :: x in sh.anc[p] ==> dist(x, s) == sh.anc[p][x]
    ensures BKDistances(ExtendShape(sh, p, d, s), dist)
  {
  }

  /** Changing the flag of a node leaves the links, hence the shape, alone. */
  lemma SetFlagPreservesShape(root: string, nodes: Arena, sh: Shape, v: string, flag: bool)
    requires WellFormed(root, nodes) && IsShape(root, nodes, sh) && v in nodes
    ensures WellFormed(root, nodes[v := nodes[v].(isActive := flag)])
    ensures IsShape(root, nodes[v := nodes[v].(isActive := flag)], sh)
  {
    SameLinksSameShape(root, nodes, nodes[v := nodes[v].(isActive := flag)], sh);
  }

  /** The shape depends only on the keys and the links of the arena. */
  lemma SameLinksSameShape(root: string, nodes: Arena, nodes': Arena, sh: Shape)
    requires IsShape(root, nodes, sh)
    requires nodes'.Keys == nodes.Keys
    requires forall v :: v in nodes ==> nodes'[v].links == nodes[v].links
    ensures IsShape(root, nodes', sh)
  {
    forall u | u in sh.parent
      ensures ParentEdge(nodes', sh, u)
    {
      assert ParentEdge(nodes, sh, u);
    }
    SameLinksSameEdges(root, nodes, nodes', sh);
  }

  lemma SameLinksSameEdges(root: string, nodes: Arena, nodes': Arena, sh: Shape)
    requires IsShape(root, nodes, sh)
    requires nodes'.Keys == nodes.Keys
    requires forall v :: v in nodes ==> nodes'[v].links == nodes[v].links
    ensures forall x, e :: x in nodes' && e in nodes'[x].links ==> LinkEdge(nodes', sh, x, e)
    ensures forall u, x :: u in sh.anc && x in sh.anc[u] ==> OnPath(nodes', sh, u, x)
  {
    forall x, e | x in nodes' && e in nodes'[x].links
      ensures LinkEdge(nodes', sh, x, e)
    {
      assert LinkEdge(nodes, sh, x, e);
    }
    forall u, x | u in sh.anc && x in sh.anc[u]
      ensures OnPath(nodes', sh, u, x)
    {
      assert OnPath(nodes, sh, u, x);
    }
  }

  /** Triangle-inequality pruning is safe: under a metric, the edge by which
      the path to a node within `k` of the query leaves an ancestor x lies in
      the band dist(q, x) - k .. dist(q, x) + k. */
  lemma PruningIsSafe(sh: Shape, dist: DistanceFn, q: string, k: int, u: string, x: string)
    requires BKDistances(sh, dist) && Metric(dist)
    requires u in sh.anc && x in sh.anc[u] && dist(q, u) <= k
    ensures dist(q, x) - k <= sh.anc[u][x] <= dist(q, x) + k
  {
    assert dist(x, u) == sh.anc[u][x];
    assert Triangle(dist, q, u, x);
    assert Triangle(dist, x, q, u);
  }

  /** The tree with the root alone. */
  lemma SingletonShape(root: string, dist: DistanceFn)
    ensures WellFormed(root, map[root := NodeDict(root, true, map[])])
    ensures IsShape(root, map[root := NodeDict(root, true, map[])], Shape(map[root := map[]], map[]))
    ensures BKDistances(Shape(map[root := map[]], map[]), dist)
  {
  }

  /** Following a link moves one level down: the child has the parent's
      ancestors plus the parent itself, so fewer nodes remain below. */
  lemma ChildHasOneMoreAncestor(root: string, nodes: Arena, sh: Shape, x: string, d: int)
    requires IsShape(root, nodes, sh) && x in nodes && d in nodes[x].links
    ensures var c := nodes[x].links[d];
      && c in sh.anc && c in sh.parent && sh.parent[c] == x && c != root
      && sh.anc[c] == sh.anc[x][x := d]
      && |nodes.Keys - sh.anc[c].Keys| < |nodes.Keys - sh.anc[x].Keys|
  {
    var c := nodes[x].links[d];
    assert LinkEdge(nodes, sh, x, d);
    assert ParentEdge(nodes, sh, c);
    assert x !in sh.anc[x];
    assert nodes.Keys - sh.anc[c].Keys == (nodes.Keys - sh.anc[x].Keys) - {x};
  }

  /** Two different labels of one node lead to two different children. */
  lemma LinksAreInjective(root: string, nodes: Arena, sh: Shape, x: string, d1: int, d2: int)
    requires IsShape(root, nodes, sh) && x in nodes
    requires d1 in nodes[x].links && d2 in nodes[x].links && d1 != d2
    ensures nodes[x].links[d1] != nodes[x].links[d2]
  {
    assert LinkEdge(nodes, sh, x, d1);
    assert LinkEdge(nodes, sh, x, d2);
  }

  /** The descent of the range query: if x is an ancestor of a node u within
      k of the query, the link out of x towards u lies in the band the query
      explores, and leads to u or to a nearer ancestor of u. */
  lemma PathChildInBand(root: string, nodes: Arena, sh: Shape, dist: DistanceFn,
                        q: string, k: int, u: string, x: string)
    requires IsShape(root, nodes, sh) && BKDistances(sh, dist) && Metric(dist)
    requires u in sh.anc && x in sh.anc[u] && dist(q, u) <= k
    ensures x in nodes && sh.anc[u][x] in nodes[x].links
    ensures dist(q, x) - k <= sh.anc[u][x] <= dist(q, x) + k
    ensures var c := nodes[x].links[sh.anc[u][x]]; c == u || c in sh.anc[u]
  {
    assert OnPath(nodes, sh, u, x);
    PruningIsSafe(sh, dist, q, k, u, x);
  }

  /** The labels of `path` are those `add_node` follows for s: from each
      node reached so far, the distance from that node to s. */
  ghost predicate DescentPath(nodes: Arena, root: string, s: string, dist: DistanceFn, path: seq<int>)
  {
    forall i :: 0 <= i < |path| ==>
      Follow(nodes, root, path[..i]).Some? && path[i] == dist(Follow(nodes, root, path[..i]).value, s)
  }

  /** The descent for s ends at the node reached by `path`, which lacks the
      label of its own distance to s; s hangs there as a new leaf. */
  ghost predicate AttachedAlong(nodes: Arena, root: string, s: string, dist: DistanceFn,
                                path: seq<int>, nodes': Arena)
  {
    && DescentPath(nodes, root, s, dist, path)
    && Follow(nodes, root, path).Some?
    && var p := Follow(nodes, root, path).value;
       && p in nodes && dist(p, s) !in nodes[p].links
       && nodes' == Attach(nodes, p, dist(p, s), s)
  }

  lemma DescentStep(nodes: Arena, root: string, s: string, dist: DistanceFn, path: seq<int>, x: string)
    requires DescentPath(nodes, root, s, dist, path) && Follow(nodes, root, path) == Some(x)
    requires x in nodes && dist(x, s) in nodes[x].links
    ensures DescentPath(nodes, root, s, dist, path + [dist(x, s)])
    ensures Follow(nodes, root, path + [dist(x, s)]) == Some(nodes[x].links[dist(x, s)])
  {
    var path' := path + [dist(x, s)];
    assert path'[..|path'| - 1] == path;
    forall i | 0 <= i < |path'|
      ensures Follow(nodes, root, path'[..i]).Some? && path'[i] == dist(Follow(nodes, root, path'[..i]).value, s)
    {
      if i < |path| {
        assert path'[..i] == path[..i];
      }
    }
  }

  /** Two descents for the same string agree on their common length. */
  lemma {:induction false} DescentsAgree(nodes: Arena, root: string, s: string, dist: DistanceFn,
                                         p1: seq<int>, p2: seq<int>, n: nat)
    requires DescentPath(nodes, root, s, dist, p1) && DescentPath(nodes, root, s, dist, p2)
    requires n <= |p1| && n <= |p2|
    ensures p1[..n] == p2[..n]
  {
    if n > 0 {
      DescentsAgree(nodes, root, s, dist, p1, p2, n - 1);
      assert p1[..n] == p1[..n - 1] + [p1[n - 1]];
      assert p2[..n] == p2[..n - 1] + [p2[n - 1]];
    }
  }

  /** The last step of a path that can be followed is a link of the node
      reached by the rest of the path. */
  lemma FollowLastStep(nodes: Arena, root: string, path: seq<int>)
    requires path != [] && Follow(nodes, root, path).Some?
    ensures var x := Follow(nodes, root, path[..|path| - 1]);
      x.Some? && x.value in nodes && path[|path| - 1] in nodes[x.value].links
  {
  }

  /** Every node a followable descent passes through has the label the
      descent takes next. */
  lemma DescentContinues(nodes: Arena, root: string, s: string, dist: DistanceFn, path: seq<int>, n: nat)
    requires DescentPath(nodes, root, s, dist, path) && Follow(nodes, root, path).Some?
    requires n < |path|
    ensures var y := Follow(nodes, root, path[..n]);
      y.Some? && y.value in nodes && dist(y.value, s) in nodes[y.value].links
  {
    var next := path[..n + 1];
    assert next[..n] == path[..n];
    assert Follow(nodes, root, next).Some? by {
      if n + 1 < |path| {
        assert 0 <= n + 1 < |path|;
      } else {
        assert next == path;
      }
    }
    FollowLastStep(nodes, root, next);
  }

  /** A descent cannot go on past a node that lacks the label it needs. */
  lemma DescentStopsAtGap(nodes: Arena, root: string, s: string, dist: DistanceFn,
                          p1: seq<int>, x: string, p2: seq<int>)
    requires DescentPath(nodes, root, s, dist, p1) && Follow(nodes, root, p1) == Some(x)
    requires x in nodes && dist(x, s) !in nodes[x].links
    requires DescentPath(nodes, root, s, dist, p2) && Follow(nodes, root, p2).Some?
    ensures |p2| <= |p1|
  {
    if |p2| > |p1| {
      var n := |p1|;
      assert p1[..n] == p1;
      DescentsAgree(nodes, root, s, dist, p1, p2, n);
      DescentContinues(nodes, root, s, dist, p2, n);
      assert false;
    }
  }

  /** `add_node` attaches a new string at exactly one place: the first node
      on the exact-distance descent that lacks the needed label. */
  lemma AttachPointIsUnique(nodes: Arena, root: string, s: string, dist: DistanceFn,
                            p1: seq<int>, n1: Arena, p2: seq<int>, n2: Arena)
    requires AttachedAlong(nodes, root, s, dist, p1, n1)
    requires AttachedAlong(nodes, root, s, dist, p2, n2)
    ensures p1 == p2 && n1 == n2
  {
    DescentStopsAtGap(nodes, root, s, dist, p1, Follow(nodes, root, p1).value, p2);
    DescentStopsAtGap(nodes, root, s, dist, p2, Follow(nodes, root, p2).value, p1);
    DescentsAgree(nodes, root, s, dist, p1, p2, |p1|);
  }

  /** The last step of `add_node`: hanging s below the node p where the
      descent stopped yields a tree again, with s at the recorded distance
      from each of its new ancestors, and the descent is the one that
      determines where s goes. */
  lemma InsertLeaf(root: string, nodes: Arena, sh: Shape, dist: DistanceFn, bk: bool,
                   path: seq<int>, p: string, d: int, s: string)
    requires WellFormed(root, nodes) && IsShape(root, nodes, sh)
    requires bk ==> BKDistances(sh, dist)
    requires p in nodes && s !in nodes && d == dist(p, s) && d !in nodes[p].links
    requires Follow(nodes, root, path) == Some(p) && DescentPath(nodes, root, s, dist, path)
    requires forall x :: x in sh.anc[p] ==> dist(x, s) == sh.anc[p][x]
    ensures WellFormed(root, Attach(nodes, p, d, s))
    ensures IsShape(root, Attach(nodes, p, d, s), ExtendShape(sh, p, d, s))
    ensures bk ==> BKDistances(ExtendShape(sh, p, d, s), dist)
    ensures AttachedAlong(nodes, root, s, dist, path, Attach(nodes, p, d, s))
    ensures Attach(nodes, p, d, s).Keys == nodes.Keys + {s}
  {
    AttachPreservesShape(root, nodes, sh, p, d, s);
    if bk {
      assert p !in sh.anc[p];
      AttachPreservesDistances(sh, dist, p, d, s);
    }
  }

  /** One step of the `add_node` descent: moving from x along the label
      dist(x, s) keeps every invariant of the descent and gets one level
      closer to the leaves. */
  lemma DescentMovesDown(root: string, nodes: Arena, sh: Shape, dist: DistanceFn, s: string,
                         path: seq<int>, x: string)
    requires IsShape(root, nodes, sh) && x in nodes
    requires Follow(nodes, root, path) == Some(x) && DescentPath(nodes, root, s, dist, path)
    requires forall y :: y in sh.anc[x] ==> dist(y, s) == sh.anc[x][y]
    requires dist(x, s) in nodes[x].links
    ensures var c := nodes[x].links[dist(x, s)];
      && c in nodes && c in sh.anc
      && Follow(nodes, root, path + [dist(x, s)]) == Some(c)
      && DescentPath(nodes, root, s, dist, path + [dist(x, s)])
      && (forall y :: y in sh.anc[c] ==> dist(y, s) == sh.anc[c][y])
      && |nodes.Keys - sh.anc[c].Keys| < |nodes.Keys - sh.anc[x].Keys|
  {
    ChildHasOneMoreAncestor(root, nodes, sh, x, dist(x, s));
    DescentStep(nodes, root, s, dist, path, x);
    assert LinkEdge(nodes, sh, x, dist(x, s));
  }

  /** The child of x on the way down to u: the end of the link x carries
      with the label recorded for u (u itself when x is not an ancestor). */
  ghost function Toward(nodes: Arena, sh: Shape, u: string, x: string): string
  {
    if u in sh.anc && x in sh.anc[u] && x in nodes && sh.anc[u][x] in nodes[x].links
    then nodes[x].links[sh.anc[u][x]]
    else u
  }

  /** Every child of x is an entry whose parent is x, so it is not the root. */
  lemma ChildrenOf(root: string, nodes: Arena, sh: Shape, x: string)
    requires IsShape(root, nodes, sh) && x in nodes
    ensures forall d :: d in nodes[x].links ==>
      var c := nodes[x].links[d];
      c in nodes && c in sh.parent && sh.parent[c] == x && c != root
  {
    forall d | d in nodes[x].links
      ensures var c := nodes[x].links[d];
        c in nodes && c in sh.parent && sh.parent[c] == x && c != root
    {
      assert LinkEdge(nodes, sh, x, d);
    }
  }

  /** A set that contains an ancestor of u, and with every ancestor of u the
      next node on the way down to u, contains u. */
  lemma {:induction false} ClosedSetReaches(root: string, nodes: Arena, sh: Shape,
                                            seen: set<string>, u: string, x: string)
    requires IsShape(root, nodes, sh) && u in sh.anc && x in sh.anc[u] && x in seen
    requires forall y {:trigger Toward(nodes, sh, u, y)} ::
      y in sh.anc[u] && y in seen ==> Toward(nodes, sh, u, y) in seen
    ensures u in seen
    decreases |nodes.Keys - sh.anc[x].Keys|
  {
    assert OnPath(nodes, sh, u, x);
    var c := Toward(nodes, sh, u, x);
    if c != u {
      ChildHasOneMoreAncestor(root, nodes, sh, x, sh.anc[u][x]);
      ClosedSetReaches(root, nodes, sh, seen, u, c);
    }
  }
}
