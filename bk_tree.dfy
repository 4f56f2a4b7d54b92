/** The BK-tree itself: a root value, the flat dictionary of nodes keyed by
    value (kept in insertion order, which `to_dict` exposes) and the optional
    substitution-weight function handed to every distance computation. */
module BKTrees {
  import opened Wrappers
  import opened Nodes
  import opened EditDistance
  import opened TreeShape
  import opened StringOrder
  import opened Walks

  /** The dictionary form of the whole tree that `to_dict` produces: the root
      value and the node records in dictionary order. */
  datatype TreeDict = TreeDict(root: string, nodes: seq<NodeDict>)

  /** The search radius of `suggest_correction`: round(n / 5) + 1, and at
      least 2. A fifth of a whole number never ends in .5, so rounding to
      the nearest integer is (n + 2) / 5. */
  function Radius(n: nat): (r: nat)
    ensures r >= 2
    ensures 5 * (r - 1) - 2 <= n <= 5 * (r - 1) + 2 || (r == 2 && n <= 2)
  {
    var rounded := (n + 2) / 5;
    if rounded + 1 < 2 then 2 else rounded + 1
  }

  /** (n + 2) / 5 is the one integer nearest to n / 5. */
  lemma RoundingIsNearest(n: nat, r: int)
    ensures 5 * ((n + 2) / 5) - 2 <= n <= 5 * ((n + 2) / 5) + 2
    ensures 5 * r - 2 <= n <= 5 * r + 2 ==> r == (n + 2) / 5
  {
  }

  /** The values the records of a dictionary form carry. */
  function ValuesOf(entries: seq<NodeDict>): set<string>
  {
    set i | 0 <= i < |entries| :: entries[i].value
  }

  /** The records of `nodes` listed in `order`. */
  function Export(root: string, nodes: Arena, order: seq<string>): TreeDict
    requires forall i :: 0 <= i < |order| ==> order[i] in nodes
  {
    TreeDict(root, seq(|order|, i requires 0 <= i < |order| => nodes[order[i]]))
  }

  /** Exporting a dictionary in an order that lists each key once gives one
      record per key, each the node stored under its value, with no value
      repeated. */
  lemma ExportFacts(root: string, nodes: Arena, order: seq<string>)
    requires forall v :: v in nodes ==> nodes[v].value == v
    requires forall v :: v in order <==> v in nodes
    requires Distinct(order)
    ensures forall i :: 0 <= i < |order| ==> order[i] in nodes
    ensures |Export(root, nodes, order).nodes| == |nodes|
    ensures ValuesOf(Export(root, nodes, order).nodes) == nodes.Keys
    ensures forall i :: 0 <= i < |order| ==>
      Export(root, nodes, order).nodes[i] == nodes[Export(root, nodes, order).nodes[i].value]
    ensures forall i, j :: 0 <= i < j < |order| ==>
      Export(root, nodes, order).nodes[i].value != Export(root, nodes, order).nodes[j].value
  {
    DistinctElements(order);
    assert nodes.Keys == set v | v in order;
    DistinctIndices(order);
    ExportValues(root, nodes, order);
  }

  /** When `order` lists exactly the keys, and every record is stored under
      its own value, the exported records carry exactly the keys. */
  lemma ExportValues(root: string, nodes: Arena, order: seq<string>)
    requires forall v :: v in nodes ==> nodes[v].value == v
    requires forall v :: v in order <==> v in nodes
    ensures ValuesOf(Export(root, nodes, order).nodes) == nodes.Keys
  {
    var entries := Export(root, nodes, order).nodes;
    forall v | v in nodes
      ensures v in ValuesOf(entries)
    {
      var i :| 0 <= i < |order| && order[i] == v;
      assert entries[i].value == v;
    }
  }

  class BKTree {
    var root: string
    var nodes: Arena
    /** The keys of `nodes` in the order the dictionary was filled. */
    var order: seq<string>
    const fnWeights: Option<Weights>
    /** The tree structure the links describe, when they describe one. */
    ghost var shape: Shape

    /** The distance insertion and search measure with. */
    ghost function Dist(): DistanceFn
    {
      DistanceOf(fnWeights)
    }

    /** The dictionary is consistent: the root and every link target are
        entries, each entry is stored under its own value, and `order` lists
        every key exactly once. */
    ghost predicate Wf()
      reads this
    {
      && WellFormed(root, nodes)
      && Distinct(order)
      && (forall v :: v in order <==> v in nodes)
    }

    /** The links form a tree rooted at `root` that reaches every entry. */
    ghost predicate Valid()
      reads this
    {
      Wf() && IsShape(root, nodes, shape)
    }

    /** A tree whose edge labels are the distances between parent and
        child, and more: every node lies at the recorded label from each of
        its ancestors. */
    ghost predicate IsBK()
      reads this
    {
      Valid() && BKDistances(shape, Dist())
    }

    /** The tree over the given root and dictionary, as the caller hands them in. */
    constructor (root: string, nodes: Arena, order: seq<string>, fnWeights: Option<Weights> := None)
      ensures this.root == root && this.nodes == nodes && this.order == order
      ensures this.fnWeights == fnWeights
      ensures (exists sh :: IsShape(root, nodes, sh)) ==> IsShape(root, nodes, shape)
    {
      this.root := root;
      this.nodes := nodes;
      this.order := order;
      this.fnWeights := fnWeights;
      if sh :| IsShape(root, nodes, sh) {
        this.shape := sh;
      }
    }

    /** `s in tree`: on a well-formed tree, exactly the strings the insertion
        order lists. */
    predicate HasNode(s: string): (b: bool)
      reads this
      ensures Wf() ==> (b <==> s in order)
    {
      s in nodes
    }

    /** `tree[s]`: the node stored for s, whatever its flag, or `KeyError`. */
    function GetItem(s: string): (r: Result<NodeDict>)
      reads this
      ensures r.Success? <==> HasNode(s)
      ensures r.Failure? ==> r.error == KeyError
      ensures Wf() && r.Success? ==> r.value.value == s
      ensures r.Success? ==> r.value == nodes[s]
    {
      if HasNode(s) then Success(nodes[s]) else Failure(KeyError)
    }

    /** The stored strings, active or not. */
    function GetNodes(): (r: set<string>)
      reads this
      ensures forall v :: v in r <==> HasNode(v)
    {
      nodes.Keys
    }

    function GetNumNodes(): (r: nat)
      reads this
      ensures r == |GetNodes()|
    {
      |nodes|
    }

    /** `tree[s].set_active()` / `tree[s].set_inactive()`: only the flag of
        s changes, so a search finds it or skips it from then on; `KeyError`
        when s is not stored. */
    method SetFlag(s: string, flag: bool) returns (o: Outcome)
      requires Wf()
      modifies this
      ensures o == if s in old(nodes) then Pass else Fail(KeyError)
      ensures o.Pass? ==> nodes == old(nodes)[s := old(nodes)[s].(isActive := flag)]
      ensures o.Fail? ==> nodes == old(nodes)
      ensures root == old(root) && order == old(order)
      ensures Wf()
      ensures old(Valid()) ==> Valid()
      ensures old(IsBK()) ==> IsBK()
    {
      if !HasNode(s) {
        return Fail(KeyError);
      }
      nodes := nodes[s := nodes[s].(isActive := flag)];
      if old(Valid()) {
        SetFlagPreservesShape(root, old(nodes), shape, s, flag);
      }
      return Pass;
    }

    /** `add_node`: a string already stored is refused with `ValueError`
        and nothing changes. Otherwise the search walks down from the root,
        at each node taking the link labelled with the exact distance from
        that node to s, and hangs s as a new active leaf under the first
        node that has no such link (`path` is the walk, as ghost output).
        The result is again a tree, and again a BK-tree when it was one. */
    method AddNode(s: string) returns (o: Outcome, ghost path: seq<int>)
      requires Valid()
      modifies this
      ensures o == if s in old(nodes) then Fail(ValueError) else Pass
      ensures o.Fail? ==> nodes == old(nodes) && order == old(order)
      ensures o.Pass? ==> AttachedAlong(old(nodes), root, s, Dist(), path, nodes)
      ensures o.Pass? ==> order == old(order) + [s] && GetNumNodes() == old(GetNumNodes()) + 1
      ensures o.Pass? ==> GetNodes() == old(GetNodes()) + {s} && nodes[s] == NodeDict(s, true, map[])
      ensures root == old(root) && Valid()
      ensures old(IsBK()) ==> IsBK()
    {
      if HasNode(s) {
        return Fail(ValueError), [];
      }
      path := Insert(s);
      o := Pass;
    }

    /** The part of `add_node` after the membership check. */
    method Insert(s: string) returns (ghost path: seq<int>)
      requires Valid() && s !in nodes
      modifies this
      ensures AttachedAlong(old(nodes), root, s, Dist(), path, nodes)
      ensures order == old(order) + [s] && GetNumNodes() == old(GetNumNodes()) + 1
      ensures GetNodes() == old(GetNodes()) + {s} && nodes[s] == NodeDict(s, true, map[])
      ensures root == old(root) && Valid()
      ensures old(IsBK()) ==> IsBK()
    {
      var tree;
      ghost var sh;
      DistanceOfMeasures(fnWeights);
      tree, sh, path := InsertLeafAlong(root, nodes, shape, Dist(), fnWeights, s);
      DistinctAppend(order, s);
      Store(tree, order + [s], sh);
      assert |nodes.Keys| == |old(nodes).Keys| + 1;
    }

    /** `get_neighbors`: the buckets, keyed by distance from q, of the
        active strings within `maxDistance` of q. Whether or not the BK
        invariant holds, every string returned is an active node filed under its own distance,
        which is at most `maxDistance`. On a BK-tree whose distance is a
        metric, the band pruning loses nothing: every active node within
        `maxDistance` is returned. */
    method GetNeighbors(q: string, maxDistance: int := 1) returns (neighbors: map<int, set<string>>)
      requires Valid()
      ensures forall d :: d in neighbors ==> neighbors[d] != {}
      ensures forall d, v :: d in neighbors && v in neighbors[d] ==>
        HasNode(v) && nodes[v].isActive && d == Distance(q, v, WeightsOf(fnWeights)) && d <= maxDistance
      ensures IsBK() && Metric(Dist()) ==>
        forall v :: HasNode(v) && nodes[v].isActive && Distance(q, v, WeightsOf(fnWeights)) <= maxDistance ==>
          Distance(q, v, WeightsOf(fnWeights)) in neighbors && v in neighbors[Distance(q, v, WeightsOf(fnWeights))]
    {
      DistanceOfMeasures(fnWeights);
      neighbors := Query(root, nodes, shape, Dist(), fnWeights, q, maxDistance);
    }

    /** `suggest_correction`: nothing for a string stored as an active node;
        otherwise the search radius is `Radius(|s|)`, and the suggestion is
        the smallest string of the bucket of the smallest distance found, or
        nothing when no bucket was found. A suggestion is always an active
        node within the radius, and never s itself. On a BK-tree whose
        distance is a metric, it is nearest to s among all active nodes
        within the radius, the first in string order among those equally
        near, and there is no suggestion only when no active node lies within
        the radius. */
    method SuggestCorrection(s: string) returns (r: Option<string>)
      requires Valid()
      ensures HasNode(s) && nodes[s].isActive ==> r.None?
      ensures r.Some? ==> && r.value != s && HasNode(r.value) && nodes[r.value].isActive
                          && Distance(s, r.value, WeightsOf(fnWeights)) <= Radius(|s|)
      ensures IsBK() && Metric(Dist()) && r.Some? ==>
        forall v :: HasNode(v) && nodes[v].isActive && Distance(s, v, WeightsOf(fnWeights)) <= Radius(|s|) ==>
          || Distance(s, r.value, WeightsOf(fnWeights)) < Distance(s, v, WeightsOf(fnWeights))
          || (Distance(s, r.value, WeightsOf(fnWeights)) == Distance(s, v, WeightsOf(fnWeights))
              && (v == r.value || LexLess(r.value, v)))
      ensures IsBK() && Metric(Dist()) && r.None? && !(HasNode(s) && nodes[s].isActive) ==>
        forall v :: HasNode(v) && nodes[v].isActive ==> Distance(s, v, WeightsOf(fnWeights)) > Radius(|s|)
    {
      if HasNode(s) && nodes[s].isActive {
        return None;
      }
      var suggestions := GetNeighbors(s, Radius(|s|));
      if suggestions.Keys == {} {
        return None;
      }
      var nearest := Least(suggestions.Keys);
      var best := Smallest(suggestions[nearest]);
      return Some(best);
    }

    /** `to_dict`: the root value and one record per stored string, in
        dictionary order; each record is the node stored under its value. */
    function ToDict(): (r: TreeDict)
      reads this
      requires Wf()
      ensures r.root == root && |r.nodes| == GetNumNodes()
      ensures ValuesOf(r.nodes) == GetNodes()
      ensures forall i :: 0 <= i < |r.nodes| ==> r.nodes[i] == nodes[r.nodes[i].value]
      ensures forall i, j :: 0 <= i < j < |r.nodes| ==> r.nodes[i].value != r.nodes[j].value
    {
      ExportFacts(root, nodes, order);
      Export(root, nodes, order)
    }

    /** Replaces the dictionary, its order and its shape in one step. */
    method Store(nodes: Arena, order: seq<string>, ghost shape: Shape)
      modifies this
      ensures this.nodes == nodes && this.order == order && this.shape == shape
      ensures root == old(root)
    {
      this.nodes, this.order, this.shape := nodes, order, shape;
    }
  }
}
