/** The two builders of a BK-tree: `from_set`, which inserts the strings of
    a set one by one, and `from_dict`, which rebuilds a tree from the
    dictionary form `to_dict` produces, refusing links to undeclared nodes. */
module Builders {
  import opened Wrappers
  import opened Nodes
  import opened EditDistance
  import opened TreeShape
  import opened StringOrder
  import opened Walks
  import opened BKTrees

  /** The records the dictionary comprehension of `from_dict` creates: one
      per value, without links, a later record replacing an earlier one. */
  function Declared(entries: seq<NodeDict>): Arena
    decreases |entries|
  {
    if entries == [] then map[]
    else
      var e := entries[|entries| - 1];
      Declared(entries[..|entries| - 1])[e.value := NodeDict(e.value, e.isActive, map[])]
  }

  /** The values in the order the dictionary first meets them, which is the
      order its keys keep. */
  function FirstSeen(entries: seq<NodeDict>): seq<string>
    decreases |entries|
  {
    if entries == [] then []
    else
      var seen := FirstSeen(entries[..|entries| - 1]);
      var v := entries[|entries| - 1].value;
      if v in seen then seen else seen + [v]
  }

  /** The links that all the records with value v declare together. */
  function MergedLinks(entries: seq<NodeDict>, v: string): map<int, string>
    decreases |entries|
  {
    if entries == [] then map[]
    else
      var e := entries[|entries| - 1];
      var links := MergedLinks(entries[..|entries| - 1], v);
      if e.value == v then links + e.links else links
  }

  /** No record reuses a label that an earlier record with the same value
      already declared (`add_link` would refuse it). */
  predicate NoClash(entries: seq<NodeDict>)
    decreases |entries|
  {
    || entries == []
    || (var e := entries[|entries| - 1];
        var init := entries[..|entries| - 1];
        NoClash(init) && e.links.Keys !! MergedLinks(init, e.value).Keys)
  }

  /** Every link of every record names one of `keys`. */
  predicate TargetsIn(entries: seq<NodeDict>, keys: set<string>)
  {
    forall i, d :: 0 <= i < |entries| && d in entries[i].links ==> entries[i].links[d] in keys
  }

  /** The node dictionary `from_dict` builds when it succeeds. */
  function Assembled(entries: seq<NodeDict>): Arena
  {
    var declared := Declared(entries);
    map v | v in declared :: declared[v].(links := MergedLinks(entries, v))
  }

  /** What `from_dict` needs of a dictionary form to succeed: the root is
      declared, every link names a declared value and no label is used twice
      for one value. */
  predicate Buildable(form: TreeDict)
  {
    && form.root in ValuesOf(form.nodes)
    && TargetsIn(form.nodes, ValuesOf(form.nodes))
    && NoClash(form.nodes)
  }

  /** One record per declared value, stored under that value and without
      links; the flag is that of the last record with the value. */
  lemma {:induction false} DeclaredRecords(entries: seq<NodeDict>)
    ensures Declared(entries).Keys == ValuesOf(entries)
    ensures forall v :: v in Declared(entries) ==>
      Declared(entries)[v].value == v && Declared(entries)[v].links == map[]
    decreases |entries|
  {
    if entries != [] {
      DeclaredRecords(entries[..|entries| - 1]);
      ValuesOfInit(entries);
    }
  }

  /** The flag of a declared value is that of the last record carrying it. */
  lemma {:induction false} LastFlagWins(entries: seq<NodeDict>, i: nat)
    requires i < |entries|
    requires forall j :: i < j < |entries| ==> entries[j].value != entries[i].value
    ensures entries[i].value in Declared(entries)
    ensures Declared(entries)[entries[i].value].isActive == entries[i].isActive
    decreases |entries|
  {
    if i < |entries| - 1 {
      var init := entries[..|entries| - 1];
      assert init[i] == entries[i];
      forall j | i < j < |init|
        ensures init[j].value != init[i].value
      {
        assert init[j] == entries[j];
      }
      LastFlagWins(init, i);
    }
  }

  /** The values of a list are those of all but its last record, and the last one's. */
  lemma ValuesOfInit(entries: seq<NodeDict>)
    requires entries != []
    ensures ValuesOf(entries) == ValuesOf(entries[..|entries| - 1]) + {entries[|entries| - 1].value}
  {
    var init := entries[..|entries| - 1];
    forall v | v in ValuesOf(entries)
      ensures v in ValuesOf(init) + {entries[|entries| - 1].value}
    {
      var i :| 0 <= i < |entries| && entries[i].value == v;
      if i < |init| {
        assert init[i] == entries[i];
      }
    }
    forall v | v in ValuesOf(init)
      ensures v in ValuesOf(entries)
    {
      var i :| 0 <= i < |init| && init[i].value == v;
      assert entries[i] == init[i];
    }
  }

  /** The first-seen order lists every declared value exactly once. */
  lemma {:induction false} FirstSeenLists(entries: seq<NodeDict>)
    ensures Distinct(FirstSeen(entries))
    ensures forall v :: v in FirstSeen(entries) <==> v in Declared(entries)
    decreases |entries|
  {
    if entries != [] {
      var init := entries[..|entries| - 1];
      FirstSeenLists(init);
      var v := entries[|entries| - 1].value;
      if v !in FirstSeen(init) {
        DistinctAppend(FirstSeen(init), v);
      }
    }
  }

  /** The records of a prefix meet the conditions when the whole list does. */
  lemma {:induction false} NoClashPrefix(entries: seq<NodeDict>, n: nat)
    requires NoClash(entries) && n <= |entries|
    ensures NoClash(entries[..n])
    decreases |entries|
  {
    if n < |entries| {
      var init := entries[..|entries| - 1];
      assert init[..n] == entries[..n];
      NoClashPrefix(init, n);
    } else {
      assert entries[..n] == entries;
    }
  }

  /** Every merged link comes from some record with that value. */
  lemma {:induction false} MergedTargets(entries: seq<NodeDict>, keys: set<string>, v: string)
    requires TargetsIn(entries, keys)
    ensures forall d :: d in MergedLinks(entries, v) ==> MergedLinks(entries, v)[d] in keys
    decreases |entries|
  {
    if entries != [] {
      var init := entries[..|entries| - 1];
      assert TargetsIn(init, keys) by {
        forall i, d | 0 <= i < |init| && d in init[i].links
          ensures init[i].links[d] in keys
        {
          assert init[i] == entries[i];
        }
      }
      MergedTargets(init, keys, v);
      var e := entries[|entries| - 1];
      assert forall d :: d in e.links ==> e.links[d] in keys;
    }
  }

  /** Each record is the node stored under its value, and no two records
      carry the same value: the dictionary form of a consistent tree. */
  ghost predicate RecordsOf(entries: seq<NodeDict>, nodes: Arena)
  {
    && (forall i :: 0 <= i < |entries| ==> entries[i].value in nodes && entries[i] == nodes[entries[i].value])
    && (forall i, j :: 0 <= i < j < |entries| ==> entries[i].value != entries[j].value)
  }

  lemma RecordsOfInit(entries: seq<NodeDict>, nodes: Arena)
    requires RecordsOf(entries, nodes) && entries != []
    ensures RecordsOf(entries[..|entries| - 1], nodes)
    ensures entries[|entries| - 1].value !in ValuesOf(entries[..|entries| - 1])
  {
    var init := entries[..|entries| - 1];
    assert forall i :: 0 <= i < |init| ==> init[i] == entries[i];
  }

  /** With distinct records, the merged links of a value are that node's links. */
  lemma {:induction false} MergedOfRecords(entries: seq<NodeDict>, nodes: Arena, v: string)
    requires RecordsOf(entries, nodes)
    ensures MergedLinks(entries, v) == if v in ValuesOf(entries) then nodes[v].links else map[]
    decreases |entries|
  {
    if entries != [] {
      var init := entries[..|entries| - 1];
      RecordsOfInit(entries, nodes);
      MergedOfRecords(init, nodes, v);
      ValuesOfInit(entries);
      if v in ValuesOf(init) {
        var i :| 0 <= i < |init| && init[i].value == v;
        assert entries[i] == init[i];
      }
    }
  }

  /** Distinct records never clash. */
  lemma {:induction false} NoClashOfRecords(entries: seq<NodeDict>, nodes: Arena)
    requires RecordsOf(entries, nodes)
    ensures NoClash(entries)
    decreases |entries|
  {
    if entries != [] {
      var init := entries[..|entries| - 1];
      RecordsOfInit(entries, nodes);
      NoClashOfRecords(init, nodes);
      MergedOfRecords(init, nodes, entries[|entries| - 1].value);
    }
  }

  /** Distinct records are first seen in the order listed. */
  lemma {:induction false} FirstSeenOfRecords(entries: seq<NodeDict>, nodes: Arena)
    requires RecordsOf(entries, nodes)
    ensures FirstSeen(entries) == seq(|entries|, i requires 0 <= i < |entries| => entries[i].value)
    decreases |entries|
  {
    if entries != [] {
      var init := entries[..|entries| - 1];
      RecordsOfInit(entries, nodes);
      FirstSeenOfRecords(init, nodes);
      FirstSeenLists(init);
      DeclaredRecords(init);
    }
  }

  /** Distinct records assemble into exactly the nodes they were read from. */
  lemma AssembledOfRecords(entries: seq<NodeDict>, nodes: Arena)
    requires RecordsOf(entries, nodes)
    requires forall v :: v in nodes ==> nodes[v].value == v
    requires ValuesOf(entries) == nodes.Keys
    ensures Assembled(entries) == nodes
  {
    DeclaredRecords(entries);
    forall v | v in ValuesOf(entries)
      ensures Assembled(entries)[v] == nodes[v]
    {
      var i :| 0 <= i < |entries| && entries[i].value == v;
      LastFlagWins(entries, i);
      MergedOfRecords(entries, nodes, v);
    }
  }

  /** `from_dict` inverts `to_dict`: the dictionary form of a consistent tree
      is buildable, and rebuilding it gives back the same root, the same
      nodes and the same dictionary order. */
  lemma RoundTrip(root: string, nodes: Arena, order: seq<string>)
    requires WellFormed(root, nodes) && Distinct(order)
    requires forall v :: v in order <==> v in nodes
    ensures var form := Export(root, nodes, order);
      && Buildable(form)
      && Assembled(form.nodes) == nodes
      && FirstSeen(form.nodes) == order
  {
    var entries := Export(root, nodes, order).nodes;
    ExportRecords(root, nodes, order);
    ExportValues(root, nodes, order);
    NoClashOfRecords(entries, nodes);
    AssembledOfRecords(entries, nodes);
    FirstSeenOfRecords(entries, nodes);
  }

  /** The exported records are distinct records of `nodes`, list the values
      of `order` in that order, and link only to entries. */
  lemma ExportRecords(root: string, nodes: Arena, order: seq<string>)
    requires WellFormed(root, nodes) && Distinct(order)
    requires forall v :: v in order <==> v in nodes
    ensures var entries := Export(root, nodes, order).nodes;
      && RecordsOf(entries, nodes)
      && seq(|entries|, i requires 0 <= i < |entries| => entries[i].value) == order
      && TargetsIn(entries, nodes.Keys)
  {
    var entries := Export(root, nodes, order).nodes;
    DistinctIndices(order);
    assert forall i :: 0 <= i < |entries| ==> entries[i].value == order[i];
  }

  /** The dictionary comprehension of `from_dict`. */
  method DeclareAll(entries: seq<NodeDict>) returns (declared: Arena, order: seq<string>)
    ensures declared == Declared(entries) && order == FirstSeen(entries)
  {
    declared, order := map[], [];
    for i := 0 to |entries|
      invariant declared == Declared(entries[..i]) && order == FirstSeen(entries[..i])
    {
      FirstSeenLists(entries[..i]);
      assert entries[..i + 1][..i] == entries[..i];
      var e := entries[i];
      if e.value !in declared {
        order := order + [e.value];
      }
      declared := declared[e.value := NodeDict(e.value, e.isActive, map[])];
    }
    assert entries[..|entries|] == entries;
  }

  /** The inner loop of `from_dict` for one record: every link must name a
      declared value, and `add_link` refuses a label the node already uses;
      either refusal is a `KeyError`. On success the node has gained exactly
      the record's links. */
  method LinkRecord(keys: set<string>, current: map<int, string>, links: map<int, string>)
    returns (r: Result<map<int, string>>)
    ensures r.Success? <==> (forall d :: d in links ==> links[d] in keys) && links.Keys !! current.Keys
    ensures r.Failure? ==> r.error == KeyError
    ensures r.Success? ==> r.value == current + links
  {
    var merged := current;
    var labels := links.Keys;
    while labels != {}
      invariant labels <= links.Keys
      invariant forall d :: d in links && d !in labels ==> links[d] in keys && d !in current
      invariant merged == current + map d | d in links && d !in labels :: links[d]
      decreases labels
    {
      var d := Pick(labels);
      if links[d] !in keys {
        return Failure(KeyError);
      }
      if d in merged {
        return Failure(KeyError);
      }
      merged := merged[d := links[d]];
      labels := labels - {d};
    }
    assert (map d | d in links && d !in labels :: links[d]) == links;
    assert labels == {};
    assert forall d :: d in links.Keys ==> d !in current.Keys;
    return Success(merged);
  }

  /** The outer loop of `from_dict`: link the records one after the other. */
  method LinkAll(declared: Arena, entries: seq<NodeDict>) returns (r: Result<Arena>)
    requires forall v :: v in declared ==> declared[v].links == map[]
    requires ValuesOf(entries) <= declared.Keys
    ensures r.Success? <==> TargetsIn(entries, declared.Keys) && NoClash(entries)
    ensures r.Failure? ==> r.error == KeyError
    ensures r.Success? ==> r.value == map v | v in declared :: declared[v].(links := MergedLinks(entries, v))
  {
    var linked := declared;
    for i := 0 to |entries|
      invariant TargetsIn(entries[..i], declared.Keys) && NoClash(entries[..i])
      invariant linked == map v | v in declared :: declared[v].(links := MergedLinks(entries[..i], v))
    {
      var e := entries[i];
      assert entries[..i + 1][..i] == entries[..i] && entries[..i + 1][i] == e;
      assert e.value in declared by {
        assert e.value in ValuesOf(entries);
      }
      var step := LinkRecord(declared.Keys, linked[e.value].links, e.links);
      if step.Failure? {
        if TargetsIn(entries, declared.Keys) && NoClash(entries) {
          NoClashPrefix(entries, i + 1);
        }
        return Failure(KeyError);
      }
      LinkedStep(declared, entries, i, linked);
      linked := linked[e.value := linked[e.value].(links := step.value)];
    }
    assert entries[..|entries|] == entries;
    return Success(linked);
  }

  /** One more linked record: the prefix conditions and the merged links
      extend by that record. */
  lemma LinkedStep(declared: Arena, entries: seq<NodeDict>, i: nat, linked: Arena)
    requires i < |entries| && entries[i].value in declared
    requires linked == map v | v in declared :: declared[v].(links := MergedLinks(entries[..i], v))
    requires TargetsIn(entries[..i], declared.Keys)
    requires forall d :: d in entries[i].links ==> entries[i].links[d] in declared.Keys
    ensures TargetsIn(entries[..i + 1], declared.Keys)
    ensures var e := entries[i];
      linked[e.value := linked[e.value].(links := linked[e.value].links + e.links)]
      == map v | v in declared :: declared[v].(links := MergedLinks(entries[..i + 1], v))
  {
    var prefix := entries[..i + 1];
    assert prefix[..i] == entries[..i] && prefix[i] == entries[i];
    forall j | 0 <= j < i + 1
      ensures prefix[j] == entries[j]
    {
    }
  }

  /** `bk_tree_builder_from_dict`: an empty dictionary is refused with
      `ValueError`; an undeclared root, a link to an undeclared value or a
      label used twice for one value with `KeyError`. Otherwise the tree
      holds exactly the assembled nodes, in first-seen order, under the
      given root; it is a tree when its links form one. */
  method FromDict(form: Option<TreeDict>, fnWeights: Option<Weights> := None) returns (r: Result<BKTree>)
    ensures form.None? ==> r == Failure(ValueError)
    ensures form.Some? ==> (r.Success? <==> Buildable(form.value))
    ensures form.Some? && r.Failure? ==> r.error == KeyError
    ensures r.Success? ==>
      && fresh(r.value) && r.value.Wf()
      && r.value.root == form.value.root && r.value.fnWeights == fnWeights
      && r.value.nodes == Assembled(form.value.nodes) && r.value.order == FirstSeen(form.value.nodes)
    ensures r.Success? && (exists sh :: IsShape(r.value.root, r.value.nodes, sh)) ==> r.value.Valid()
  {
    if form.None? {
      return Failure(ValueError);
    }
    var entries := form.value.nodes;
    var declared, order := DeclareAll(entries);
    DeclaredRecords(entries);
    FirstSeenLists(entries);
    if form.value.root !in declared {
      return Failure(KeyError);
    }
    var linked := LinkAll(declared, entries);
    if linked.Failure? {
      return Failure(KeyError);
    }
    assert linked.value == Assembled(entries);
    forall v, d | v in linked.value && d in linked.value[v].links
      ensures linked.value[v].links[d] in linked.value
    {
      MergedTargets(entries, declared.Keys, v);
    }
    var tree := new BKTree(form.value.root, linked.value, order, fnWeights);
    return Success(tree);
  }

  /** `bk_tree_builder_from_set`: an empty set is refused with
      `ValueError`. Otherwise some string of the set becomes the root and
      the others are added one by one; the result is a BK-tree holding
      exactly the strings of the set. */
  method FromSet(strings: set<string>, fnWeights: Option<Weights> := None) returns (r: Result<BKTree>)
    ensures r.Failure? <==> strings == {}
    ensures r.Failure? ==> r.error == ValueError
    ensures r.Success? ==>
      && fresh(r.value) && r.value.IsBK()
      && r.value.root in strings && r.value.fnWeights == fnWeights
      && r.value.GetNodes() == strings && r.value.GetNumNodes() == |strings|
    ensures r.Success? ==> forall v :: v in r.value.nodes ==> r.value.nodes[v].isActive
  {
    if strings == {} {
      return Failure(ValueError);
    }
    var root := Pick(strings);
    var tree := Seed(root, fnWeights);
    AddAll(tree, strings - {root});
    PutBack(strings, root);
    return Success(tree);
  }

  lemma PutBack(strings: set<string>, root: string)
    requires root in strings
    ensures {root} + (strings - {root}) == strings
  {
  }

  /** The tree `from_set` starts from: the popped string alone, active, as root. */
  method Seed(root: string, fnWeights: Option<Weights>) returns (tree: BKTree)
    ensures fresh(tree) && tree.IsBK()
    ensures tree.root == root && tree.fnWeights == fnWeights && tree.nodes.Keys == {root}
    ensures tree.nodes == map[root := NodeDict(root, true, map[])] && tree.order == [root]
  {
    SingletonShape(root, DistanceOf(fnWeights));
    assert Distinct([root]) by {
      assert [root][..0] == [];
    }
    tree := new BKTree(root, map[root := NodeDict(root, true, map[])], [root], fnWeights);
    assert forall u :: u in tree.shape.anc ==> u == root;
  }

  /** The `for` loop of `from_set`: `add_node` for each remaining string. */
  method AddAll(tree: BKTree, strings: set<string>)
    requires tree.IsBK() && strings !! tree.nodes.Keys
    modifies tree
    ensures tree.IsBK() && tree.nodes.Keys == old(tree.nodes.Keys) + strings
    ensures tree.root == old(tree.root)
    ensures FlagsKept(old(tree.nodes), tree.nodes)
    ensures forall v :: v in strings ==> tree.nodes[v].isActive
  {
    var rest := strings;
    ghost var start := tree.nodes.Keys;
    while rest != {}
      invariant tree.IsBK() && rest <= strings
      invariant tree.nodes.Keys == start + (strings - rest)
      invariant tree.root == old(tree.root)
      invariant FlagsKept(old(tree.nodes), tree.nodes)
      invariant forall v :: v in strings - rest ==> tree.nodes[v].isActive
      decreases rest
    {
      var s := Pick(rest);
      ghost var keys := tree.nodes.Keys;
      ghost var done := strings - rest;
      ghost var before := tree.nodes;
      rest := rest - {s};
      AddFresh(tree, s);
      OneMoreAdded(start, strings, done, rest, s, keys, tree.nodes.Keys);
      FlagsKeptTransitive(old(tree.nodes), before, tree.nodes);
      ActiveAfterAdding(strings, done, rest, s, before, tree.nodes);
    }
  }

  /** Every record of `nodes` is still in `nodes'`, with the same flag. */
  ghost predicate FlagsKept(nodes: Arena, nodes': Arena)
  {
    forall v :: v in nodes ==> v in nodes' && nodes'[v].isActive == nodes[v].isActive
  }

  lemma FlagsKeptTransitive(n1: Arena, n2: Arena, n3: Arena)
    requires FlagsKept(n1, n2) && FlagsKept(n2, n3)
    ensures FlagsKept(n1, n3)
  {
  }

  /** The flags after one more turn of the `from_set` loop. */
  lemma ActiveAfterAdding(strings: set<string>, done: set<string>, rest: set<string>, s: string,
                          nodes: Arena, nodes': Arena)
    requires done == strings - (rest + {s}) && s in strings && s !in rest
    requires forall v :: v in done ==> v in nodes && nodes[v].isActive
    requires FlagsKept(nodes, nodes') && s in nodes' && nodes'[s].isActive
    ensures forall v :: v in strings - rest ==> nodes'[v].isActive
  {
    forall v | v in strings - rest
      ensures nodes'[v].isActive
    {
      if v != s {
        assert v in done;
      }
    }
  }

  /** `add_node` of a string the tree does not hold yet. */
  method AddFresh(tree: BKTree, s: string)
    requires tree.IsBK() && s !in tree.nodes.Keys
    modifies tree
    ensures tree.IsBK() && tree.nodes.Keys == old(tree.nodes.Keys) + {s}
    ensures tree.root == old(tree.root)
    ensures FlagsKept(old(tree.nodes), tree.nodes) && tree.nodes[s].isActive
  {
    var o;
    ghost var path;
    o, path := tree.AddNode(s);
    AttachKeepsFlags(old(tree.nodes), tree.root, s, tree.Dist(), path, tree.nodes);
  }

  /** Attaching a leaf changes no stored flag. */
  lemma AttachKeepsFlags(nodes: Arena, root: string, s: string, dist: DistanceFn, path: seq<int>, nodes': Arena)
    requires s !in nodes && AttachedAlong(nodes, root, s, dist, path, nodes')
    ensures FlagsKept(nodes, nodes')
  {
    var p := Follow(nodes, root, path).value;
    assert nodes' == Attach(nodes, p, dist(p, s), s);
  }

  /** The bookkeeping of one turn of the `from_set` loop. */
  lemma OneMoreAdded(start: set<string>, strings: set<string>, done: set<string>, rest: set<string>,
                     s: string, keys: set<string>, keys': set<string>)
    requires done == strings - (rest + {s}) && s in strings && s !in rest
    requires keys == start + done && keys' == keys + {s}
    ensures keys' == start + (strings - rest)
  {
    assert strings - rest == done + {s};
  }
}
