# BK-tree fuzzy matching, modelled in Dafny

This project models the core of the `BKTree` Python package. The package has four parts:

- a Levenshtein edit distance with optional substitution weights, an optional early-exit bound and optional case folding;
- the `Node` of a Burkhard–Keller tree;
- the `BKTree` itself, with its `from_set` and `from_dict` builders;
- the `Keyboard` table of key-adjacency substitution weights.

The model proves properties of all four.

## Structure

Two modules, `Wrappers` and `StringOrder`, support the others and follow no source file. `edit_distance.dfy`, `node.dfy` and `keyboard.dfy` each follow one source file. `bk_tree.py` is split over four files: `bk_shape.dfy`, `bk_walks.dfy`, `bk_tree.dfy` and `bk_builders.dfy`.

- `wrappers.dfy`: `Option`, `Result` and `Outcome`, plus the Python exceptions raised (`KeyError`, `ValueError`).
- `edit_distance.dfy` (`EditDistance`): `levenshtein_distance`.
  - The recurrence on prefixes is `Lev`.
  - The swap-longer-first distance is `Distance`.
  - The method `LevenshteinDistance` runs the two nested loops over rolling rows. It is proved exact when no bound is given. With a bound, it is proved to return the smallest entry of the first row that reaches the bound, or the exact distance when no row does.
- `node.dfy` (`Nodes`): the `Node` class with its fields `value`, `active` and `links`, and the methods that update them.
- `string_order.dfy` (`StringOrder`): Python's ordering of strings (`LexLess`), and the selections `suggest_correction` makes: the least distance, and the smallest string of a bucket.
- `bk_shape.dfy` (`TreeShape`): the tree as an arena, a map from each stored string to the `to_dict` image of its node.
  - `IsShape` states that the links form a tree under the root. Its witness is a ghost map of ancestors.
  - `BKDistances` states the BK invariant: every node lies at the recorded edge label from each of its ancestors.
  - Lemmas show that the `add_node` descent keeps both, and that the pruning of `get_neighbors` is safe.
- `bk_walks.dfy` (`Walks`): the loops of `add_node` (`Descend`) and of `get_neighbors` (`Query`). Both are proved against the tree predicates.
- `bk_tree.dfy` (`BKTrees`): the `BKTree` class, with `order` (the insertion order of the node dictionary) and a ghost `shape`.
- `bk_builders.dfy` (`Builders`): `bk_tree_builder_from_set` and `bk_tree_builder_from_dict`.
  - The input dictionary is a `TreeDict`.
  - `Assembled` and `FirstSeen` give the tree the builder produces.
  - `RoundTrip` shows that `to_dict` followed by `from_dict` rebuilds the same dictionary in the same order.
- `keyboard.dfy` (`Keyboards`): the `Keyboard` class.
  - `IsTable` is the weight table the positions determine.
  - The constructor and `add_key`, `del_key` and `update_key` are proved to keep it.

Three deviations from the real environment:

- **Distance oracle.** `get_neighbors` and `add_node` call the distance function inside the walk. The model calls the verified `LevenshteinDistance` method there. The ghost `DistanceOf(fnWeights)` names its value.
- **Case folding.** Python's `str.casefold` is the parameter `fold`.
- **Keyboard rounding.** The keyboard's rounded Euclidean distance is the parameter `dist`, with the hypothesis `IsRounding`: symmetric, and 0 between a position and itself. The concrete `RoundedDistance`, computed over exact reals, is proved to satisfy it.

## Model

| member | source | states |
|---|---|---|
| EditDistance.LevenshteinDistance | BKTree/bk_tree_pkg/functions.py:4-83 | With no bound, the result is the edit distance of the (optionally case-folded) strings: each substitution costs the weight function's value (1 by default), and equal characters cost nothing. With a bound, the result is exact when the distance is below the bound; otherwise it lies between the bound and the exact distance. For two different non-empty strings, the longer one first, the result is the minimum of the first row that reaches the bound, or the exact distance when no row does. When one string is empty, the result is the other's length, whatever the bound. The bound, the weights and the case sensitivity default to none, none and case-sensitive. |
| EditDistance.RollingRows | BKTree/bk_tree_pkg/functions.py:53-83 | Without a bound, the loop returns the last cell of the distance table. With a bound, it returns the minimum of the first row (after row 0) whose every cell reaches the bound; when no row does, it returns the last cell. The early result lies between the bound and the distance. |
| EditDistance.RowStep | BKTree/bk_tree_pkg/functions.py:56-81 | One turn computes the next row. It stops exactly when that row's minimum reaches the bound, and then returns that minimum as the loop's result. Otherwise, no row so far reaches the bound. |
| EditDistance.NextRow | BKTree/bk_tree_pkg/functions.py:56-78 | Given row i of the table, it computes row i+1 cell by cell, with the substitution, insertion and deletion minimum. The minimum it returns is one of the new row's cells and no larger than any of them. |
| EditDistance.RowMinIsLowerBound | BKTree/bk_tree_pkg/functions.py:78-81 | A lower bound on every cell of a row bounds every cell of every later row. So the early exit returns a value no larger than the true distance. |
| EditDistance.DistanceFromEmpty | BKTree/bk_tree_pkg/functions.py:46-47 | When one string is empty, the distance is the other string's length. |
| EditDistance.DistanceToSelf | BKTree/bk_tree_pkg/functions.py:48-49 | Equal strings are at distance 0, whatever the weights. |
| EditDistance.DistanceLongerFirst | BKTree/bk_tree_pkg/functions.py:50-51 | For strings of different lengths, the distance does not depend on the argument order, because the longer string always becomes the first. |
| EditDistance.DistanceSymmetric | BKTree/bk_tree_pkg/functions.py:50-75 | With a symmetric weight function, the distance is symmetric. It equals the table computed in the given order. |
| EditDistance.LevSwap | BKTree/bk_tree_pkg/functions.py:64-75 | The table of (a, b) under weights w equals the transposed table of (b, a) under the transposed weights. |
| EditDistance.LevSelf | BKTree/bk_tree_pkg/functions.py:66-67 | The diagonal of a string's table against itself is 0. |
| EditDistance.UnitIsSymmetric | BKTree/bk_tree_pkg/functions.py:71 | The default substitution cost of 1 is symmetric. |
| EditDistance.CakeExample | BKTree/bk_tree_pkg/functions.py:29-30 | "cake" and "Cake" are at distance 1 under the default weights. |
| EditDistance.FoldedEqualStrings | BKTree/bk_tree_pkg/functions.py:42-44 | Without case sensitivity, strings that fold to the same string are at distance 0. |
| EditDistance.Min3 | BKTree/bk_tree_pkg/functions.py:68-75 | The minimum of the three costs is one of them and no larger than any. |
| Nodes.Node.constructor | BKTree/bk_tree_pkg/node.py:5-21 | The new node has the given value and flag. Its links are the given ones, or empty when none are given. The links default to none and the flag to active. |
| Nodes.Node.GetValue | BKTree/bk_tree_pkg/node.py:55-66 | The value is the one the dictionary form records. |
| Nodes.Node.GetLinks | BKTree/bk_tree_pkg/node.py:68-79 | The links have the dictionary form's distances, and each child's value is the one the dictionary form records at its distance. |
| Nodes.Node.IsActive | BKTree/bk_tree_pkg/node.py:104-115 | The flag is the one the dictionary form records. |
| Nodes.Node.HasDistance | BKTree/bk_tree_pkg/node.py:117-131 | True exactly when the dictionary form has a link at the distance. |
| Nodes.Node.GetLink | BKTree/bk_tree_pkg/node.py:81-102 | Succeeds exactly when a child is at the distance, and returns that child; otherwise fails with `KeyError`. |
| Nodes.Node.SetActive | BKTree/bk_tree_pkg/node.py:133-140 | The node becomes active; its links are unchanged. |
| Nodes.Node.SetInactive | BKTree/bk_tree_pkg/node.py:142-149 | The node becomes inactive; its links are unchanged. |
| Nodes.Node.AddLink | BKTree/bk_tree_pkg/node.py:151-171 | An occupied distance fails with `KeyError` and leaves the links unchanged. Otherwise the child is linked at that distance and nothing else changes. |
| Nodes.Node.DelLink | BKTree/bk_tree_pkg/node.py:173-190 | A missing distance fails with `KeyError`. Otherwise that one link is removed. |
| Nodes.Node.ClearLinks | BKTree/bk_tree_pkg/node.py:192-196 | No links remain; the flag is unchanged. |
| Nodes.Node.ToDict | BKTree/bk_tree_pkg/node.py:217-223 | The record carries the node's value and flag, and maps each link distance to the child's value. |
| StringOrder.LexLessIrreflexive | BKTree/bk_tree_pkg/bk_tree.py:256-259 | No string sorts before itself. |
| StringOrder.LexLessTransitive | BKTree/bk_tree_pkg/bk_tree.py:256-259 | The string order used by the sort is transitive. |
| StringOrder.LexLessTotal | BKTree/bk_tree_pkg/bk_tree.py:256-259 | Of two different strings, one sorts before the other, so the first element after sorting is well defined. |
| StringOrder.Smallest | BKTree/bk_tree_pkg/bk_tree.py:256-259 | Returns the element of a non-empty bucket that sorts before every other element: the head of the sorted list. |
| StringOrder.Least | BKTree/bk_tree_pkg/bk_tree.py:256 | Returns the smallest distance key present. |
| TreeShape.EdgeLabelsAreDistances | BKTree/bk_tree_pkg/bk_tree.py:220-227 | In a BK-tree, every edge label is the distance between the parent and the child. |
| TreeShape.ReachableFromRoot | BKTree/bk_tree_pkg/bk_tree.py:218-230 | Every stored node is reached from the root by following links along its ancestors' labels. |
| TreeShape.UniquePath | BKTree/bk_tree_pkg/bk_tree.py:218-230 | Two label paths from the root that reach the same node are the same path. |
| TreeShape.RootIsAncestor | BKTree/bk_tree_pkg/bk_tree.py:218 | The root is an ancestor of every other node. |
| TreeShape.NoLinkLeadsToRoot | BKTree/bk_tree_pkg/bk_tree.py:226-227 | No non-empty path leads back to the root. |
| TreeShape.FollowStaysInside | BKTree/bk_tree_pkg/bk_tree.py:229-230 | Following links from the root stays within the stored nodes. |
| TreeShape.LinksAreInjective | BKTree/bk_tree_pkg/bk_tree.py:226-227 | Different labels of one node lead to different children. |
| TreeShape.PruningIsSafe | BKTree/bk_tree_pkg/bk_tree.py:167-174 | For a metric distance in a BK-tree: if u is within k of the query, then the label leaving each ancestor x of u towards u lies within k of the distance from the query to x. So the band test of `get_neighbors` never cuts off a match. |
| TreeShape.PathChildInBand | BKTree/bk_tree_pkg/bk_tree.py:167-174 | The edge leaving an ancestor towards a match is a link inside the band, and leads to the match or to another of its ancestors. |
| TreeShape.ClosedSetReaches | BKTree/bk_tree_pkg/bk_tree.py:155-174 | A visited set holding the root, and holding the next ancestor towards u from each of its members, holds u. |
| TreeShape.InsertLeaf | BKTree/bk_tree_pkg/bk_tree.py:216-230 | Attaching the new string at the free label where the descent stops gives a well-formed tree, with a witness of its shape. The BK invariant is kept, and the stored strings grow by exactly the new one. |
| TreeShape.DescentMovesDown | BKTree/bk_tree_pkg/bk_tree.py:229-230 | Following the occupied label moves to a child with strictly more ancestors, so the descent terminates. Every ancestor of that child lies at its recorded label from the new string. |
| TreeShape.AttachPointIsUnique | BKTree/bk_tree_pkg/bk_tree.py:218-230 | The descent path, and the tree after the attachment, are determined by the tree and the new string. |
| TreeShape.SetFlagPreservesShape | BKTree/bk_tree_pkg/node.py:133-149 | Changing a node's flag keeps the tree well formed and keeps its shape. |
| TreeShape.SingletonShape | BKTree/bk_tree_pkg/bk_tree.py:360-361 | A lone active root is a BK-tree. |
| Walks.Descend | BKTree/bk_tree_pkg/bk_tree.py:218-230 | The loop stops at the node whose label for the new string (the distance between them) is free. It is reached from the root along the descent path, and the new string lies at the recorded label from each of that node's ancestors. |
| Walks.InsertLeafAlong | BKTree/bk_tree_pkg/bk_tree.py:214-230 | The tree after `add_node` is the old tree with a new active leaf. It is attached where the descent stops, with the shape and BK invariant kept. |
| Walks.PushInBand | BKTree/bk_tree_pkg/bk_tree.py:168-174 | Pushes onto the stack exactly the children whose label is in [lev - k, lev + k]. Every such child is pushed, the old stack is a prefix of the new one, and the stack stays duplicate-free. |
| Walks.Query | BKTree/bk_tree_pkg/bk_tree.py:150-176 | Every reported (distance, string) pair is an active stored string at that distance, within k. Under the BK invariant and a metric distance, every active stored string within k is reported. |
| Walks.Visit | BKTree/bk_tree_pkg/bk_tree.py:156-174 | One turn of the loop pops a node and files it. It pushes its in-band children and keeps the invariants: each node is visited at most once, the report is sound, visited matches are reported, and unvisited matches are reachable from the stack. |
| Walks.File | BKTree/bk_tree_pkg/bk_tree.py:164-165 | Adds the node to the bucket of its distance exactly when it is active and within k. |
| Walks.ExploredIsComplete | BKTree/bk_tree_pkg/bk_tree.py:155-176 | When the stack is empty, every stored string within k of the query has been visited. |
| BKTrees.Radius | BKTree/bk_tree_pkg/bk_tree.py:249-251 | The radius is at least 2. It is one more than the nearest integer to a fifth of the length. |
| BKTrees.RoundingIsNearest | BKTree/bk_tree_pkg/bk_tree.py:250 | (n + 2) / 5 is the integer nearest to n / 5, which never ends in .5, so it equals Python's `round`. |
| BKTrees.ExportFacts | BKTree/bk_tree_pkg/bk_tree.py:286-289 | Exporting the node dictionary in its order gives one record per stored string, each the record of the node stored under its value, with no value repeated. |
| BKTrees.BKTree.constructor | BKTree/bk_tree_pkg/bk_tree.py:30-32 | The tree holds the given root, node dictionary and weight function. |
| BKTrees.BKTree.HasNode | BKTree/bk_tree_pkg/bk_tree.py:178-195 | On a well-formed tree, true exactly for the strings listed in the insertion order. |
| BKTrees.BKTree.GetItem | BKTree/bk_tree_pkg/bk_tree.py:51-54 | Succeeds exactly for a stored string, giving the record stored under it, whose value is that string; otherwise fails with `KeyError`. |
| BKTrees.BKTree.GetNodes | BKTree/bk_tree_pkg/bk_tree.py:131 | The set of stored strings. |
| BKTrees.BKTree.GetNumNodes | BKTree/bk_tree_pkg/bk_tree.py:118 | The number of stored strings. |
| BKTrees.BKTree.SetFlag | BKTree/bk_tree_pkg/node.py:133-149 | Setting the flag of a stored string through `tree[s]` changes only that flag and keeps the tree valid and a BK-tree. A missing string fails with `KeyError`. |
| BKTrees.BKTree.AddNode | BKTree/bk_tree_pkg/bk_tree.py:210-230 | A stored string fails with `ValueError` and changes nothing. Otherwise the string is attached as an active leaf where the descent stops, appended to the order, and counted once more. The tree stays valid, and a BK-tree stays a BK-tree. |
| BKTrees.BKTree.GetNeighbors | BKTree/bk_tree_pkg/bk_tree.py:133-176 | The maximum distance defaults to 1. Buckets are non-empty. Each reported string is stored, active, and at the bucket's distance, which is at most the maximum distance. In a BK-tree with a metric distance, every such string is reported. |
| BKTrees.BKTree.SuggestCorrection | BKTree/bk_tree_pkg/bk_tree.py:246-259 | None for a stored active string. A suggestion is another stored active string within the adaptive radius. In a BK-tree with a metric distance, it is at the least distance, and smallest in string order among those at that distance. None then means no stored active string is within the radius. |
| BKTrees.BKTree.ToDict | BKTree/bk_tree_pkg/bk_tree.py:286-289 | The root value, and one record per stored string with no value repeated. Each record is that string's node. |
| Builders.DeclareAll | BKTree/bk_tree_pkg/bk_tree.py:418-421 | The comprehension gives each declared value a fresh node with no links, and the last record of a value sets its flag. |
| Builders.LinkRecord | BKTree/bk_tree_pkg/bk_tree.py:430-434 | Linking one record's labels succeeds exactly when every target is declared and no label is already in use; it then adds exactly those links. Otherwise it fails with `KeyError`. |
| Builders.LinkAll | BKTree/bk_tree_pkg/bk_tree.py:427-434 | The link loop succeeds exactly when every target is declared and no node receives one label twice; the result is every record's links merged into its node. Otherwise it fails with `KeyError`. |
| Builders.FromDict | BKTree/bk_tree_pkg/bk_tree.py:415-436 | An empty dictionary fails with `ValueError`, and an unbuildable one with `KeyError`. Otherwise the tree holds the root, the assembled node dictionary and the first-seen order. |
| Builders.RoundTrip | BKTree/bk_tree_pkg/bk_tree.py:286-289 | Exporting any well-formed tree gives a buildable dictionary, which `from_dict` assembles back into the same node dictionary in the same order. |
| Builders.DeclaredRecords | BKTree/bk_tree_pkg/bk_tree.py:418-421 | The declared nodes are exactly the values of the records, each stored under its own value, with no links. |
| Builders.LastFlagWins | BKTree/bk_tree_pkg/bk_tree.py:418-421 | The flag of a declared node is that of the last record with its value. |
| Builders.FirstSeenLists | BKTree/bk_tree_pkg/bk_tree.py:418-421 | The order lists each declared value exactly once. |
| Builders.MergedTargets | BKTree/bk_tree_pkg/bk_tree.py:430-434 | When every target is declared, every merged link leads to a declared node. |
| Builders.FromSet | BKTree/bk_tree_pkg/bk_tree.py:355-366 | An empty set fails with `ValueError`. Otherwise the result is a BK-tree whose root is in the set, holding exactly the strings of the set, every one of them active. |
| Builders.Seed | BKTree/bk_tree_pkg/bk_tree.py:360-361 | The tree `from_set` starts from holds only the popped string, active and without links, and is a BK-tree. |
| Builders.AddAll | BKTree/bk_tree_pkg/bk_tree.py:363-364 | Adding the remaining strings one by one keeps a BK-tree and stores exactly the old strings plus the new ones. The new strings are active, and the old ones keep their flags. |
| Builders.AddFresh | BKTree/bk_tree_pkg/bk_tree.py:197-230 | `add_node` of a string not yet stored keeps a BK-tree and the root, and adds exactly that string, active. The other flags are unchanged. |
| Keyboards.RoundedDistance | BKTree/bk_tree_pkg/keyboard.py:31 | The rounded distance is at most 2, and 0 between a position and itself. |
| Keyboards.RoundedDistanceRounds | BKTree/bk_tree_pkg/keyboard.py:162 | For the Euclidean distance e, the result is Python's `round(e)` capped at 2: 0 up to 0.5 (a half rounds to even), 1 strictly between 0.5 and 1.5, and 2 from 1.5 on. |
| Keyboards.RoundedDistanceIsRounding | BKTree/bk_tree_pkg/functions.py:101 | The rounded Euclidean distance is symmetric and 0 between a position and itself. |
| Keyboards.RoundedDistanceSymmetric | BKTree/bk_tree_pkg/functions.py:101 | The squared coordinate differences, and so the rounded distance, do not depend on the argument order. |
| Keyboards.TableSelfZero | BKTree/bk_tree_pkg/keyboard.py:27 | Every stored key has weight 0 against itself. |
| Keyboards.TableSymmetric | BKTree/bk_tree_pkg/keyboard.py:36-37 | b is in the row of a exactly when a is in the row of b, with the same weight. |
| Keyboards.TableNearOnly | BKTree/bk_tree_pkg/keyboard.py:33-34 | Only weights 0 and 1 are stored. |
| Keyboards.TableUnique | BKTree/bk_tree_pkg/keyboard.py:25-37 | The positions determine the table, so every operation that keeps `IsTable` leaves the same table a rebuild would. |
| Keyboards.BuildTable | BKTree/bk_tree_pkg/keyboard.py:25-37 | The constructor's nested loops build the table of the positions. |
| Keyboards.StartRow | BKTree/bk_tree_pkg/keyboard.py:27 | `setdefault` of a row holding the key at weight 0 keeps the loop's invariant and starts the key's row. |
| Keyboards.LinkPair | BKTree/bk_tree_pkg/keyboard.py:28-37 | Neighbouring keys i and ii are recorded in both rows at their rounded distance. Far pairs are skipped. The loop's invariant is kept. |
| Keyboards.CompleteTable | BKTree/bk_tree_pkg/keyboard.py:25-37 | Once every pair has been handled, the table holds every neighbouring pair. |
| Keyboards.AddToTable | BKTree/bk_tree_pkg/keyboard.py:159-167 | The `add_key` loop turns the table of the old positions into the table of the positions with the new key. |
| Keyboards.AddPair | BKTree/bk_tree_pkg/keyboard.py:162-167 | One turn records the new key and k in both rows when they are neighbours. |
| Keyboards.Setdefault | BKTree/bk_tree_pkg/keyboard.py:166-167 | `setdefault` keeps the rows and every entry, and leaves the entry present. |
| Keyboards.SetdefaultKeeps | BKTree/bk_tree_pkg/keyboard.py:166-167 | `setdefault` keeps every entry already present with its weight, and gives an absent entry the default weight. It adds no other entry. |
| Keyboards.Put | BKTree/bk_tree_pkg/keyboard.py:36-37 | After `weights[a][b] = w`, the rows are unchanged, every entry is still present, and entry (a, b) holds w. |
| Keyboards.PutKeeps | BKTree/bk_tree_pkg/keyboard.py:36-37 | Assigning `weights[a][b]` changes only that entry and adds no other entry. |
| Keyboards.RemoveFromTable | BKTree/bk_tree_pkg/keyboard.py:205-207 | The `del_key` loop turns the table into the table of the positions without the key. |
| Keyboards.RemovedIsTable | BKTree/bk_tree_pkg/keyboard.py:205-207 | Dropping the key from its neighbours' rows, then its own row, leaves exactly the table of the other keys. |
| Keyboards.Keyboard.constructor | BKTree/bk_tree_pkg/keyboard.py:21-37 | The keyboard keeps the positions, and its weight table is the table of those positions. |
| Keyboards.Keyboard.HasKey | BKTree/bk_tree_pkg/keyboard.py:99-113 | On a valid keyboard, true exactly for the keys with a row in the weight table. |
| Keyboards.Keyboard.GetWeight | BKTree/bk_tree_pkg/keyboard.py:115-140 | For two stored neighbouring keys, their rounded distance (0 for a key and itself); otherwise the default, which is 2 unless given. |
| Keyboards.Keyboard.GetItem | BKTree/bk_tree_pkg/keyboard.py:89-95 | For one key: `KeyError` when missing, otherwise its row (exactly its neighbours and itself, at their rounded distances). For a pair: `get_weight` with the default 2. |
| Keyboards.Keyboard.AddKey | BKTree/bk_tree_pkg/keyboard.py:156-167 | A stored key fails with `ValueError` and changes nothing. Otherwise the key is stored at its position, and the table is that of the new positions. |
| Keyboards.Keyboard.DelKey | BKTree/bk_tree_pkg/keyboard.py:202-208 | A missing key fails with `ValueError` and changes nothing. Otherwise the key is removed, and the table is that of the remaining positions. |
| Keyboards.Keyboard.UpdateKey | BKTree/bk_tree_pkg/keyboard.py:183-187 | A missing key fails with `ValueError`. Otherwise `del_key` then `add_key` leave the key at its new position, with the table of the new positions. |
| Keyboards.Keyboard.Clear | BKTree/bk_tree_pkg/keyboard.py:217-218 | No positions and no weights remain. |

## Left out

- I/O and serialisation are not modelled: `dumps`/`dump`, the JSON and file builders (`bk_tree_builder_from_json`, `bk_tree_builder_from_file`, and the keyboard's `keyboard_builder_from_json` and `keyboard_builder_from_file`), and the `__repr__` printers. They only format or read text.
- `buildable.py` (the `build` dispatcher) and the package `__init__.py` are not part of this model.
- The `TypeError` checks on argument types are not modelled, because Dafny's types already rule those inputs out. This covers `levenshtein_distance`'s string check, and `Keyboard.__getitem__` with an index that is neither a string nor a pair.
- Integers are unbounded on both sides, so there is no overflow to model.
- Floating point is not modelled:
  - The keyboard's `int(round(...))` of a floating-point square root is the parameter `dist`.
  - `RoundedDistance` computes it over exact reals, rounding a distance of exactly 0.5 to 0 and 1.5 to 2, as Python does. A float square root can land just beside such a boundary.
- `str.casefold` is the abstract parameter `fold`. It has no default, so a call of `LevenshteinDistance` always passes every argument before it too.
- Weight functions return `nat`. The source accepts any number. The early exit's lower-bound argument needs non-negative weights.
- Query, GetNeighbors and SuggestCorrection: completeness is proved under two hypotheses:
  - the BK invariant (`IsBK`);
  - the triangle inequality of the distance (`Metric`).

  The triangle inequality of the (weighted) Levenshtein distance itself is not proved. A tree built by `from_dict` is trusted input, as in the source, and need not satisfy the BK invariant.
- The ghost `shape` of a `BKTree` is chosen by the constructor only when the node dictionary forms a tree. `Valid` and the walks require it. A cyclic `from_dict` input, on which the source's `get_neighbors` would not terminate, is outside the model.
- Iteration order is not modelled where it cannot change a result:
  - `PushInBand` and `LinkRecord` take a dictionary's labels in an arbitrary order;
  - `AddToTable` and `RemoveFromTable` take keys in an arbitrary order.

  Only the constructor's key order is an explicit parameter.
- The node dictionary is modelled as a map from each string to its node's record, with `order` holding the dictionary's insertion order.
  - The aliasing between a `Node` object and the dictionary that holds it is not modelled.
  - `add_node` stores the new node before the descent. The model attaches it where the descent stops. The two give the same dictionary.
- FromSet: `set.pop` empties the caller's set of the root string. The model leaves the argument unchanged and picks the root arbitrarily.
- FromDict:
  - The input is an `Option<TreeDict>`, where `None` stands for the empty dictionary.
  - The "root" and "nodes" keys are assumed present.
  - Link labels are already integers, so a collision such as `int("01") == int("1")` is not modelled.
  - When the root record is missing, the source raises `KeyError` before the link loop, and the model reports `KeyError` as well.
- Keyboard.constructor: the source keeps the caller's dictionary object, and `add_key` later writes into it. The model copies the positions.
