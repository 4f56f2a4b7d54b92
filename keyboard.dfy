/** The keyboard layout that supplies substitution weights: each key has a
    position, and a table records, for every key, the keys within rounded
    distance 1 of it together with that distance. Keys can be added, moved,
    removed and looked up. */
module Keyboards {
  import opened Wrappers
  import opened StringOrder

  /** The position of a key. */
  datatype Coord = Coord(x: real, y: real)

  function SquaredDistance(a: Coord, b: Coord): real
  {
    (a.x - b.x) * (a.x - b.x) + (a.y - b.y) * (a.y - b.y)
  }

  /** `int(round(euclidean_distance(a, b)))` as far as the table needs it:
      0 for a distance up to 0.5 (Python rounds a half to the even
      neighbour), 1 for a distance below 1.5, and 2 standing for every larger
      value, which the table never stores. */
  function RoundedDistance(a: Coord, b: Coord): (r: nat)
    ensures r <= 2
    ensures a == b ==> r == 0
  {
    var sq := SquaredDistance(a, b);
    if sq <= 0.25 then 0 else if sq < 2.25 then 1 else 2
  }

  /** For the Euclidean distance e of the two positions, the result is
      Python's `round(e)` (a half rounds to the even neighbour) as far as the
      table needs it: 0 up to 0.5, 1 strictly between 0.5 and 1.5, and 2 from
      1.5 on. */
  lemma RoundedDistanceRounds(a: Coord, b: Coord, e: real)
    requires 0.0 <= e && e * e == SquaredDistance(a, b)
    ensures RoundedDistance(a, b) == 0 <==> e <= 0.5
    ensures RoundedDistance(a, b) == 1 <==> 0.5 < e < 1.5
    ensures RoundedDistance(a, b) == 2 <==> 1.5 <= e
  {
    SquareBelow(e, 0.5);
    SquareBelow(e, 1.5);
  }

  /** For non-negative e and c, e * e <= c * c exactly when e <= c. */
  lemma SquareBelow(e: real, c: real)
    requires 0.0 <= e && 0.0 <= c
    ensures e * e <= c * c <==> e <= c
    ensures e * e < c * c <==> e < c
  {
    if e < c {
      StrictlyBelow(e, c);
    } else if c < e {
      StrictlyBelow(c, e);
    }
  }

  lemma StrictlyBelow(e: real, c: real)
    requires 0.0 <= e < c
    ensures e * e < c * c
  {
    var d := c - e;
    assert c * c == e * e + 2.0 * e * d + d * d;
    assert 0.0 <= e * d && 0.0 < d * d;
  }

  lemma {:induction false} RoundedDistanceSymmetric(a: Coord, b: Coord)
    ensures RoundedDistance(a, b) == RoundedDistance(b, a)
  {
    assert (a.x - b.x) * (a.x - b.x) == (b.x - a.x) * (b.x - a.x);
    assert (a.y - b.y) * (a.y - b.y) == (b.y - a.y) * (b.y - a.y);
  }

  /** What the table relies on of the distance between two positions: it is
      symmetric and 0 between a position and itself. */
  ghost predicate IsRounding(dist: (Coord, Coord) -> nat)
  {
    && (forall a, b :: dist(a, b) == dist(b, a))
    && (forall a :: dist(a, a) == 0)
  }

  /** The rounded Euclidean distance is such a distance. */
  lemma RoundedDistanceIsRounding()
    ensures IsRounding(RoundedDistance)
  {
    forall a, b
      ensures RoundedDistance(a, b) == RoundedDistance(b, a)
    {
      RoundedDistanceSymmetric(a, b);
    }
  }

  /** Two keys are neighbours when their rounded distance is at most 1. */
  predicate Near(dist: (Coord, Coord) -> nat, a: Coord, b: Coord)
  {
    dist(a, b) <= 1
  }

  /** A key's row: its neighbours and itself, each with its weight. */
  type Table = map<string, map<string, int>>

  /** `weights` is the table of the positions `coords`: a row per key, and
      in the row of a, exactly a itself and the neighbours of a, each with
      its rounded distance from a. */
  ghost predicate IsTable(dist: (Coord, Coord) -> nat, coords: map<string, Coord>, weights: Table)
  {
    && weights.Keys == coords.Keys
    && Sound(dist, coords, weights)
    && (forall a, b {:trigger Near(dist, coords[a], coords[b])} ::
          a in coords && b in coords && Near(dist, coords[a], coords[b]) ==> b in weights[a])
  }

  /** Every key weighs 0 against itself. */
  lemma TableSelfZero(dist: (Coord, Coord) -> nat, coords: map<string, Coord>, weights: Table, k: string)
    requires IsRounding(dist) && IsTable(dist, coords, weights) && k in coords
    ensures k in weights[k] && weights[k][k] == 0
  {
    assert Near(dist, coords[k], coords[k]);
  }

  /** The table is symmetric: b is in the row of a exactly when a is in the
      row of b, with the same weight. */
  lemma TableSymmetric(dist: (Coord, Coord) -> nat, coords: map<string, Coord>, weights: Table, a: string, b: string)
    requires IsRounding(dist) && IsTable(dist, coords, weights) && a in weights
    ensures b in weights[a] <==> b in weights && a in weights[b]
    ensures b in weights[a] ==> weights[a][b] == weights[b][a]
  {
    if b in coords {
      assert dist(coords[a], coords[b]) == dist(coords[b], coords[a]);
      if Near(dist, coords[a], coords[b]) {
        assert Near(dist, coords[b], coords[a]);
      }
    }
  }

  /** Only weights 0 and 1 are stored. */
  lemma TableNearOnly(dist: (Coord, Coord) -> nat, coords: map<string, Coord>, weights: Table, a: string, b: string)
    requires IsTable(dist, coords, weights) && a in weights && b in weights[a]
    ensures 0 <= weights[a][b] <= 1
  {
  }

  /** The positions determine the table. */
  lemma TableUnique(dist: (Coord, Coord) -> nat, coords: map<string, Coord>, w1: Table, w2: Table)
    requires IsTable(dist, coords, w1) && IsTable(dist, coords, w2)
    ensures w1 == w2
  {
    forall a | a in w1
      ensures w1[a] == w2[a]
    {
      assert w1[a].Keys == w2[a].Keys;
    }
  }

  /** The state of the constructor's loops once the rows of the keys before
      `rows` have been started, and every pair (p, q), p < q, has been
      handled where p is before i, or p is i and q is before ii. */
  ghost predicate Partial(dist: (Coord, Coord) -> nat, coords: map<string, Coord>, order: seq<string>, weights: Table,
                          rows: nat, i: nat, ii: nat)
    requires forall p :: 0 <= p < |order| ==> order[p] in coords
  {
    && weights.Keys <= coords.Keys
    && (forall p :: 0 <= p < rows && p < |order| ==> order[p] in weights)
    && (forall a :: a in weights ==> a in weights[a])
    && Sound(dist, coords, weights)
    && (forall p, q {:trigger Near(dist, coords[order[p]], coords[order[q]])} ::
          (0 <= p < q < |order| && (p < i || (p == i && q < ii)) && Near(dist, coords[order[p]], coords[order[q]])) ==>
          && order[p] in weights && order[q] in weights[order[p]]
          && order[q] in weights && order[p] in weights[order[q]])
  }

  /** The constructor's loops: for each key in dictionary order, make sure
      it has a row holding itself at weight 0, then record every later key
      within rounded distance 1 in both rows. */
  method BuildTable(dist: (Coord, Coord) -> nat, coords: map<string, Coord>, order: seq<string>) returns (weights: Table)
    requires IsRounding(dist)
    requires forall i, j :: 0 <= i < j < |order| ==> order[i] != order[j]
    requires forall k :: k in order <==> k in coords
    ensures IsTable(dist, coords, weights)
  {
    weights := map[];
    for i := 0 to |order|
      invariant Partial(dist, coords, order, weights, i, i, 0)
    {
      weights := StartRow(dist, coords, order, weights, i);
      for ii := i + 1 to |order|
        invariant Partial(dist, coords, order, weights, i + 1, i, ii)
      {
        weights := LinkPair(dist, coords, order, weights, i, ii);
      }
    }
    CompleteTable(dist, coords, order, weights);
  }

  /** `setdefault(key, {key: 0})` for the key at i. */
  method StartRow(dist: (Coord, Coord) -> nat, coords: map<string, Coord>, order: seq<string>, weights: Table, i: nat)
    returns (weights': Table)
    requires IsRounding(dist)
    requires forall p :: 0 <= p < |order| ==> order[p] in coords
    requires i < |order| && Partial(dist, coords, order, weights, i, i, 0)
    ensures Partial(dist, coords, order, weights', i + 1, i, i + 1)
  {
    var key := order[i];
    assert dist(coords[key], coords[key]) == 0;
    RowForSound(dist, coords, weights, key);
    weights' := RowFor(weights, key);
  }

  /** Record the pair (i, ii) in both rows when the keys are neighbours. */
  method LinkPair(dist: (Coord, Coord) -> nat, coords: map<string, Coord>, order: seq<string>, weights: Table, i: nat, ii: nat)
    returns (weights': Table)
    requires IsRounding(dist)
    requires forall p :: 0 <= p < |order| ==> order[p] in coords
    requires i < ii < |order| && Partial(dist, coords, order, weights, i + 1, i, ii)
    ensures Partial(dist, coords, order, weights', i + 1, i, ii + 1)
  {
    var keyI, keyII := order[i], order[ii];
    var weight := dist(coords[keyI], coords[keyII]);
    if weight > 1 {
      return weights;
    }
    assert dist(coords[keyII], coords[keyI]) == weight;
    assert dist(coords[keyII], coords[keyII]) == 0;
    PutSound(dist, coords, weights, keyI, keyII, weight);
    var w1 := Put(weights, keyI, keyII, weight);
    RowForSound(dist, coords, w1, keyII);
    var w2 := RowFor(w1, keyII);
    PutSound(dist, coords, w2, keyII, keyI, weight);
    weights' := Put(w2, keyII, keyI, weight);
    GrowsTransitive(weights, w1, w2);
    GrowsTransitive(weights, w2, weights');
  }

  /** Once every row is started and every pair handled, the table is complete. */
  lemma CompleteTable(dist: (Coord, Coord) -> nat, coords: map<string, Coord>, order: seq<string>, weights: Table)
    requires IsRounding(dist)
    requires forall k :: k in order <==> k in coords
    requires Partial(dist, coords, order, weights, |order|, |order|, 0)
    ensures IsTable(dist, coords, weights)
  {
    forall a, b | a in coords && b in coords && Near(dist, coords[a], coords[b])
      ensures b in weights[a]
    {
      var p :| 0 <= p < |order| && order[p] == a;
      var q :| 0 <= q < |order| && order[q] == b;
      PairRecorded(dist, coords, order, weights, p, q);
    }
  }

  /** A neighbouring pair at positions p and q of the order is in the table
      once every pair has been handled. */
  lemma PairRecorded(dist: (Coord, Coord) -> nat, coords: map<string, Coord>, order: seq<string>, weights: Table,
                     p: nat, q: nat)
    requires IsRounding(dist)
    requires forall p :: 0 <= p < |order| ==> order[p] in coords
    requires Partial(dist, coords, order, weights, |order|, |order|, 0)
    requires p < |order| && q < |order| && Near(dist, coords[order[p]], coords[order[q]])
    ensures order[p] in weights && order[q] in weights[order[p]]
  {
    assert order[p] in weights;
    if q < p {
      assert Near(dist, coords[order[q]], coords[order[p]]);
    } else if p < q {
      assert Near(dist, coords[order[p]], coords[order[q]]);
    }
  }

  /** Every entry of the table is a neighbour at its rounded distance. */
  ghost predicate Sound(dist: (Coord, Coord) -> nat, coords: map<string, Coord>, weights: Table)
  {
    forall a, b {:trigger b in weights[a]} :: a in weights && b in weights[a] ==>
      a in coords && b in coords && Near(dist, coords[a], coords[b]) && weights[a][b] == dist(coords[a], coords[b])
  }

  /** Every entry of w is still in w'. */
  ghost predicate Grows(w: Table, w': Table)
  {
    forall a, b {:trigger b in w[a]} :: a in w && b in w[a] ==> a in w' && b in w'[a]
  }

  /** `weights[a].setdefault(b, w)`. */
  function Setdefault(weights: Table, a: string, b: string, w: int): (r: Table)
    requires a in weights
    ensures r.Keys == weights.Keys && Grows(weights, r) && b in r[a]
  {
    if b in weights[a] then weights else weights[a := weights[a][b := w]]
  }

  /** `weights[a][b] = w`. */
  function Put(weights: Table, a: string, b: string, w: int): (r: Table)
    requires a in weights
    ensures r.Keys == weights.Keys && Grows(weights, r) && b in r[a] && r[a][b] == w
  {
    weights[a := weights[a][b := w]]
  }

  /** `setdefault` keeps every entry already present with its weight, gives
      an absent entry the default, and adds nothing but that entry. */
  lemma SetdefaultKeeps(weights: Table, a: string, b: string, w: int)
    requires a in weights
    ensures var r := Setdefault(weights, a, b, w);
            && (forall x, y {:trigger y in weights[x]} :: x in weights && y in weights[x] ==> r[x][y] == weights[x][y])
            && (b !in weights[a] ==> r[a][b] == w)
            && (forall x :: x in r ==> r[x].Keys == if x == a then weights[x].Keys + {b} else weights[x].Keys)
  {
  }

  /** The assignment changes the one entry (a, b) and adds nothing else. */
  lemma PutKeeps(weights: Table, a: string, b: string, w: int)
    requires a in weights
    ensures var r := Put(weights, a, b, w);
            && (forall x, y {:trigger y in weights[x]} :: x in weights && y in weights[x] && (x, y) != (a, b) ==> r[x][y] == weights[x][y])
            && (forall x :: x in r ==> r[x].Keys == if x == a then weights[x].Keys + {b} else weights[x].Keys)
  {
  }

  /** `weights.setdefault(k, {k: 0})`. */
  function RowFor(weights: Table, k: string): (r: Table)
    ensures r.Keys == weights.Keys + {k} && Grows(weights, r)
    ensures k !in weights ==> r[k] == map[k := 0]
    ensures k in weights ==> r == weights
  {
    if k in weights then weights else weights[k := map[k := 0]]
  }

  /** Putting a neighbour at its distance keeps the table sound. */
  lemma PutSound(dist: (Coord, Coord) -> nat, coords: map<string, Coord>, weights: Table, a: string, b: string, w: int)
    requires Sound(dist, coords, weights) && a in weights && a in coords && b in coords
    requires Near(dist, coords[a], coords[b]) && w == dist(coords[a], coords[b])
    ensures Sound(dist, coords, Put(weights, a, b, w))
  {
  }

  /** A new row holding only the key itself at weight 0 keeps the table sound. */
  lemma RowForSound(dist: (Coord, Coord) -> nat, coords: map<string, Coord>, weights: Table, k: string)
    requires Sound(dist, coords, weights) && k in coords && dist(coords[k], coords[k]) == 0
    ensures Sound(dist, coords, RowFor(weights, k))
  {
  }

  /** Recording a neighbour at its distance keeps the table sound. */
  lemma SetdefaultSound(dist: (Coord, Coord) -> nat, coords: map<string, Coord>, weights: Table, a: string, b: string, w: int)
    requires Sound(dist, coords, weights) && a in weights && a in coords && b in coords
    requires Near(dist, coords[a], coords[b]) && w == dist(coords[a], coords[b])
    ensures Sound(dist, coords, Setdefault(weights, a, b, w))
  {
  }

  /** The state of `add_key`'s loop once the keys in `done` have been
      visited: the table is sound for the new positions, keeps every old
      pair, and holds the new key's pairs with the visited keys. */
  ghost predicate Adding(dist: (Coord, Coord) -> nat, coords: map<string, Coord>, key: string, c: Coord,
                         weights: Table, done: set<string>)
  {
    var coords' := coords[key := c];
    && weights.Keys == coords'.Keys
    && Sound(dist, coords', weights)
    && (forall a, b {:trigger Near(dist, coords[a], coords[b])} ::
          a in coords && b in coords && Near(dist, coords[a], coords[b]) ==> b in weights[a])
    && key in weights[key]
    && (forall k :: k in done && k in coords' && Near(dist, coords'[k], c) ==> key in weights[k] && k in weights[key])
  }

  /** The loop of `add_key`: for every key k (the new one included) within
      rounded distance 1 of the new position, record the pair in both rows
      unless it is there already. */
  method AddToTable(dist: (Coord, Coord) -> nat, coords: map<string, Coord>, weights: Table, key: string, c: Coord)
    returns (weights': Table)
    requires IsRounding(dist) && IsTable(dist, coords, weights) && key !in coords
    ensures IsTable(dist, coords[key := c], weights')
  {
    var coords' := coords[key := c];
    assert dist(c, c) == 0;
    weights' := weights[key := map[key := 0]];
    var todo := coords'.Keys;
    while todo != {}
      invariant todo <= coords'.Keys
      invariant Adding(dist, coords, key, c, weights', coords'.Keys - todo)
      decreases todo
    {
      var k := Pick(todo);
      weights' := AddPair(dist, coords, key, c, weights', coords'.Keys - todo, k);
      assert coords'.Keys - (todo - {k}) == coords'.Keys - todo + {k};
      todo := todo - {k};
    }
    AddingDone(dist, coords, key, c, weights');
  }

  /** One turn of `add_key`'s loop, for the key k. */
  method AddPair(dist: (Coord, Coord) -> nat, coords: map<string, Coord>, key: string, c: Coord,
                 weights: Table, done: set<string>, k: string)
    returns (weights': Table)
    requires IsRounding(dist) && Adding(dist, coords, key, c, weights, done) && k in coords[key := c]
    ensures Adding(dist, coords, key, c, weights', done + {k})
  {
    var coords' := coords[key := c];
    var weight := dist(coords'[k], c);
    weights' := weights;
    if weight > 1 {
      return;
    }
    assert dist(c, coords'[k]) == weight;
    SetdefaultSound(dist, coords', weights, k, key, weight);
    var w1 := Setdefault(weights, k, key, weight);
    SetdefaultSound(dist, coords', w1, key, k, weight);
    weights' := Setdefault(w1, key, k, weight);
    GrowsTransitive(weights, w1, weights');
  }

  lemma GrowsTransitive(w1: Table, w2: Table, w3: Table)
    requires Grows(w1, w2) && Grows(w2, w3)
    ensures Grows(w1, w3)
  {
  }

  /** With every key visited, the table is that of the new positions. */
  lemma AddingDone(dist: (Coord, Coord) -> nat, coords: map<string, Coord>, key: string, c: Coord, weights: Table)
    requires IsRounding(dist) && Adding(dist, coords, key, c, weights, coords[key := c].Keys)
    ensures IsTable(dist, coords[key := c], weights)
  {
    var coords' := coords[key := c];
    forall a, b | a in coords' && b in coords' && Near(dist, coords'[a], coords'[b])
      ensures b in weights[a]
    {
      if a == key && b != key {
        assert dist(coords'[b], c) == dist(c, coords'[b]);
      } else if a != key && b != key {
        assert Near(dist, coords[a], coords[b]);
      }
    }
  }

  /** The loop of `del_key`: remove the key from the row of each of its
      neighbours (its own row included), then drop its row. */
  method RemoveFromTable(dist: (Coord, Coord) -> nat, coords: map<string, Coord>, weights: Table, key: string)
    returns (weights': Table)
    requires IsRounding(dist) && IsTable(dist, coords, weights) && key in coords
    ensures IsTable(dist, coords - {key}, weights')
  {
    var neighbours := weights[key].Keys;
    var todo := neighbours;
    weights' := weights;
    while todo != {}
      invariant todo <= neighbours
      invariant weights'.Keys == weights.Keys
      invariant forall a :: a in weights' ==>
        weights'[a] == if a in neighbours && a !in todo then weights[a] - {key} else weights[a]
      decreases todo
    {
      var k := Pick(todo);
      todo := todo - {k};
      weights' := weights'[k := weights'[k] - {key}];
    }
    assert neighbours - todo == neighbours;
    RemovedIsTable(dist, coords, weights, key, weights');
    weights' := weights' - {key};
  }

  /** Dropping the key from its neighbours' rows and then its own row leaves
      the table of the remaining positions. */
  lemma RemovedIsTable(dist: (Coord, Coord) -> nat, coords: map<string, Coord>, weights: Table, key: string, w: Table)
    requires IsRounding(dist) && IsTable(dist, coords, weights) && key in coords
    requires w.Keys == weights.Keys
    requires forall a :: a in w ==> w[a] == if a in weights[key] then weights[a] - {key} else weights[a]
    ensures IsTable(dist, coords - {key}, w - {key})
  {
    forall a | a in w
      ensures key !in w[a]
    {
      TableSymmetric(dist, coords, weights, key, a);
    }
  }

  /** Removing a key and storing it again at c is storing it at c. */
  lemma MoveKey(coords: map<string, Coord>, key: string, c: Coord)
    ensures (coords - {key})[key := c] == coords[key := c]
  {
  }

  /** A key index: one key, which asks for its row, or a pair of keys,
      which asks for their weight. */
  datatype Index = Key(key: string) | Pair(first: string, second: string)

  /** What `keyboard[index]` gives back. */
  datatype Entry = Row(weights: map<string, int>) | Weight(weight: int)

  class Keyboard {
    /** The rounded distance between two positions. */
    const dist: (Coord, Coord) -> nat
    /** The position of each key (`_keys`). */
    var coords: map<string, Coord>
    /** The weight table (`_keys_weight`). */
    var weights: Table

    ghost predicate Valid()
      reads this
    {
      IsRounding(dist) && IsTable(dist, coords, weights)
    }

    /** The keyboard over the positions `keys`, visited in the dictionary
        order `order`; the table is that of the positions. */
    constructor (dist: (Coord, Coord) -> nat, keys: map<string, Coord>, order: seq<string>)
      requires IsRounding(dist)
      requires forall i, j :: 0 <= i < j < |order| ==> order[i] != order[j]
      requires forall k :: k in order <==> k in keys
      ensures this.dist == dist && coords == keys && Valid()
    {
      var table := BuildTable(dist, keys, order);
      this.dist := dist;
      coords := keys;
      weights := table;
    }

    /** `key in keyboard`: on a valid keyboard, exactly the keys with a row
        in the table. */
    predicate HasKey(key: string): (b: bool)
      reads this
      ensures Valid() ==> (b <==> key in weights)
    {
      key in coords
    }

    /** `get_weight`: the rounded distance of two neighbouring stored keys
        (0 for a key and itself), and `default` otherwise. */
    function GetWeight(k1: string, k2: string, default: int := 2): (r: int)
      reads this
      requires Valid()
      ensures r == if HasKey(k1) && HasKey(k2) && Near(dist, coords[k1], coords[k2])
                   then dist(coords[k1], coords[k2]) else default
    {
      if HasKey(k1) then (if k2 in weights[k1] then weights[k1][k2] else default) else default
    }

    /** `keyboard[key]`: the row of a stored key, its neighbours and itself
        with their weights, or `KeyError`; `keyboard[k1, k2]`: the weight of
        the pair with the default 2. */
    function GetItem(index: Index): (r: Result<Entry>)
      reads this
      requires Valid()
      ensures index.Key? ==> (r.Success? <==> HasKey(index.key))
      ensures index.Key? && r.Failure? ==> r.error == KeyError
      ensures index.Key? && r.Success? ==> r.value.Row?
      ensures index.Key? && r.Success? && r.value.Row? ==>
        forall b :: (b in r.value.weights <==> HasKey(b) && Near(dist, coords[index.key], coords[b]))
          && (b in r.value.weights ==> r.value.weights[b] == dist(coords[index.key], coords[b]))
      ensures index.Pair? ==> r == Success(Weight(GetWeight(index.first, index.second, 2)))
    {
      match index
      case Key(key) => if HasKey(key) then Success(Row(weights[key])) else Failure(KeyError)
      case Pair(k1, k2) => Success(Weight(GetWeight(k1, k2, 2)))
    }

    /** `add_key`: a stored key is refused with `ValueError` and nothing
        changes; otherwise the key is stored at c and the table becomes that
        of the new positions. */
    method AddKey(key: string, c: Coord) returns (o: Outcome)
      requires Valid()
      modifies this
      ensures o == if key in old(coords) then Fail(ValueError) else Pass
      ensures coords == if o.Pass? then old(coords)[key := c] else old(coords)
      ensures o.Fail? ==> weights == old(weights)
      ensures Valid()
    {
      if key in coords {
        return Fail(ValueError);
      }
      var table := AddToTable(dist, coords, weights, key, c);
      coords, weights := coords[key := c], table;
      return Pass;
    }

    /** `del_key`: a missing key is refused with `ValueError` and nothing
        changes; otherwise the key, its row and every entry naming it are
        gone, and the table is that of the remaining positions. */
    method DelKey(key: string) returns (o: Outcome)
      requires Valid()
      modifies this
      ensures o == if key in old(coords) then Pass else Fail(ValueError)
      ensures coords == old(coords) - {key}
      ensures o.Fail? ==> weights == old(weights)
      ensures Valid()
    {
      if !HasKey(key) {
        return Fail(ValueError);
      }
      var table := RemoveFromTable(dist, coords, weights, key);
      coords, weights := coords - {key}, table;
      return Pass;
    }

    /** `update_key`: a missing key is refused with `ValueError`; otherwise
        `del_key` then `add_key` move the key to c. */
    method UpdateKey(key: string, c: Coord) returns (o: Outcome)
      requires Valid()
      modifies this
      ensures o == if key in old(coords) then Pass else Fail(ValueError)
      ensures coords == if o.Pass? then old(coords)[key := c] else old(coords)
      ensures o.Fail? ==> weights == old(weights)
      ensures Valid()
    {
      if !HasKey(key) {
        return Fail(ValueError);
      }
      var removed := DelKey(key);
      var added := AddKey(key, c);
      MoveKey(old(coords), key, c);
      return Pass;
    }

    /** `clear`: no keys and no table are left. */
    method Clear()
      modifies this
      ensures coords == map[] && weights == map[]
      ensures IsRounding(dist) ==> Valid()
    {
      coords, weights := map[], map[];
    }
  }
}
