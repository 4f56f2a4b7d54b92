/** A node of the BK-tree: a string value, an active flag (soft deletion)
    and at most one child per integer distance. */
module Nodes {
  import opened Wrappers

  /** The dictionary form of a node that `to_dict` produces: its value, its
      flag, and each link distance mapped to the value of the child. The tree
      keeps its nodes in this form. */
  datatype NodeDict = NodeDict(value: string, isActive: bool, links: map<int, string>)

  class Node {
    const value: string
    var active: bool
    var links: map<int, Node>

    /** A new node has the given value and flag, and the given links or none. */
    constructor (value: string, links: Option<map<int, Node>> := None, isActive: bool := true)
      ensures this.value == value && active == isActive
      ensures this.links == if links.Some? then links.value else map[]
    {
      this.value := value;
      this.active := isActive;
      this.links := if links.Some? then links.value else map[];
    }

    /** The value, as the dictionary form records it. */
    function GetValue(): (r: string)
      reads this
      ensures r == ToDict().value
    {
      value
    }

    /** A copy of the links: a map is a value, so the caller cannot change the
        node through it. Its distances and children are those of the
        dictionary form. */
    function GetLinks(): (r: map<int, Node>)
      reads this
      ensures r.Keys == ToDict().links.Keys
      ensures forall d :: d in r ==> ToDict().links[d] == r[d].value
    {
      links
    }

    /** The flag, as the dictionary form records it. */
    function IsActive(): (r: bool)
      reads this
      ensures r == ToDict().isActive
    {
      active
    }

    /** Whether a child is linked at `distance`, as the dictionary form records it. */
    function HasDistance(distance: int): (r: bool)
      reads this
      ensures r <==> distance in ToDict().links
    {
      distance in links
    }

    /** The child at `distance`; a `KeyError` when there is none. */
    function GetLink(distance: int): (r: Result<Node>)
      reads this
      ensures r.Success? <==> HasDistance(distance)
      ensures r.Success? ==> r.value == GetLinks()[distance]
      ensures r.Failure? ==> r.error == KeyError
    {
      if HasDistance(distance) then Success(links[distance]) else Failure(KeyError)
    }

    /** Only the flag changes; the new state does not depend on the old flag,
        so a second call changes nothing. */
    method SetActive()
      modifies this
      ensures active && links == old(links)
    {
      active := true;
    }

    method SetInactive()
      modifies this
      ensures !active && links == old(links)
    {
      active := false;
    }

    /** Adds the one link `distance -> node`; fails with `KeyError`, changing
        nothing, when the distance is already used. */
    method AddLink(distance: int, node: Node) returns (o: Outcome)
      modifies this
      ensures o == if distance in old(links) then Fail(KeyError) else Pass
      ensures links == if o.Fail? then old(links) else old(links)[distance := node]
      ensures active == old(active)
    {
      if HasDistance(distance) {
        return Fail(KeyError);
      }
      links := links[distance := node];
      return Pass;
    }

    /** Removes the link at `distance` and nothing else; fails with
        `KeyError`, changing nothing, when there is none. */
    method DelLink(distance: int) returns (o: Outcome)
      modifies this
      ensures o == if distance in old(links) then Pass else Fail(KeyError)
      ensures links == old(links) - {distance}
      ensures active == old(active)
    {
      if HasDistance(distance) {
        links := links - {distance};
        return Pass;
      }
      return Fail(KeyError);
    }

    method ClearLinks()
      modifies this
      ensures links == map[] && active == old(active)
    {
      links := map[];
    }

    /** The dictionary form: the same distances as the links, each mapped
        to the value of its child. */
    function ToDict(): (r: NodeDict)
      reads this
      ensures r.value == value && r.isActive == active
      ensures r.links.Keys == links.Keys
      ensures forall d :: d in links ==> r.links[d] == links[d].value
    {
      NodeDict(value, active, map d | d in links :: links[d].value)
    }
  }
}
