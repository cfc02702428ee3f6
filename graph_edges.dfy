/** Edge identity and the two deprecated array helpers `addEdge` and
    `updateEdge`, which change the elements array they are given. */
module GraphEdges {
  import opened Common
  import opened Elements

  const EdgeIdPrefix := "vueflow__edge-"

  /** `getEdgeId`: `vueflow__edge-<source><sourceHandle>-<target><targetHandle>`,
      an absent handle written as nothing. */
  function GetEdgeId(c: Connection): (r: string)
    ensures |r| == |EdgeIdPrefix| + |c.source| + |c.sourceHandle.GetOr("")| + 1
                   + |c.target| + |c.targetHandle.GetOr("")|
    ensures var sh := c.sourceHandle.GetOr("");
            var a := |EdgeIdPrefix|;
            var b := a + |c.source|;
            var d := b + |sh| + 1;
      && r[..a] == EdgeIdPrefix
      && r[a..b] == c.source
      && r[b..d - 1] == sh
      && r[d - 1] == '-'
      && r[d..d + |c.target|] == c.target
      && r[d + |c.target|..] == c.targetHandle.GetOr("")
  {
    var sh := c.sourceHandle.GetOr("");
    var th := c.targetHandle.GetOr("");
    var head := EdgeIdPrefix + c.source + sh + "-";
    var r := head + c.target + th;
    assert r[..|head|] == head && r[|head|..|head| + |c.target|] == c.target && r[|head| + |c.target|..] == th;
    assert head[..|EdgeIdPrefix|] == EdgeIdPrefix;
    assert head[|EdgeIdPrefix|..|EdgeIdPrefix| + |c.source|] == c.source;
    assert head[|EdgeIdPrefix| + |c.source|..|head| - 1] == sh;
    r
  }

  /** The id is not unique per connection: the handle is glued to the
      node id, so node `a` with handle `b` and node `ab` without a handle
      get the same id. */
  lemma EdgeIdCollision()
    ensures Connection("a", "t", Some("b"), None) != Connection("ab", "t", None, None)
    ensures GetEdgeId(Connection("a", "t", Some("b"), None)) == GetEdgeId(Connection("ab", "t", None, None))
  {
    assert GetEdgeId(Connection("a", "t", Some("b"), None)) == EdgeIdPrefix + "ab-t";
    assert GetEdgeId(Connection("ab", "t", None, None)) == EdgeIdPrefix + "ab-t";
  }

  /** Two handles count as equal when they are identical or both falsy
      (absent, `null` or empty). */
  predicate SameHandle(a: Option<string>, b: Option<string>) {
    a == b || (!Truthy(a) && !Truthy(b))
  }

  /** An element with the same endpoints and handles as `c`. */
  predicate Connects(el: Element, c: Connection) {
    el.EdgeElement? && el.edge.source == c.source && el.edge.target == c.target
    && SameHandle(el.edge.sourceHandle, c.sourceHandle) && SameHandle(el.edge.targetHandle, c.targetHandle)
  }

  /** `connectionExists`: `elements.some` over `Connects`. */
  function ConnectionExists(c: Connection, elements: seq<Element>): (r: bool)
    ensures r <==> exists i :: 0 <= i < |elements| && Connects(elements[i], c)
    decreases |elements|
  {
    if elements == [] then false
    else Connects(elements[0], c) || ConnectionExists(c, elements[1..])
  }

  /** The `defaultEdgeOptions` field the model follows: the type. */
  datatype EdgeDefaults = EdgeDefaults(edgeType: Option<string>)

  /** `parseEdge` of fresh parameters: id, endpoints and handles as given;
      the type the parameters name, else the default options' type, else
      `'default'`. */
  function ParseEdge(p: EdgeParams, id: string, source: string, target: string,
                     defaults: Option<EdgeDefaults>): (e: Edge)
    ensures e.id == id && e.source == source && e.target == target
    ensures e.sourceHandle == p.sourceHandle && e.targetHandle == p.targetHandle
    ensures p.edgeType.Some? ==> e.edgeType == p.edgeType
    ensures p.edgeType.None? && defaults.Some? && defaults.value.edgeType.Some? ==> e.edgeType == defaults.value.edgeType
    ensures e.edgeType.Some?
  {
    var defaultType := if defaults.Some? && defaults.value.edgeType.Some? then defaults.value.edgeType.value else "default";
    Edge(id, Some(p.edgeType.GetOr(defaultType)), source, target, p.sourceHandle, p.targetHandle, None)
  }

  /** The connection the parameters name (for parameters that have both
      ends). */
  function ParamsConnection(p: EdgeParams): Connection
    requires p.source.Some? && p.target.Some?
  {
    Connection(p.source.value, p.target.value, p.sourceHandle, p.targetHandle)
  }

  /** The edge `addEdge` and `addEdgeToStore` build from complete
      parameters: the parameters' own id for a full edge, the generated id
      for a bare connection. */
  function EdgeFromParams(p: EdgeParams, defaults: Option<EdgeDefaults>): (e: Edge)
    requires Truthy(p.source) && Truthy(p.target)
    ensures ConnectionOf(e) == ParamsConnection(p)
    ensures e.id == if ParamsAreEdge(p) then p.id.value else GetEdgeId(ParamsConnection(p))
  {
    var id := if ParamsAreEdge(p) then p.id.value else GetEdgeId(ParamsConnection(p));
    ParseEdge(p, id, p.source.value, p.target.value, defaults)
  }

  /** The array after `addEdge`. */
  function AddEdgeResult(p: EdgeParams, elements: seq<Element>, defaults: Option<EdgeDefaults>): seq<Element> {
    if !Truthy(p.source) || !Truthy(p.target) then elements
    else
      var edge := EdgeFromParams(p, defaults);
      if ConnectionExists(ConnectionOf(edge), elements) then elements else elements + [EdgeElement(edge)]
  }

  /** `addEdge`: nothing changes for parameters without a source or a
      target, or when the connection exists; otherwise exactly the new
      edge is appended. */
  lemma AddEdgeCases(p: EdgeParams, elements: seq<Element>, defaults: Option<EdgeDefaults>)
    ensures var r := AddEdgeResult(p, elements, defaults);
      if !Truthy(p.source) || !Truthy(p.target) then r == elements
      else if ConnectionExists(ParamsConnection(p), elements) then r == elements
      else r == elements + [EdgeElement(EdgeFromParams(p, defaults))] && !ConnectionExists(ParamsConnection(p), elements)
  {
  }

  /** After `addEdge` with complete parameters the connection exists, so
      adding the same parameters again changes nothing. */
  lemma AddEdgeIdempotent(p: EdgeParams, elements: seq<Element>, defaults: Option<EdgeDefaults>)
    requires Truthy(p.source) && Truthy(p.target)
    ensures ConnectionExists(ParamsConnection(p), AddEdgeResult(p, elements, defaults))
    ensures AddEdgeResult(p, AddEdgeResult(p, elements, defaults), defaults) == AddEdgeResult(p, elements, defaults)
  {
    var r := AddEdgeResult(p, elements, defaults);
    var c := ParamsConnection(p);
    if !ConnectionExists(c, elements) {
      assert Connects(r[|r| - 1], c);
    }
  }

  /** `addEdge`, changing the array in place. */
  method AddEdge(p: EdgeParams, elements: ElementArray, defaults: Option<EdgeDefaults>)
    modifies elements
    ensures elements.items == AddEdgeResult(p, old(elements.items), defaults)
  {
    if !Truthy(p.source) || !Truthy(p.target) {
      return;
    }
    var edge := EdgeFromParams(p, defaults);
    if ConnectionExists(ConnectionOf(edge), elements.items) {
      return;
    }
    elements.items := elements.items + [EdgeElement(edge)];
  }

  /** The parameters of a user's new connection for `updateEdge`. */
  datatype NewConnection = NewConnection(source: Option<string>, target: Option<string>,
                                         sourceHandle: Option<string>, targetHandle: Option<string>)

  function NewConnectionOf(n: NewConnection): Connection
    requires n.source.Some? && n.target.Some?
  {
    Connection(n.source.value, n.target.value, n.sourceHandle, n.targetHandle)
  }

  /** The first edge element with the given id: `elements.find(e =>
      isEdge(e) && e.id === id)`, as an index, or -1. */
  function FindEdgeIndex(elements: seq<Element>, id: string): (r: int)
    ensures -1 <= r < |elements|
    ensures r >= 0 ==> elements[r].EdgeElement? && elements[r].edge.id == id
    ensures r >= 0 ==> forall i :: 0 <= i < r ==> !(elements[i].EdgeElement? && elements[i].edge.id == id)
    ensures r == -1 <==> forall i :: 0 <= i < |elements| ==> !(elements[i].EdgeElement? && elements[i].edge.id == id)
    decreases |elements|
  {
    if elements == [] then -1
    else if elements[0].EdgeElement? && elements[0].edge.id == id then 0
    else
      var k := FindEdgeIndex(elements[1..], id);
      if k == -1 then -1 else k + 1
  }

  /** The edge that replaces the old one: the old edge's fields with the
      new endpoints, handles and generated id. */
  function ReplacementEdge(oldEdge: Edge, n: NewConnection): (e: Edge)
    requires n.source.Some? && n.target.Some?
    ensures ConnectionOf(e) == NewConnectionOf(n) && e.id == GetEdgeId(NewConnectionOf(n))
    ensures e.edgeType == oldEdge.edgeType && e.selected == oldEdge.selected
  {
    oldEdge.(id := GetEdgeId(NewConnectionOf(n)), source := n.source.value, target := n.target.value,
             sourceHandle := n.sourceHandle, targetHandle := n.targetHandle)
  }

  predicate IdIsNot(id: string, e: Element) {
    e.Id() != id
  }

  /** `updateEdge` as written: the array after the `splice` and the array
      returned by the final `filter`. */
  function UpdateEdgeResult(oldEdge: Edge, n: NewConnection, elements: seq<Element>): (r: (seq<Element>, seq<Element>))
  {
    if !Truthy(n.source) || !Truthy(n.target) then (elements, elements)
    else
      var k := FindEdgeIndex(elements, oldEdge.id);
      if k == -1 then (elements, elements)
      else
        var spliced := elements[k := EdgeElement(ReplacementEdge(oldEdge, n))];
        (spliced, Filter(spliced, (e: Element) => IdIsNot(oldEdge.id, e)))
  }

  /** `updateEdge`: unchanged without a source or target or without an
      edge of that id; otherwise the returned list holds no element with
      the old id, and the array itself has the old edge replaced in
      place. */
  lemma UpdateEdgeCases(oldEdge: Edge, n: NewConnection, elements: seq<Element>)
    ensures var (spliced, r) := UpdateEdgeResult(oldEdge, n, elements);
      if !Truthy(n.source) || !Truthy(n.target) || FindEdgeIndex(elements, oldEdge.id) == -1 then
        spliced == elements && r == elements
      else
        var k := FindEdgeIndex(elements, oldEdge.id);
        && |spliced| == |elements| && spliced[k] == EdgeElement(ReplacementEdge(oldEdge, n))
        && (forall i :: 0 <= i < |elements| && i != k ==> spliced[i] == elements[i])
        && (forall i :: 0 <= i < |r| ==> r[i].Id() != oldEdge.id)
        && (forall i :: 0 <= i < |spliced| && spliced[i].Id() != oldEdge.id ==> spliced[i] in r)
  {
    var (spliced, r) := UpdateEdgeResult(oldEdge, n, elements);
    if Truthy(n.source) && Truthy(n.target) && FindEdgeIndex(elements, oldEdge.id) != -1 {
      var p := (e: Element) => IdIsNot(oldEdge.id, e);
      FilterAll(spliced, p);
      forall i | 0 <= i < |spliced| && spliced[i].Id() != oldEdge.id
        ensures spliced[i] in r
      {
        FilterMembership(spliced, p, spliced[i]);
      }
    }
  }

  /** The returned list loses the new edge whenever the new connection's
      generated id is the old edge's id (for instance when the old edge
      carries the generated id of the connection it is being moved to):
      the edge `splice` put in is removed again by the `filter`. */
  lemma UpdateEdgeDropsSameId(oldEdge: Edge, n: NewConnection, elements: seq<Element>)
    requires Truthy(n.source) && Truthy(n.target)
    requires FindEdgeIndex(elements, oldEdge.id) != -1
    requires GetEdgeId(NewConnectionOf(n)) == oldEdge.id
    ensures EdgeElement(ReplacementEdge(oldEdge, n)) !in UpdateEdgeResult(oldEdge, n, elements).1
    ensures EdgeElement(ReplacementEdge(oldEdge, n)) in UpdateEdgeResult(oldEdge, n, elements).0
  {
    var (spliced, r) := UpdateEdgeResult(oldEdge, n, elements);
    var k := FindEdgeIndex(elements, oldEdge.id);
    assert spliced[k] == EdgeElement(ReplacementEdge(oldEdge, n));
    FilterMembership(spliced, (e: Element) => IdIsNot(oldEdge.id, e), EdgeElement(ReplacementEdge(oldEdge, n)));
  }

  /** `updateEdge` with the evident intent: every other element with the
      old id removed and the old edge replaced, in its place, by the new
      one. */
  function UpdateEdgeIntended(oldEdge: Edge, n: NewConnection, elements: seq<Element>): seq<Element> {
    if !Truthy(n.source) || !Truthy(n.target) then elements
    else
      var k := FindEdgeIndex(elements, oldEdge.id);
      if k == -1 then elements
      else
        var p := (e: Element) => IdIsNot(oldEdge.id, e);
        Filter(elements[..k], p) + [EdgeElement(ReplacementEdge(oldEdge, n))] + Filter(elements[k + 1..], p)
  }

  /** The intended update always contains the new edge, keeps every
      element without the old id, and keeps no element with the old id
      except the new edge itself. */
  lemma UpdateEdgeIntendedKeepsNewEdge(oldEdge: Edge, n: NewConnection, elements: seq<Element>)
    requires Truthy(n.source) && Truthy(n.target)
    requires FindEdgeIndex(elements, oldEdge.id) != -1
    ensures var r := UpdateEdgeIntended(oldEdge, n, elements);
            var e := EdgeElement(ReplacementEdge(oldEdge, n));
      && e in r
      && (forall x :: x in elements && x.Id() != oldEdge.id ==> x in r)
      && (forall x :: x in r && x.Id() == oldEdge.id ==> x == e)
  {
    var k := FindEdgeIndex(elements, oldEdge.id);
    var p := (e: Element) => IdIsNot(oldEdge.id, e);
    var r := UpdateEdgeIntended(oldEdge, n, elements);
    var e := EdgeElement(ReplacementEdge(oldEdge, n));
    assert r == Filter(elements[..k], p) + [e] + Filter(elements[k + 1..], p);
    forall x | x in elements && x.Id() != oldEdge.id
      ensures x in r
    {
      var i :| 0 <= i < |elements| && elements[i] == x;
      assert i != k;
      if i < k {
        assert x in elements[..k];
        FilterMembership(elements[..k], p, x);
      } else {
        assert x in elements[k + 1..];
        FilterMembership(elements[k + 1..], p, x);
      }
    }
    forall x | x in r && x.Id() == oldEdge.id
      ensures x == e
    {
      FilterMembership(elements[..k], p, x);
      FilterMembership(elements[k + 1..], p, x);
    }
  }

  /** `updateEdge`, as written: splices the array in place and returns the
      filtered copy. */
  method UpdateEdge(oldEdge: Edge, n: NewConnection, elements: ElementArray) returns (r: seq<Element>)
    modifies elements
    ensures (elements.items, r) == UpdateEdgeResult(oldEdge, n, old(elements.items))
  {
    if !Truthy(n.source) || !Truthy(n.target) {
      return elements.items;
    }
    var k := FindEdgeIndex(elements.items, oldEdge.id);
    if k == -1 {
      return elements.items;
    }
    elements.items := elements.items[k := EdgeElement(ReplacementEdge(oldEdge, n))];
    r := Filter(elements.items, (e: Element) => IdIsNot(oldEdge.id, e));
  }
}
