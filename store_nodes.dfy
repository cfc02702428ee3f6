/** `createGraphNodes`: the store's nodes from user input, in two passes.
    The first pass parses every valid input into `nextNodes[i]`, at the
    input's own index, so an invalid input before a valid one leaves a hole
    in the array; the second pass walks `nextNodes`, reports missing
    parents and marks parents. A hole makes the second pass throw. */
module StoreNodes {
  import opened Common
  import opened Elements

  /** An entry of the input array: something `isNode` accepts, or anything
      else, of which only `node?.id` matters. */
  datatype NodeInput = ValidNode(node: Node) | InvalidNode(id: Option<string>)

  /** `node?.id`. */
  function InputId(input: NodeInput): (r: Option<string>)
    ensures input.ValidNode? ==> r == Some(input.node.id)
    ensures input.InvalidNode? ==> r == input.id
  {
    match input
    case ValidNode(node) => Some(node.id)
    case InvalidNode(id) => id
  }

  /** `parseNode`'s initial state: type `'default'`, zero dimensions, the
      computed position at the input position with level 0, handle bounds
      present, not selected, dragged or resized, not a parent. */
  function InitialState(node: Node): (r: Node)
    ensures r.id == node.id && r.nodeType.Some? && !r.isParent
  {
    Node(node.id, Some(node.nodeType.GetOr("default")), Point(0.0, 0.0),
         Some(XYZ(node.position.x, node.position.y, 0.0)), Dimensions(Some(0.0), Some(0.0)),
         None, None, true, Some(false), Some(false), Some(false), None, None, None,
         None, None, None, false, None)
  }

  /** `a ?? b` on a field `Object.assign` copies when it is defined. */
  function Pick<T>(given: Option<T>, base: Option<T>): (r: Option<T>)
    ensures given.Some? ==> r == given
    ensures given.None? ==> r == base
  {
    if given.Some? then given else base
  }

  /** `parseNode(node, existingNode, parentNode)`: the fields the input
      defines, over the existing node or else the initial state, with the
      input's id and the given parent. The measured fields (`dimensions`,
      `handleBounds`, `isParent`) are the store's and come from the
      base. */
  function ParseNode(node: Node, existingNode: Option<Node>, parentNode: Option<string>): (r: Node)
    ensures r.id == node.id && r.parentNode == parentNode && r.position == node.position
    ensures node.nodeType.Some? ==> r.nodeType == node.nodeType
    ensures existingNode.None? ==>
      && r.nodeType.Some? && !r.isParent
      && r.selected == Some(node.selected.GetOr(false))
      && r.computedPosition == Some(node.computedPosition.GetOr(XYZ(node.position.x, node.position.y, 0.0)))
    ensures existingNode.Some? ==>
      && r.isParent == existingNode.value.isParent
      && r.dimensions == existingNode.value.dimensions
      && (node.selected.None? ==> r.selected == existingNode.value.selected)
  {
    var base := if existingNode.Some? then existingNode.value else InitialState(node);
    base.(id := node.id,
          nodeType := Pick(node.nodeType, base.nodeType),
          position := node.position,
          computedPosition := Pick(node.computedPosition, base.computedPosition),
          width := Pick(node.width, base.width),
          height := Pick(node.height, base.height),
          selected := Pick(node.selected, base.selected),
          dragging := Pick(node.dragging, base.dragging),
          resizing := Pick(node.resizing, base.resizing),
          draggable := Pick(node.draggable, base.draggable),
          selectable := Pick(node.selectable, base.selectable),
          hidden := Pick(node.hidden, base.hidden),
          parentNode := parentNode,
          expandParent := Pick(node.expandParent, base.expandParent),
          extent := Pick(node.extent, base.extent),
          style := Pick(node.style, base.style))
  }

  /** The parsed node for a valid input. */
  function Parsed(node: Node, findNode: string -> Option<Node>): Node {
    ParseNode(node, findNode(node.id), node.parentNode)
  }

  /** What index `i` of `nextNodes` holds after the first pass, when the
      array reaches that far: the parsed node, or a hole. */
  function Slot(input: NodeInput, findNode: string -> Option<Node>): Option<Node> {
    if input.ValidNode? then Some(Parsed(input.node, findNode)) else None
  }

  /** `n` holes (`undefined` read from a sparse array). */
  function Holes(n: nat): (r: seq<Option<Node>>)
    ensures |r| == n && forall i :: 0 <= i < n ==> r[i].None?
  {
    seq(n, _ => None)
  }

  /** The state of the first loop: `nextNodes` with its holes, the keys
      set in `parentNodes` in insertion order, and the errors reported. */
  datatype FirstPassState = FirstPassState(nextNodes: seq<Option<Node>>, parentIds: seq<string>, errors: seq<Error>)

  /** The first loop over a prefix of the input. */
  function FirstPass(nodes: seq<NodeInput>, findNode: string -> Option<Node>): (r: FirstPassState)
    ensures |r.nextNodes| <= |nodes|
    decreases |nodes|
  {
    if nodes == [] then FirstPassState([], [], [])
    else
      var prev := FirstPass(nodes[..|nodes| - 1], findNode);
      var i := |nodes| - 1;
      match nodes[i]
      case InvalidNode(_) => prev.(errors := prev.errors + [Error(NodeInvalid, InputId(nodes[i]), [])])
      case ValidNode(node) =>
        FirstPassState(prev.nextNodes + Holes(i - |prev.nextNodes|) + [Some(Parsed(node, findNode))],
                       if Truthy(node.parentNode) then SetAdd(prev.parentIds, node.parentNode.value) else prev.parentIds,
                       prev.errors)
  }

  /** The first loop, as written. */
  method FirstLoop(nodes: seq<NodeInput>, findNode: string -> Option<Node>) returns (state: FirstPassState)
    ensures state == FirstPass(nodes, findNode)
  {
    var nextNodes: seq<Option<Node>> := [];
    var parentIds: seq<string> := [];
    var errors: seq<Error> := [];
    for i := 0 to |nodes|
      invariant FirstPassState(nextNodes, parentIds, errors) == FirstPass(nodes[..i], findNode)
    {
      assert nodes[..i + 1][..i] == nodes[..i];
      var input := nodes[i];
      if input.InvalidNode? {
        errors := errors + [Error(NodeInvalid, InputId(input), [])];
        continue;
      }
      var node := input.node;
      var parsed := ParseNode(node, findNode(node.id), node.parentNode);
      if Truthy(node.parentNode) {
        parentIds := SetAdd(parentIds, node.parentNode.value);
      }
      nextNodes := nextNodes + Holes(i - |nextNodes|) + [Some(parsed)];
    }
    assert nodes[..|nodes|] == nodes;
    state := FirstPassState(nextNodes, parentIds, errors);
  }

  /** The array of the first loop: slot `i` belongs to input `i`, the
      inputs past its end are all invalid, and its last slot is filled. */
  predicate Shaped(nodes: seq<NodeInput>, next: seq<Option<Node>>, findNode: string -> Option<Node>) {
    && |next| <= |nodes|
    && (forall i :: 0 <= i < |next| ==> next[i] == Slot(nodes[i], findNode))
    && (forall i :: |next| <= i < |nodes| ==> nodes[i].InvalidNode?)
    && (|next| > 0 ==> next[|next| - 1].Some?)
  }

  /** Appending the holes and the slot of a valid last input to a
      shaped prefix gives a shaped array. */
  lemma ShapeAppend(nodes: seq<NodeInput>, findNode: string -> Option<Node>, prev: seq<Option<Node>>)
    requires nodes != [] && |prev| <= |nodes| - 1
    requires forall i :: 0 <= i < |prev| ==> prev[i] == Slot(nodes[i], findNode)
    requires forall i :: |prev| <= i < |nodes| - 1 ==> nodes[i].InvalidNode?
    ensures var last := |nodes| - 1;
      var next := prev + Holes(last - |prev|) + [Slot(nodes[last], findNode)];
      forall i :: 0 <= i < |next| ==> next[i] == Slot(nodes[i], findNode)
  {
    var last := |nodes| - 1;
    var next := prev + Holes(last - |prev|) + [Slot(nodes[last], findNode)];
    forall i | 0 <= i < |next|
      ensures next[i] == Slot(nodes[i], findNode)
    {
      if i < |prev| {
        assert next[i] == prev[i];
      } else if i < last {
        assert next[i].None?;
      }
    }
  }

  /** After the first loop, `nextNodes` ends at the last valid input, and
      each index up to there holds the parsed node or, for an invalid
      input, a hole. */
  lemma {:induction false} FirstPassShape(nodes: seq<NodeInput>, findNode: string -> Option<Node>)
    ensures Shaped(nodes, FirstPass(nodes, findNode).nextNodes, findNode)
    decreases |nodes|
  {
    if nodes != [] {
      FirstPassShape(nodes[..|nodes| - 1], findNode);
      if nodes[|nodes| - 1].ValidNode? {
        ShapedValid(nodes, findNode);
      } else {
        ShapedInvalid(nodes, findNode);
      }
    }
  }

  /** A valid last input extends the shape. */
  lemma ShapedValid(nodes: seq<NodeInput>, findNode: string -> Option<Node>)
    requires nodes != [] && nodes[|nodes| - 1].ValidNode?
    requires var init := nodes[..|nodes| - 1]; Shaped(init, FirstPass(init, findNode).nextNodes, findNode)
    ensures Shaped(nodes, FirstPass(nodes, findNode).nextNodes, findNode)
  {
    var init := nodes[..|nodes| - 1];
    var prev := FirstPass(init, findNode).nextNodes;
    var next := FirstPass(nodes, findNode).nextNodes;
    var last := |nodes| - 1;
    assert next == prev + Holes(last - |prev|) + [Slot(nodes[last], findNode)];
    forall i | 0 <= i < |prev|
      ensures prev[i] == Slot(nodes[i], findNode)
    {
      assert init[i] == nodes[i];
    }
    forall i | |prev| <= i < |nodes| - 1
      ensures nodes[i].InvalidNode?
    {
      assert init[i] == nodes[i];
    }
    ShapeAppend(nodes, findNode, prev);
  }

  /** An invalid last input leaves the array as it was. */
  lemma ShapedInvalid(nodes: seq<NodeInput>, findNode: string -> Option<Node>)
    requires nodes != [] && nodes[|nodes| - 1].InvalidNode?
    requires var init := nodes[..|nodes| - 1]; Shaped(init, FirstPass(init, findNode).nextNodes, findNode)
    ensures Shaped(nodes, FirstPass(nodes, findNode).nextNodes, findNode)
  {
    var init := nodes[..|nodes| - 1];
    var prev := FirstPass(init, findNode).nextNodes;
    assert FirstPass(nodes, findNode).nextNodes == prev;
    forall i | 0 <= i < |prev|
      ensures prev[i] == Slot(nodes[i], findNode)
    {
      assert init[i] == nodes[i];
    }
    forall i | |prev| <= i < |nodes|
      ensures nodes[i].InvalidNode?
    {
      if i < |init| {
        assert init[i] == nodes[i];
      }
    }
  }

  /** The keys of `parentNodes` are exactly the truthy parents of the
      valid inputs. */
  lemma {:induction false} FirstPassParents(nodes: seq<NodeInput>, findNode: string -> Option<Node>, p: string)
    ensures p in FirstPass(nodes, findNode).parentIds <==>
      exists i :: 0 <= i < |nodes| && nodes[i].ValidNode? && nodes[i].node.parentNode == Some(p) && p != []
    decreases |nodes|
  {
    if nodes != [] {
      var init := nodes[..|nodes| - 1];
      FirstPassParents(init, findNode, p);
      assert forall i :: 0 <= i < |init| ==> init[i] == nodes[i];
      var last := |nodes| - 1;
      if (exists i :: 0 <= i < |nodes| && nodes[i].ValidNode? && nodes[i].node.parentNode == Some(p) && p != []) {
        var i :| 0 <= i < |nodes| && nodes[i].ValidNode? && nodes[i].node.parentNode == Some(p) && p != [];
        if i < last {
          assert init[i] == nodes[i];
        }
      }
    }
  }

  /** The first loop reports `NODE_INVALID`, with the input's id if it has
      one, for each invalid input and nothing else. */
  lemma {:induction false} FirstPassErrors(nodes: seq<NodeInput>, findNode: string -> Option<Node>)
    ensures FirstPass(nodes, findNode).errors ==
      Map(Filter(nodes, (n: NodeInput) => n.InvalidNode?), (n: NodeInput) => Error(NodeInvalid, InputId(n), []))
    decreases |nodes|
  {
    if nodes != [] {
      FirstPassErrors(nodes[..|nodes| - 1], findNode);
    }
  }

  predicate HasHole(next: seq<Option<Node>>) {
    exists i :: 0 <= i < |next| && next[i].None?
  }

  /** An invalid input before a valid one. */
  predicate InvalidBeforeValid(nodes: seq<NodeInput>) {
    exists i, j :: 0 <= i < j < |nodes| && nodes[i].InvalidNode? && nodes[j].ValidNode?
  }

  /** `nextNodes` has a hole exactly when an invalid input comes before a
      valid one. */
  lemma FirstPassHoles(nodes: seq<NodeInput>, findNode: string -> Option<Node>)
    ensures HasHole(FirstPass(nodes, findNode).nextNodes) <==> InvalidBeforeValid(nodes)
  {
    FirstPassShape(nodes, findNode);
    var next := FirstPass(nodes, findNode).nextNodes;
    if HasHole(next) {
      HoleMeansInvalidBeforeValid(nodes, next, findNode);
    }
    if InvalidBeforeValid(nodes) {
      InvalidBeforeValidMeansHole(nodes, next, findNode);
    }
  }

  /** A hole sits below the filled last slot, so an invalid input comes
      before a valid one. */
  lemma HoleMeansInvalidBeforeValid(nodes: seq<NodeInput>, next: seq<Option<Node>>, findNode: string -> Option<Node>)
    requires Shaped(nodes, next, findNode) && HasHole(next)
    ensures InvalidBeforeValid(nodes)
  {
    var i :| 0 <= i < |next| && next[i].None?;
    assert Slot(nodes[i], findNode).None?;
    assert nodes[|next| - 1].ValidNode? by {
      assert Slot(nodes[|next| - 1], findNode).Some?;
    }
    assert i != |next| - 1;
  }

  /** The slot of an invalid input before a valid one lies inside the
      array and is empty. */
  lemma InvalidBeforeValidMeansHole(nodes: seq<NodeInput>, next: seq<Option<Node>>, findNode: string -> Option<Node>)
    requires Shaped(nodes, next, findNode) && InvalidBeforeValid(nodes)
    ensures HasHole(next)
  {
    var i, j :| 0 <= i < j < |nodes| && nodes[i].InvalidNode? && nodes[j].ValidNode?;
    assert j < |next|;
    assert next[i] == Slot(nodes[i], findNode);
  }

  /** What `nextNodes.find((n) => n.id === id)` does on a sparse array:
      returns the first match, or throws at a hole met before any match. */
  datatype FindOutcome = Found(node: Node) | NotFound | HitHole

  function FindInNext(next: seq<Option<Node>>, id: Option<string>): (r: FindOutcome)
    ensures r.Found? ==> id == Some(r.node.id) && Some(r.node) in next
    ensures r.HitHole? ==> HasHole(next)
    ensures !HasHole(next) ==>
      (r.NotFound? <==> forall j :: 0 <= j < |next| ==> Some(next[j].value.id) != id)
    decreases |next|
  {
    if next == [] then NotFound
    else if next[0].None? then HitHole
    else if id == Some(next[0].value.id) then Found(next[0].value)
    else
      var r := FindInNext(next[1..], id);
      assert r.HitHole? ==> HasHole(next) by {
        if r.HitHole? {
          var i :| 0 <= i < |next[1..]| && next[1..][i].None?;
          assert next[i + 1].None?;
        }
      }
      assert !HasHole(next) ==> !HasHole(next[1..]) && (forall j :: 1 <= j < |next| ==> next[j] == next[1..][j - 1]);
      r
  }

  /** `findNode(node.parentNode) || nextNodes.find(...)`; a node without a
      parent is looked up in neither store (no node has an undefined id),
      yet the `find` still walks `nextNodes`. */
  function ParentOf(node: Node, next: seq<Option<Node>>, findNode: string -> Option<Node>): (r: FindOutcome)
    ensures r.Found? ==>
      (node.parentNode.Some? && findNode(node.parentNode.value) == Some(r.node))
      || (node.parentNode == Some(r.node.id) && Some(r.node) in next)
    ensures r.HitHole? ==> HasHole(next)
    ensures node.parentNode.None? && !HasHole(next) ==> r.NotFound?
  {
    if node.parentNode.Some? && findNode(node.parentNode.value).Some? then Found(findNode(node.parentNode.value).value)
    else FindInNext(next, node.parentNode)
  }

  /** The properties every plain object inherits from `Object.prototype`;
      each reads as a function, or for `__proto__` as the prototype
      itself, so each is truthy. */
  const ObjectPrototypeNames: set<string> := {
    "constructor", "__proto__", "hasOwnProperty", "isPrototypeOf", "propertyIsEnumerable",
    "toLocaleString", "toString", "valueOf",
    "__defineGetter__", "__defineSetter__", "__lookupGetter__", "__lookupSetter__"
  }

  /** `parentNodes[id]` on the plain object the first loop fills: true for
      a recorded parent, and truthy as well for an inherited name. */
  predicate ParentFlag(parentIds: seq<string>, id: string) {
    id in parentIds || id in ObjectPrototypeNames
  }

  /** A node as the second loop leaves it: a parent if another valid input
      named it, or if its id is a name the object inherits. */
  function Marked(node: Node, parentIds: seq<string>): (r: Node)
    ensures r == node.(isParent := r.isParent)
    ensures r.isParent <==> node.isParent || ParentFlag(parentIds, node.id)
  {
    node.(isParent := node.isParent || ParentFlag(parentIds, node.id))
  }

  /** A node whose id is `toString` becomes a parent although no node names
      it: the lookup finds the inherited method. */
  lemma InheritedIdMarked(node: Node)
    requires node.id == "toString"
    ensures Marked(node, []).isParent
  {
    assert "toString" in ObjectPrototypeNames;
  }

  function MissingParentError(node: Node): Error
    requires node.parentNode.Some?
  {
    Error(NodeMissingParent, Some(node.id), [node.parentNode.value])
  }

  /** The result of `createGraphNodes`: the nodes and the errors reported,
      or a `TypeError` thrown after some errors were reported. */
  datatype NodesOutcome = Completed(nodes: seq<Node>, errors: seq<Error>) | Thrown(errors: seq<Error>)

  /** The second loop over the first `k` entries of `nextNodes`. */
  function SecondPass(next: seq<Option<Node>>, parentIds: seq<string>, findNode: string -> Option<Node>, k: nat): (r: NodesOutcome)
    requires k <= |next|
    ensures r.Completed? ==> |r.nodes| == k
    decreases k
  {
    if k == 0 then Completed([], [])
    else
      match SecondPass(next, parentIds, findNode, k - 1)
      case Thrown(errors) => Thrown(errors)
      case Completed(done, errors) =>
        match next[k - 1]
        case None => Thrown(errors)
        case Some(node) =>
          var parent := ParentOf(node, next, findNode);
          if parent.HitHole? then Thrown(errors)
          else
            var missing := Truthy(node.parentNode) && parent.NotFound?;
            Completed(done + [Marked(node, parentIds)],
                      errors + (if missing then [MissingParentError(node)] else []))
  }

  /** Once thrown, the exception ends the loop. */
  lemma {:induction false} SecondPassThrownStays(next: seq<Option<Node>>, parentIds: seq<string>,
                                                 findNode: string -> Option<Node>, k: nat, m: nat)
    requires k <= m <= |next| && SecondPass(next, parentIds, findNode, k).Thrown?
    ensures SecondPass(next, parentIds, findNode, m) == SecondPass(next, parentIds, findNode, k)
    decreases m
  {
    if m > k {
      SecondPassThrownStays(next, parentIds, findNode, k, m - 1);
    }
  }

  /** One entry of the second loop: a node whose parent lookup does not
      hit a hole is marked, and reported when its parent is missing. */
  lemma SecondPassStep(next: seq<Option<Node>>, parentIds: seq<string>, findNode: string -> Option<Node>,
                       k: nat, done: seq<Node>, errors: seq<Error>)
    requires k < |next| && next[k].Some? && !ParentOf(next[k].value, next, findNode).HitHole?
    requires SecondPass(next, parentIds, findNode, k) == Completed(done, errors)
    ensures var node := next[k].value;
      var missing := Truthy(node.parentNode) && ParentOf(node, next, findNode).NotFound?;
      SecondPass(next, parentIds, findNode, k + 1)
        == Completed(done + [Marked(node, parentIds)], errors + (if missing then [MissingParentError(node)] else []))
  {
  }

  /** The second loop, as written; `return` is the exception. */
  method SecondLoop(next: seq<Option<Node>>, parentIds: seq<string>, findNode: string -> Option<Node>) returns (outcome: NodesOutcome)
    ensures outcome == SecondPass(next, parentIds, findNode, |next|)
  {
    var done: seq<Node> := [];
    var errors: seq<Error> := [];
    var k := 0;
    while k < |next|
      invariant 0 <= k <= |next|
      invariant SecondPass(next, parentIds, findNode, k) == Completed(done, errors)
    {
      if next[k].None? {
        SecondPassThrownStays(next, parentIds, findNode, k + 1, |next|);
        return Thrown(errors);
      }
      var node := next[k].value;
      var parent := ParentOf(node, next, findNode);
      if parent.HitHole? {
        SecondPassThrownStays(next, parentIds, findNode, k + 1, |next|);
        return Thrown(errors);
      }
      ghost var before := (done, errors);
      if Truthy(node.parentNode) && parent.NotFound? {
        errors := errors + [MissingParentError(node)];
      }
      done := done + [Marked(node, parentIds)];
      SecondPassStep(next, parentIds, findNode, k, before.0, before.1);
      k := k + 1;
    }
    outcome := Completed(done, errors);
  }

  /** `createGraphNodes(nodes, findNode, triggerError)` by its definition. */
  function CreateGraphNodesResult(nodes: seq<NodeInput>, findNode: string -> Option<Node>): NodesOutcome {
    var first := FirstPass(nodes, findNode);
    match SecondPass(first.nextNodes, first.parentIds, findNode, |first.nextNodes|)
    case Completed(out, errors) => Completed(out, first.errors + errors)
    case Thrown(errors) => Thrown(first.errors + errors)
  }

  method CreateGraphNodes(nodes: seq<NodeInput>, findNode: string -> Option<Node>) returns (outcome: NodesOutcome)
    ensures outcome == CreateGraphNodesResult(nodes, findNode)
  {
    var first := FirstLoop(nodes, findNode);
    var second := SecondLoop(first.nextNodes, first.parentIds, findNode);
    match second
    case Completed(out, errors) =>
      outcome := Completed(out, first.errors + errors);
    case Thrown(errors) =>
      outcome := Thrown(first.errors + errors);
  }

  /** Without holes the second loop completes, marking every node and
      reporting `NODE_MISSING_PARENT` exactly for the nodes whose truthy
      parent is in neither the store nor `nextNodes`. */
  lemma {:induction false} SecondPassCompletes(next: seq<Option<Node>>, parentIds: seq<string>,
                                               findNode: string -> Option<Node>, k: nat)
    requires k <= |next| && !HasHole(next)
    ensures CompletesAs(next, parentIds, findNode, k, SecondPass(next, parentIds, findNode, k))
    decreases k
  {
    if k > 0 {
      SecondPassCompletes(next, parentIds, findNode, k - 1);
      CompletesStep(next, parentIds, findNode, k);
    }
  }

  /** The second loop over `k` entries of a hole-free array completes,
      marks each node, and reports exactly the nodes whose parent is in
      neither store. */
  predicate CompletesAs(next: seq<Option<Node>>, parentIds: seq<string>,
                        findNode: string -> Option<Node>, k: nat, r: NodesOutcome)
    requires k <= |next| && !HasHole(next)
  {
    && r.Completed? && |r.nodes| == k
    && (forall i :: 0 <= i < k ==> r.nodes[i] == Marked(next[i].value, parentIds))
    && (forall e :: e in r.errors ==>
          && e.code == NodeMissingParent
          && exists i :: 0 <= i < k && MissingParent(next[i].value, next, findNode) && e == MissingParentError(next[i].value))
    && (forall i :: 0 <= i < k && MissingParent(next[i].value, next, findNode) ==> MissingParentError(next[i].value) in r.errors)
  }

  /** One more entry of a hole-free array keeps the loop complete. */
  lemma CompletesStep(next: seq<Option<Node>>, parentIds: seq<string>, findNode: string -> Option<Node>, k: nat)
    requires 0 < k <= |next| && !HasHole(next)
    requires CompletesAs(next, parentIds, findNode, k - 1, SecondPass(next, parentIds, findNode, k - 1))
    ensures CompletesAs(next, parentIds, findNode, k, SecondPass(next, parentIds, findNode, k))
  {
    var prev := SecondPass(next, parentIds, findNode, k - 1);
    assert next[k - 1].Some?;
    var node := next[k - 1].value;
    var parent := ParentOf(node, next, findNode);
    assert !parent.HitHole?;
    var missing := Truthy(node.parentNode) && parent.NotFound?;
    assert missing <==> MissingParent(node, next, findNode);
    var r := SecondPass(next, parentIds, findNode, k);
    assert r == Completed(prev.nodes + [Marked(node, parentIds)],
                          prev.errors + (if missing then [MissingParentError(node)] else []));
  }

  /** The parent a node names is in neither store. */
  predicate MissingParent(node: Node, next: seq<Option<Node>>, findNode: string -> Option<Node>) {
    && Truthy(node.parentNode)
    && findNode(node.parentNode.value).None?
    && forall j :: 0 <= j < |next| ==> next[j].None? || next[j].value.id != node.parentNode.value
  }

  /** A hole at index `h` makes the second loop throw once it has reached
      past `h`, if the `find` did not throw earlier. */
  lemma {:induction false} SecondPassThrows(next: seq<Option<Node>>, parentIds: seq<string>,
                                            findNode: string -> Option<Node>, h: nat, k: nat)
    requires h < k <= |next| && next[h].None?
    ensures SecondPass(next, parentIds, findNode, k).Thrown?
    decreases k
  {
    if k - 1 > h {
      SecondPassThrows(next, parentIds, findNode, h, k - 1);
    }
  }

  /** `createGraphNodes` throws exactly when an invalid input is followed
      by a valid one; otherwise it returns each valid input parsed and
      marked, in order. */
  lemma CreateGraphNodesThrows(nodes: seq<NodeInput>, findNode: string -> Option<Node>)
    ensures CreateGraphNodesResult(nodes, findNode).Thrown? <==> InvalidBeforeValid(nodes)
    ensures !InvalidBeforeValid(nodes) ==>
      var first := FirstPass(nodes, findNode);
      var out := CreateGraphNodesResult(nodes, findNode).nodes;
      |out| == |first.nextNodes| &&
      forall i :: 0 <= i < |out| ==> nodes[i].ValidNode? && out[i] == Marked(Parsed(nodes[i].node, findNode), first.parentIds)
  {
    var first := FirstPass(nodes, findNode);
    var next := first.nextNodes;
    FirstPassHoles(nodes, findNode);
    FirstPassShape(nodes, findNode);
    if HasHole(next) {
      var h :| 0 <= h < |next| && next[h].None?;
      SecondPassThrows(next, first.parentIds, findNode, h, |next|);
    } else {
      SecondPassCompletes(next, first.parentIds, findNode, |next|);
      forall i | 0 <= i < |next|
        ensures nodes[i].ValidNode?
      {
        assert Slot(nodes[i], findNode).Some?;
      }
    }
  }

  /** A concrete input on which `createGraphNodes` throws: an invalid
      entry followed by a valid node. */
  lemma CreateGraphNodesThrowsExample(n: Node, findNode: string -> Option<Node>)
    ensures CreateGraphNodesResult([InvalidNode(None), ValidNode(n)], findNode).Thrown?
  {
    var nodes := [InvalidNode(None), ValidNode(n)];
    assert InvalidBeforeValid(nodes) by {
      assert nodes[0].InvalidNode? && nodes[1].ValidNode?;
    }
    CreateGraphNodesThrows(nodes, findNode);
  }

  /** The first loop as evidently intended: the parsed nodes are pushed, so
      `nextNodes` has no holes. */
  function IntendedNextNodes(nodes: seq<NodeInput>, findNode: string -> Option<Node>): (r: seq<Option<Node>>)
    ensures !HasHole(r)
    ensures |r| <= |nodes|
    decreases |nodes|
  {
    if nodes == [] then []
    else
      var prev := IntendedNextNodes(nodes[..|nodes| - 1], findNode);
      var last := nodes[|nodes| - 1];
      var r := prev + (if last.ValidNode? then [Some(Parsed(last.node, findNode))] else []);
      assert forall i :: 0 <= i < |prev| ==> r[i] == prev[i];
      r
  }

  /** `createGraphNodes` with the intended first loop. */
  function CreateGraphNodesIntended(nodes: seq<NodeInput>, findNode: string -> Option<Node>): NodesOutcome {
    var first := FirstPass(nodes, findNode);
    var next := IntendedNextNodes(nodes, findNode);
    match SecondPass(next, first.parentIds, findNode, |next|)
    case Completed(out, errors) => Completed(out, first.errors + errors)
    case Thrown(errors) => Thrown(first.errors + errors)
  }

  /** The intended pushes are the parsed valid inputs in order. */
  lemma {:induction false} IntendedNextNodesValues(nodes: seq<NodeInput>, findNode: string -> Option<Node>)
    ensures IntendedNextNodes(nodes, findNode) ==
      Map(Filter(nodes, (n: NodeInput) => n.ValidNode?), (n: NodeInput) => Slot(n, findNode))
    decreases |nodes|
  {
    if nodes != [] {
      IntendedNextNodesValues(nodes[..|nodes| - 1], findNode);
    }
  }

  /** The corrected function never throws and returns every valid input,
      parsed and marked, in input order; it agrees with the original
      whenever the original does not throw. */
  lemma CreateGraphNodesIntendedCompletes(nodes: seq<NodeInput>, findNode: string -> Option<Node>)
    ensures var r := CreateGraphNodesIntended(nodes, findNode);
      var valid := Filter(nodes, (n: NodeInput) => n.ValidNode?);
      && r.Completed?
      && |r.nodes| == |valid|
      && (forall i :: 0 <= i < |valid| ==>
            valid[i].ValidNode? && r.nodes[i] == Marked(Parsed(valid[i].node, findNode), FirstPass(nodes, findNode).parentIds))
    ensures !InvalidBeforeValid(nodes) ==> CreateGraphNodesIntended(nodes, findNode) == CreateGraphNodesResult(nodes, findNode)
  {
    var next := IntendedNextNodes(nodes, findNode);
    var parentIds := FirstPass(nodes, findNode).parentIds;
    var valid := Filter(nodes, (n: NodeInput) => n.ValidNode?);
    SecondPassCompletes(next, parentIds, findNode, |next|);
    IntendedNextNodesValues(nodes, findNode);
    FilterAll(nodes, (n: NodeInput) => n.ValidNode?);
    assert forall i :: 0 <= i < |valid| ==> next[i] == Some(Parsed(valid[i].node, findNode));
    if !InvalidBeforeValid(nodes) {
      IntendedMatchesFirstPass(nodes, findNode);
    }
  }

  /** Without an invalid input before a valid one, pushing and assigning
      at the input's index build the same array. */
  lemma {:induction false} IntendedMatchesFirstPass(nodes: seq<NodeInput>, findNode: string -> Option<Node>)
    requires !InvalidBeforeValid(nodes)
    ensures IntendedNextNodes(nodes, findNode) == FirstPass(nodes, findNode).nextNodes
    decreases |nodes|
  {
    if nodes != [] {
      var init := nodes[..|nodes| - 1];
      assert !InvalidBeforeValid(init);
      IntendedMatchesFirstPass(init, findNode);
      var last := |nodes| - 1;
      if nodes[last].ValidNode? {
        FirstPassShape(init, findNode);
        var prev := FirstPass(init, findNode).nextNodes;
        assert |prev| == last;
        assert Holes(0) == [];
      }
    }
  }
}
