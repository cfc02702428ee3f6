/** The store's edge actions: `addEdgeToStore`, `updateEdgeAction` and
    `createGraphEdges`. Errors the JavaScript passes to `triggerError` or
    `onError` are returned, in the order they are reported. */
module StoreEdges {
  import opened Common
  import opened Elements
  import opened GraphEdges

  const IdUnknown := "[ID UNKNOWN]"

  /** The store's edges as an elements array, for `connectionExists`. */
  function AsElements(edges: seq<Edge>): (r: seq<Element>)
    ensures |r| == |edges| && forall i :: 0 <= i < |edges| ==> r[i] == EdgeElement(edges[i])
  {
    Map(edges, (e: Edge) => EdgeElement(e))
  }

  /** What `addEdgeToStore` returns (`false` is `None`) and the error it
      reports, if any. */
  datatype AddOutcome = AddOutcome(edge: Option<Edge>, error: Option<Error>)

  /** `addEdgeToStore(edgeParams, edges, triggerError, defaultEdgeOptions)`:
      parameters without a source or target are rejected with
      `EDGE_INVALID`; a connection that already exists gives `false`
      without an error; otherwise the new edge, whose id is the
      parameters' own for a full edge and generated otherwise. */
  function AddEdgeToStore(edgeParams: Option<EdgeParams>, edges: seq<Edge>,
                          defaultEdgeOptions: Option<EdgeDefaults>): (r: AddOutcome)
    ensures r.error.Some? <==> edgeParams.None? || !Truthy(edgeParams.value.source) || !Truthy(edgeParams.value.target)
    ensures r.error.Some? ==>
      && r.edge.None? && r.error.value.code == EdgeInvalid
      && r.error.value.id == Some(if edgeParams.Some? && edgeParams.value.id.Some? then edgeParams.value.id.value else IdUnknown)
    ensures r.edge.Some? ==> var p := edgeParams.value;
      && ConnectionOf(r.edge.value) == ParamsConnection(p)
      && r.edge.value.id == (if ParamsAreEdge(p) then p.id.value else GetEdgeId(ParamsConnection(p)))
      && forall i :: 0 <= i < |edges| ==> !Connects(EdgeElement(edges[i]), ParamsConnection(p))
    ensures r.error.None? && r.edge.None? ==>
      exists i :: 0 <= i < |edges| && Connects(EdgeElement(edges[i]), ParamsConnection(edgeParams.value))
  {
    if edgeParams.None? || !Truthy(edgeParams.value.source) || !Truthy(edgeParams.value.target) then
      var id := if edgeParams.Some? && edgeParams.value.id.Some? then edgeParams.value.id.value else IdUnknown;
      AddOutcome(None, Some(Error(EdgeInvalid, Some(id), [])))
    else
      var edge := EdgeFromParams(edgeParams.value, defaultEdgeOptions);
      if ConnectionExists(ConnectionOf(edge), AsElements(edges)) then AddOutcome(None, None)
      else AddOutcome(Some(edge), None)
  }

  /** Once the new edge is in the store, the same parameters are refused
      as a duplicate. */
  lemma AddEdgeToStoreOnce(edgeParams: Option<EdgeParams>, edges: seq<Edge>, defaultEdgeOptions: Option<EdgeDefaults>)
    requires AddEdgeToStore(edgeParams, edges, defaultEdgeOptions).edge.Some?
    ensures var e := AddEdgeToStore(edgeParams, edges, defaultEdgeOptions).edge.value;
      AddEdgeToStore(edgeParams, edges + [e], defaultEdgeOptions) == AddOutcome(None, None)
  {
    var e := AddEdgeToStore(edgeParams, edges, defaultEdgeOptions).edge.value;
    var edges' := edges + [e];
    assert edges'[|edges|] == e;
    assert Connects(EdgeElement(edges'[|edges|]), ParamsConnection(edgeParams.value));
  }

  /** What `updateEdgeAction` returns and the error it reports. */
  datatype UpdateOutcome = UpdateOutcome(edge: Option<Edge>, error: Option<Error>)

  /** `updateEdgeAction(edge, newConnection, prevEdge, shouldReplaceId,
      triggerError)`. */
  function UpdateEdgeAction(edge: Edge, newConnection: NewConnection, prevEdge: Option<Edge>,
                            shouldReplaceId: bool): (r: UpdateOutcome)
    ensures !Truthy(newConnection.source) || !Truthy(newConnection.target) ==>
      r == UpdateOutcome(None, Some(Error(EdgeInvalid, Some(edge.id), [])))
    ensures Truthy(newConnection.source) && Truthy(newConnection.target) && prevEdge.None? ==>
      r == UpdateOutcome(None, Some(Error(EdgeNotFound, Some(edge.id), [])))
    ensures r.edge.Some? ==>
      && r.error.None?
      && ConnectionOf(r.edge.value) == NewConnectionOf(newConnection)
      && r.edge.value.id == (if shouldReplaceId then GetEdgeId(NewConnectionOf(newConnection)) else edge.id)
      && r.edge.value.edgeType == edge.edgeType && r.edge.value.selected == edge.selected
    ensures r.edge.None? <==> r.error.Some?
  {
    if !Truthy(newConnection.source) || !Truthy(newConnection.target) then
      UpdateOutcome(None, Some(Error(EdgeInvalid, Some(edge.id), [])))
    else if prevEdge.None? then
      UpdateOutcome(None, Some(Error(EdgeNotFound, Some(edge.id), [])))
    else
      var c := NewConnectionOf(newConnection);
      UpdateOutcome(Some(edge.(id := if shouldReplaceId then GetEdgeId(c) else edge.id,
                               source := c.source, target := c.target,
                               sourceHandle := c.sourceHandle, targetHandle := c.targetHandle)), None)
  }

  /** Updating to the connection an edge already has, keeping the id,
      gives the edge back. */
  lemma UpdateEdgeActionSameConnection(edge: Edge, prevEdge: Edge)
    requires edge.source != [] && edge.target != []
    ensures var n := NewConnection(Some(edge.source), Some(edge.target), edge.sourceHandle, edge.targetHandle);
      UpdateEdgeAction(edge, n, Some(prevEdge), false) == UpdateOutcome(Some(edge), None)
  {
  }

  /** An edge of the store with the nodes it joins. */
  datatype GraphEdge = GraphEdge(edge: Edge, sourceNode: Node, targetNode: Node)

  /** A full edge given to `createGraphEdges` is used as it is. */
  function EdgeOfParams(p: EdgeParams): Edge
    requires ParamsAreEdge(p)
  {
    Edge(p.id.value, p.edgeType, p.source.value, p.target.value, p.sourceHandle, p.targetHandle, None)
  }

  /** `parseEdge(edge, existingEdge, defaultEdgeOptions)` on an edge
      record: merged into the existing edge, whose type, handles and
      selection stay where the new record leaves them undefined; without
      one, the type defaults as in `ParseEdge`. */
  function ParseStoreEdge(edge: Edge, existingEdge: Option<Edge>, defaultEdgeOptions: Option<EdgeDefaults>): (r: Edge)
    ensures r.id == edge.id && r.source == edge.source && r.target == edge.target
    ensures edge.edgeType.Some? ==> r.edgeType == edge.edgeType
    ensures edge.sourceHandle.Some? ==> r.sourceHandle == edge.sourceHandle
    ensures edge.targetHandle.Some? ==> r.targetHandle == edge.targetHandle
    ensures existingEdge.None? ==> r.edgeType.Some? && ConnectionOf(r) == ConnectionOf(edge)
    ensures existingEdge.Some? ==>
      (edge.edgeType.None? ==> r.edgeType == existingEdge.value.edgeType) &&
      (edge.sourceHandle.None? ==> r.sourceHandle == existingEdge.value.sourceHandle) &&
      (edge.targetHandle.None? ==> r.targetHandle == existingEdge.value.targetHandle)
  {
    match existingEdge
    case Some(existing) =>
      edge.(edgeType := if edge.edgeType.Some? then edge.edgeType else existing.edgeType,
            sourceHandle := if edge.sourceHandle.Some? then edge.sourceHandle else existing.sourceHandle,
            targetHandle := if edge.targetHandle.Some? then edge.targetHandle else existing.targetHandle,
            selected := if edge.selected.Some? then edge.selected else existing.selected)
    case None =>
      var p := EdgeParams(Some(edge.id), edge.edgeType, Some(edge.source), Some(edge.target),
                          edge.sourceHandle, edge.targetHandle);
      ParseEdge(p, edge.id, edge.source, edge.target, defaultEdgeOptions).(selected := edge.selected)
  }

  /** The store context `createGraphEdges` works in. `isValidConnection`
      receives the edge and its two nodes (the JavaScript also passes the
      store's node and edge lists, which the closure can see here). */
  datatype EdgeContext = EdgeContext(
    isValidConnection: Option<(Edge, Node, Node) -> bool>,
    findNode: string -> Option<Node>,
    findEdge: string -> Option<Edge>,
    defaultEdgeOptions: Option<EdgeDefaults>,
    edges: seq<Edge>)

  /** One entry of `nextEdges`: the edge it adds, if any, and the errors
      it reports. */
  function EdgeStep(edgeOrConnection: EdgeParams, ctx: EdgeContext): (r: (Option<GraphEdge>, seq<Error>))
    ensures r.0.Some? ==>
      && ctx.findNode(r.0.value.edge.source) == Some(r.0.value.sourceNode)
      && ctx.findNode(r.0.value.edge.target) == Some(r.0.value.targetNode)
      && (ctx.isValidConnection.Some? ==>
           ctx.isValidConnection.value(ConnectionEdge(edgeOrConnection, ctx), r.0.value.sourceNode, r.0.value.targetNode))
      && r.1 == []
    ensures forall k :: 0 <= k < |r.1| ==> r.1[k].code != EdgeSourceMissing && r.1[k].code != EdgeTargetMissing
  {
    var added := AddEdgeToStore(Some(edgeOrConnection), ctx.edges, ctx.defaultEdgeOptions);
    var edge := if ParamsAreEdge(edgeOrConnection) then Some(EdgeOfParams(edgeOrConnection)) else added.edge;
    var addErrors := if ParamsAreEdge(edgeOrConnection) || added.error.None? then [] else [added.error.value];
    if edge.None? then (None, addErrors)
    else
      var e := edge.value;
      var sourceNode := ctx.findNode(e.source);
      var targetNode := ctx.findNode(e.target);
      if sourceNode.None? || targetNode.None? then
        (None, [Error(EdgeSourceTargetMissing, Some(e.id), [e.source, e.target])])
      else if ctx.isValidConnection.Some? && !ctx.isValidConnection.value(e, sourceNode.value, targetNode.value) then
        (None, [Error(EdgeInvalid, Some(e.id), [])])
      else
        (Some(GraphEdge(ParseStoreEdge(e, ctx.findEdge(e.id), ctx.defaultEdgeOptions),
                        sourceNode.value, targetNode.value)), [])
  }

  /** The edge record an entry of `nextEdges` stands for before it is
      merged with an existing edge (meaningful when the entry yields one). */
  function ConnectionEdge(edgeOrConnection: EdgeParams, ctx: EdgeContext): Edge {
    if ParamsAreEdge(edgeOrConnection) then EdgeOfParams(edgeOrConnection)
    else AddEdgeToStore(Some(edgeOrConnection), ctx.edges, ctx.defaultEdgeOptions).edge.GetOr(
           Edge("", None, "", "", None, None, None))
  }

  /** The valid edges and the errors for a prefix of `nextEdges`. */
  function CreateGraphEdgesResult(nextEdges: seq<EdgeParams>, ctx: EdgeContext): (r: (seq<GraphEdge>, seq<Error>))
    ensures |r.0| <= |nextEdges|
    decreases |nextEdges|
  {
    if nextEdges == [] then ([], [])
    else
      var prev := CreateGraphEdgesResult(nextEdges[..|nextEdges| - 1], ctx);
      var step := EdgeStep(nextEdges[|nextEdges| - 1], ctx);
      (prev.0 + (if step.0.Some? then [step.0.value] else []), prev.1 + step.1)
  }

  /** The body of `createGraphEdges`'s loop for one entry; each early
      `return` is a `continue` of the loop. */
  method ProcessEdge(edgeOrConnection: EdgeParams, ctx: EdgeContext) returns (valid: Option<GraphEdge>, errors: seq<Error>)
    ensures (valid, errors) == EdgeStep(edgeOrConnection, ctx)
  {
    valid, errors := None, [];
    var edge: Option<Edge>;
    if ParamsAreEdge(edgeOrConnection) {
      edge := Some(EdgeOfParams(edgeOrConnection));
    } else {
      var added := AddEdgeToStore(Some(edgeOrConnection), ctx.edges, ctx.defaultEdgeOptions);
      if added.error.Some? {
        errors := [added.error.value];
      }
      edge := added.edge;
    }
    if edge.None? {
      return;
    }
    var e := edge.value;
    var sourceNode := ctx.findNode(e.source);
    var targetNode := ctx.findNode(e.target);
    assert errors == [];
    if sourceNode.None? || targetNode.None? {
      errors := errors + [Error(EdgeSourceTargetMissing, Some(e.id), [e.source, e.target])];
      assert EdgeStep(edgeOrConnection, ctx).0 == None;
      assert EdgeStep(edgeOrConnection, ctx).1 == errors;
      return;
    }
    if ctx.isValidConnection.Some? {
      var isValid := ctx.isValidConnection.value(e, sourceNode.value, targetNode.value);
      if !isValid {
        errors := errors + [Error(EdgeInvalid, Some(e.id), [])];
        assert EdgeStep(edgeOrConnection, ctx).1 == errors;
        return;
      }
    }
    var existingEdge := ctx.findEdge(e.id);
    valid := Some(GraphEdge(ParseStoreEdge(e, existingEdge, ctx.defaultEdgeOptions), sourceNode.value, targetNode.value));
  }

  /** `createGraphEdges(nextEdges, isValidConnection, findNode, findEdge,
      onError, defaultEdgeOptions, nodes, edges)`. */
  method CreateGraphEdges(nextEdges: seq<EdgeParams>, ctx: EdgeContext) returns (validEdges: seq<GraphEdge>, errors: seq<Error>)
    ensures (validEdges, errors) == CreateGraphEdgesResult(nextEdges, ctx)
  {
    validEdges, errors := [], [];
    var i := 0;
    while i < |nextEdges|
      invariant 0 <= i <= |nextEdges|
      invariant (validEdges, errors) == CreateGraphEdgesResult(nextEdges[..i], ctx)
    {
      assert nextEdges[..i + 1][..i] == nextEdges[..i];
      var edge, errs := ProcessEdge(nextEdges[i], ctx);
      validEdges := validEdges + (if edge.Some? then [edge.value] else []);
      errors := errors + errs;
      i := i + 1;
    }
    assert nextEdges[..i] == nextEdges;
  }

  /** The edge comes from one of the entries. */
  ghost predicate FromEntry(nextEdges: seq<EdgeParams>, ctx: EdgeContext, g: GraphEdge) {
    exists j :: 0 <= j < |nextEdges| && EdgeStep(nextEdges[j], ctx).0 == Some(g)
  }

  /** Every edge `createGraphEdges` returns is what some entry yields, so
      it joins two nodes the store finds, carries them, and passed
      `isValidConnection` if there is one; the separate source-missing and
      target-missing errors are never reported, because the combined check
      comes first. */
  lemma {:induction false} CreateGraphEdgesValid(nextEdges: seq<EdgeParams>, ctx: EdgeContext)
    ensures var valid, errors := CreateGraphEdgesResult(nextEdges, ctx).0, CreateGraphEdgesResult(nextEdges, ctx).1;
      && (forall k :: 0 <= k < |valid| ==>
            && FromEntry(nextEdges, ctx, valid[k])
            && ctx.findNode(valid[k].edge.source) == Some(valid[k].sourceNode)
            && ctx.findNode(valid[k].edge.target) == Some(valid[k].targetNode))
      && (forall k :: 0 <= k < |errors| ==> errors[k].code != EdgeSourceMissing && errors[k].code != EdgeTargetMissing)
    decreases |nextEdges|
  {
    if nextEdges != [] {
      var init := nextEdges[..|nextEdges| - 1];
      var last := nextEdges[|nextEdges| - 1];
      CreateGraphEdgesValid(init, ctx);
      assert forall k :: 0 <= k < |CreateGraphEdgesResult(init, ctx).0| ==> FromEntry(init, ctx, CreateGraphEdgesResult(init, ctx).0[k]);
      assert forall k :: 0 <= k < |CreateGraphEdgesResult(init, ctx).1| ==>
        CreateGraphEdgesResult(init, ctx).1[k].code != EdgeSourceMissing && CreateGraphEdgesResult(init, ctx).1[k].code != EdgeTargetMissing;
      var valid0, errors0 := CreateGraphEdgesResult(init, ctx).0, CreateGraphEdgesResult(init, ctx).1;
      var edge, errs := EdgeStep(last, ctx).0, EdgeStep(last, ctx).1;
      var valid, errors := CreateGraphEdgesResult(nextEdges, ctx).0, CreateGraphEdgesResult(nextEdges, ctx).1;
      forall k | 0 <= k < |valid|
        ensures FromEntry(nextEdges, ctx, valid[k])
      {
        if k < |valid0| {
          assert FromEntry(init, ctx, valid0[k]);
          var j :| 0 <= j < |init| && EdgeStep(init[j], ctx).0 == Some(valid0[k]);
          assert nextEdges[j] == init[j];
        } else {
          assert EdgeStep(nextEdges[|nextEdges| - 1], ctx).0 == Some(valid[k]);
        }
      }
      forall k | 0 <= k < |errors|
        ensures errors[k].code != EdgeSourceMissing && errors[k].code != EdgeTargetMissing
      {
        assert errors == errors0 + errs;
        if k >= |errors0| {
          assert errors[k] == errs[k - |errors0|];
          assert errs[k - |errors0|].code != EdgeSourceMissing && errs[k - |errors0|].code != EdgeTargetMissing;
        } else {
          assert errors[k] == errors0[k];
          assert errors0[k].code != EdgeSourceMissing && errors0[k].code != EdgeTargetMissing;
        }
      }
    }
  }

  /** Every entry that yields an edge has that edge among the results. */
  lemma {:induction false} CreateGraphEdgesComplete(nextEdges: seq<EdgeParams>, ctx: EdgeContext)
    ensures forall j :: 0 <= j < |nextEdges| && EdgeStep(nextEdges[j], ctx).0.Some? ==>
      EdgeStep(nextEdges[j], ctx).0.value in CreateGraphEdgesResult(nextEdges, ctx).0
    decreases |nextEdges|
  {
    if nextEdges != [] {
      var init := nextEdges[..|nextEdges| - 1];
      CreateGraphEdgesComplete(init, ctx);
      forall j | 0 <= j < |nextEdges| && EdgeStep(nextEdges[j], ctx).0.Some?
        ensures EdgeStep(nextEdges[j], ctx).0.value in CreateGraphEdgesResult(nextEdges, ctx).0
      {
        if j < |init| {
          assert init[j] == nextEdges[j];
        }
      }
    }
  }

  /** The entries are processed independently and in order: the result
      for two lists one after the other is the two results one after the
      other. */
  lemma {:induction false} CreateGraphEdgesConcat(a: seq<EdgeParams>, b: seq<EdgeParams>, ctx: EdgeContext)
    ensures var ra, rb := CreateGraphEdgesResult(a, ctx), CreateGraphEdgesResult(b, ctx);
      CreateGraphEdgesResult(a + b, ctx) == (ra.0 + rb.0, ra.1 + rb.1)
    decreases |b|
  {
    if b == [] {
      var ra := CreateGraphEdgesResult(a, ctx);
      assert a + b == a && ra.0 + [] == ra.0 && ra.1 + [] == ra.1;
    } else {
      var init := b[..|b| - 1];
      CreateGraphEdgesConcat(a, init, ctx);
      assert (a + b)[..|a + b| - 1] == a + init;
      assert (a + b)[|a + b| - 1] == b[|b| - 1];
      var ra, ri := CreateGraphEdgesResult(a, ctx), CreateGraphEdgesResult(init, ctx);
      var step := EdgeStep(b[|b| - 1], ctx);
      var one := if step.0.Some? then [step.0.value] else [];
      assert CreateGraphEdgesResult(b, ctx) == (ri.0 + one, ri.1 + step.1);
      var rai := CreateGraphEdgesResult(a + init, ctx);
      assert CreateGraphEdgesResult(a + b, ctx) == (rai.0 + one, rai.1 + step.1);
      assert (ra.0 + ri.0) + one == ra.0 + (ri.0 + one);
      assert (ra.1 + ri.1) + step.1 == ra.1 + (ri.1 + step.1);
    }
  }
}
