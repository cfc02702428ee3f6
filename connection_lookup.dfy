/** The connection lookup: for each node, each node and handle type, and
    each handle, the connections of the edges that end there, keyed by the
    connection key of the far end. Also the comparisons the store uses to
    see whether a lookup changed. */
module ConnectionLookup {
  import opened Common
  import opened Elements

  /** `{ edgeId, source, target, sourceHandle, targetHandle }`; a missing
      handle is `null`. */
  datatype HandleConnection = HandleConnection(edgeId: string, source: string, target: string,
                                               sourceHandle: Option<string>, targetHandle: Option<string>)

  /** A JavaScript `Map` from connection keys to connections: the keys in
      insertion order and the entries. */
  datatype ConnectionMap = ConnectionMap(keys: seq<string>, values: map<string, HandleConnection>)

  ghost predicate ValidMap(m: ConnectionMap) {
    Distinct(m.keys) && forall k :: k in m.values <==> k in m.keys
  }

  const EmptyMap := ConnectionMap([], map[])

  /** `m.set(key, value)`: a new key goes last, an existing key keeps its
      place. */
  function MapSet(m: ConnectionMap, key: string, value: HandleConnection): (r: ConnectionMap)
    ensures ValidMap(m) ==> ValidMap(r)
    ensures r.values == m.values[key := value]
    ensures key in m.values ==> r.keys == m.keys
  {
    if key in m.values then m.(values := m.values[key := value])
    else ConnectionMap(m.keys + [key], m.values[key := value])
  }

  /** `String(handle)` for a handle defaulted to `null`. */
  function HandleText(h: Option<string>): string {
    if h.Some? then h.value else "null"
  }

  function EdgeConnection(e: Edge): HandleConnection {
    HandleConnection(e.id, e.source, e.target, e.sourceHandle, e.targetHandle)
  }

  /** `${source}-${sourceHandle}--${target}-${targetHandle}`. */
  function SourceKey(c: HandleConnection): string {
    c.source + "-" + HandleText(c.sourceHandle) + "--" + c.target + "-" + HandleText(c.targetHandle)
  }

  /** The same with the two ends swapped. */
  function TargetKey(c: HandleConnection): string {
    c.target + "-" + HandleText(c.targetHandle) + "--" + c.source + "-" + HandleText(c.sourceHandle)
  }

  /** The lookup keys a connection end is stored under: `nodeId`,
      `nodeId-type` and, for a truthy handle, `nodeId-type-handleId`. */
  function Placements(handleType: string, nodeId: string, handleId: Option<string>): (r: seq<string>)
    ensures |r| == (if Truthy(handleId) then 3 else 2)
    ensures r[0] == nodeId && r[1] == nodeId + "-" + handleType
    ensures Truthy(handleId) ==> r[2] == nodeId + "-" + handleType + "-" + handleId.value
  {
    [nodeId, nodeId + "-" + handleType] +
    (if Truthy(handleId) then [nodeId + "-" + handleType + "-" + handleId.value] else [])
  }

  type Table = map<string, ConnectionMap>

  ghost predicate ValidTable(t: Table) {
    forall k :: k in t ==> ValidMap(t[k])
  }

  /** `lookup.set(key, (lookup.get(key) || new Map()).set(connectionKey,
      connection))`. */
  function Insert(t: Table, key: string, connectionKey: string, connection: HandleConnection): Table {
    var m := if key in t then t[key] else EmptyMap;
    t[key := MapSet(m, connectionKey, connection)]
  }

  /** The `set` calls for several lookup keys, in order. */
  function InsertAll(t: Table, keys: seq<string>, connectionKey: string, connection: HandleConnection): Table
    decreases |keys|
  {
    if keys == [] then t
    else Insert(InsertAll(t, keys[..|keys| - 1], connectionKey, connection), keys[|keys| - 1], connectionKey, connection)
  }

  /** Inserting under some keys adds the connection under each, keeps the
      maps well formed, and leaves every other entry as it was. */
  lemma {:induction false} InsertAllFacts(t: Table, keys: seq<string>, connectionKey: string, connection: HandleConnection)
    ensures var r := InsertAll(t, keys, connectionKey, connection);
      && (ValidTable(t) ==> ValidTable(r))
      && (forall k :: k in r <==> k in t || k in keys)
      && (forall k :: k in keys ==> connectionKey in r[k].values && r[k].values[connectionKey] == connection)
      && (forall k, ck :: k in r && ck in r[k].values ==>
            (k in keys && ck == connectionKey) ||
            (k in t && ck in t[k].values && r[k].values[ck] == t[k].values[ck]))
      && (forall k, ck :: k in t && ck in t[k].values ==> k in r && ck in r[k].values)
  {
    if ValidTable(t) {
      InsertAllValid(t, keys, connectionKey, connection);
    }
    InsertAllKeys(t, keys, connectionKey, connection);
    InsertAllAdds(t, keys, connectionKey, connection);
    InsertAllOnly(t, keys, connectionKey, connection);
    assert OnlyAdded(t, InsertAll(t, keys, connectionKey, connection), keys, connectionKey);
    InsertAllKeeps(t, keys, connectionKey, connection);
  }

  /** Inserting keeps every map of the table well formed. */
  lemma {:induction false} InsertAllValid(t: Table, keys: seq<string>, connectionKey: string, connection: HandleConnection)
    requires ValidTable(t)
    ensures ValidTable(InsertAll(t, keys, connectionKey, connection))
    decreases |keys|
  {
    if keys != [] {
      InsertAllValid(t, keys[..|keys| - 1], connectionKey, connection);
    }
  }

  /** Inserting adds exactly the given keys to the table. */
  lemma {:induction false} InsertAllKeys(t: Table, keys: seq<string>, connectionKey: string, connection: HandleConnection)
    ensures forall k :: k in InsertAll(t, keys, connectionKey, connection) <==> k in t || k in keys
    decreases |keys|
  {
    if keys != [] {
      var init := keys[..|keys| - 1];
      InsertAllKeys(t, init, connectionKey, connection);
      assert forall k :: k in keys <==> k in init || k == keys[|keys| - 1];
    }
  }

  /** Inserting puts the connection under each given key. */
  lemma {:induction false} InsertAllAdds(t: Table, keys: seq<string>, connectionKey: string, connection: HandleConnection)
    ensures var r := InsertAll(t, keys, connectionKey, connection);
      forall k :: k in keys ==> k in r && connectionKey in r[k].values && r[k].values[connectionKey] == connection
    decreases |keys|
  {
    if keys != [] {
      var init := keys[..|keys| - 1];
      InsertAllAdds(t, init, connectionKey, connection);
      assert forall k :: k in keys <==> k in init || k == keys[|keys| - 1];
    }
  }

  /** Every entry of `r` is either the connection under one of `keys` or an
      entry of `t` left as it was. */
  ghost predicate OnlyAdded(t: Table, r: Table, keys: seq<string>, connectionKey: string) {
    forall k, ck :: k in r && ck in r[k].values ==>
      (k in keys && ck == connectionKey) ||
      (k in t && ck in t[k].values && r[k].values[ck] == t[k].values[ck])
  }

  /** Inserting adds entries only under the given keys. */
  lemma {:induction false} InsertAllOnly(t: Table, keys: seq<string>, connectionKey: string, connection: HandleConnection)
    ensures OnlyAdded(t, InsertAll(t, keys, connectionKey, connection), keys, connectionKey)
    decreases |keys|
  {
    if keys != [] {
      var init := keys[..|keys| - 1];
      InsertAllOnly(t, init, connectionKey, connection);
      var prev := InsertAll(t, init, connectionKey, connection);
      var key := keys[|keys| - 1];
      var r := Insert(prev, key, connectionKey, connection);
      assert OnlyAdded(t, prev, init, connectionKey);
      assert forall k :: k in init ==> k in keys;
      forall k, ck | k in r && ck in r[k].values
        ensures (k in keys && ck == connectionKey) ||
                (k in t && ck in t[k].values && r[k].values[ck] == t[k].values[ck])
      {
        if k == key {
          var m := if key in prev then prev[key] else EmptyMap;
          assert r[k] == MapSet(m, connectionKey, connection);
          if ck != connectionKey {
            assert ck in m.values && r[k].values[ck] == m.values[ck];
          }
        } else {
          assert r[k] == prev[k];
        }
      }
      assert OnlyAdded(t, r, keys, connectionKey);
    }
  }

  /** Inserting loses no entry of the table. */
  lemma {:induction false} InsertAllKeeps(t: Table, keys: seq<string>, connectionKey: string, connection: HandleConnection)
    ensures var r := InsertAll(t, keys, connectionKey, connection);
      forall k, ck :: k in t && ck in t[k].values ==> k in r && ck in r[k].values
    decreases |keys|
  {
    if keys != [] {
      var init := keys[..|keys| - 1];
      InsertAllKeeps(t, init, connectionKey, connection);
      var prev := InsertAll(t, init, connectionKey, connection);
      var key := keys[|keys| - 1];
      forall k, ck | k in t && ck in t[k].values
        ensures k in Insert(prev, key, connectionKey, connection)
        ensures ck in Insert(prev, key, connectionKey, connection)[k].values
      {
        if k == key {
          assert Insert(prev, key, connectionKey, connection)[k] == MapSet(prev[k], connectionKey, connection);
        }
      }
    }
  }

  /** `addConnectionToLookup(type, connection, connectionKey, lookup,
      nodeId, handleId)`, on the table. */
  function AddToLookup(t: Table, handleType: string, connection: HandleConnection, connectionKey: string,
                       nodeId: string, handleId: Option<string>): Table {
    InsertAll(t, Placements(handleType, nodeId, handleId), connectionKey, connection)
  }

  /** Where an edge's connection lands: the source end under the target
      key, the target end under the source key. */
  predicate Placed(e: Edge, key: string, connectionKey: string) {
    var c := EdgeConnection(e);
    (key in Placements("source", c.source, c.sourceHandle) && connectionKey == TargetKey(c)) ||
    (key in Placements("target", c.target, c.targetHandle) && connectionKey == SourceKey(c))
  }

  /** Both calls of one iteration of `updateConnectionLookup`. */
  function AddEdge(t: Table, e: Edge): Table {
    var c := EdgeConnection(e);
    AddToLookup(AddToLookup(t, "source", c, TargetKey(c), c.source, c.sourceHandle),
                "target", c, SourceKey(c), c.target, c.targetHandle)
  }

  /** One edge adds its connection at each of its places and changes
      nothing else. */
  lemma AddEdgeFacts(t: Table, e: Edge)
    ensures var r := AddEdge(t, e);
      && (ValidTable(t) ==> ValidTable(r))
      && (forall k, ck :: Placed(e, k, ck) ==> k in r && ck in r[k].values)
      && (forall k, ck :: k in t && ck in t[k].values ==> k in r && ck in r[k].values)
      && (forall k, ck :: k in r && ck in r[k].values ==>
            (Placed(e, k, ck) && r[k].values[ck] == EdgeConnection(e)) ||
            (k in t && ck in t[k].values && r[k].values[ck] == t[k].values[ck]))
  {
    var c := EdgeConnection(e);
    var ps := Placements("source", c.source, c.sourceHandle);
    var pt := Placements("target", c.target, c.targetHandle);
    var t1 := AddToLookup(t, "source", c, TargetKey(c), c.source, c.sourceHandle);
    var r := AddToLookup(t1, "target", c, SourceKey(c), c.target, c.targetHandle);
    InsertAllFacts(t, ps, TargetKey(c), c);
    InsertAllFacts(t1, pt, SourceKey(c), c);
    forall k, ck | Placed(e, k, ck)
      ensures k in r && ck in r[k].values
    {
      if k in pt && ck == SourceKey(c) {
      } else {
        assert k in t1 && ck in t1[k].values;
      }
    }
    forall k, ck | k in r && ck in r[k].values
      ensures (Placed(e, k, ck) && r[k].values[ck] == EdgeConnection(e)) ||
              (k in t && ck in t[k].values && r[k].values[ck] == t[k].values[ck])
    {
      if k in pt && ck == SourceKey(c) {
        assert Placed(e, k, ck);
      } else {
        assert k in t1 && ck in t1[k].values && r[k].values[ck] == t1[k].values[ck];
        if k in ps && ck == TargetKey(c) {
          assert Placed(e, k, ck);
        }
      }
    }
  }

  /** The table `updateConnectionLookup` builds from `edges`. */
  function BuildLookup(edges: seq<Edge>): Table
    decreases |edges|
  {
    if edges == [] then map[] else AddEdge(BuildLookup(edges[..|edges| - 1]), edges[|edges| - 1])
  }

  /** Every map in the lookup is a well-formed `Map`. */
  lemma {:induction false} BuildLookupValid(edges: seq<Edge>)
    ensures ValidTable(BuildLookup(edges))
    decreases |edges|
  {
    if edges != [] {
      BuildLookupValid(edges[..|edges| - 1]);
      AddEdgeFacts(BuildLookup(edges[..|edges| - 1]), edges[|edges| - 1]);
    }
  }

  /** The lookup table the store keeps; Vue's reactive `Map` of `Map`s. */
  class Lookup {
    var table: Table

    constructor()
      ensures table == map[]
    {
      table := map[];
    }

    /** `connectionLookup.clear()`. */
    method Clear()
      modifies this
      ensures table == map[]
    {
      table := map[];
    }

    method AddConnectionToLookup(handleType: string, connection: HandleConnection, connectionKey: string,
                                 nodeId: string, handleId: Option<string>)
      modifies this
      ensures table == AddToLookup(old(table), handleType, connection, connectionKey, nodeId, handleId)
    {
      ghost var ps := Placements(handleType, nodeId, handleId);
      assert ps[..0] == [] && ps[..1] == [ps[0]] && ps[..2][..1] == ps[..1];
      var key := nodeId;
      var nodeMap := if key in table then table[key] else EmptyMap;
      table := table[key := MapSet(nodeMap, connectionKey, connection)];
      assert table == InsertAll(old(table), ps[..1], connectionKey, connection);
      key := nodeId + "-" + handleType;
      var typeMap := if key in table then table[key] else EmptyMap;
      table := table[key := MapSet(typeMap, connectionKey, connection)];
      assert table == InsertAll(old(table), ps[..2], connectionKey, connection);
      if Truthy(handleId) {
        key := nodeId + "-" + handleType + "-" + handleId.value;
        var handleMap := if key in table then table[key] else EmptyMap;
        table := table[key := MapSet(handleMap, connectionKey, connection)];
        assert ps[..3][..2] == ps[..2];
        assert table == InsertAll(old(table), ps[..3], connectionKey, connection);
        assert ps[..3] == ps;
      } else {
        assert ps[..2] == ps;
      }
    }

    /** `updateConnectionLookup(connectionLookup, edgeLookup, edges)`: the
        lookup is cleared first, so what it holds afterwards depends on
        the edges alone. */
    method UpdateConnectionLookup(edges: seq<Edge>)
      modifies this
      ensures table == BuildLookup(edges)
    {
      Clear();
      for i := 0 to |edges|
        invariant table == BuildLookup(edges[..i])
      {
        assert edges[..i + 1][..i] == edges[..i];
        var c := EdgeConnection(edges[i]);
        AddConnectionToLookup("source", c, TargetKey(c), c.source, c.sourceHandle);
        AddConnectionToLookup("target", c, SourceKey(c), c.target, c.targetHandle);
      }
      assert edges[..|edges|] == edges;
    }
  }

  /** Every end of every edge is in the lookup, under each of its keys. */
  lemma {:induction false} BuildLookupComplete(edges: seq<Edge>, i: nat, key: string, connectionKey: string)
    requires i < |edges| && Placed(edges[i], key, connectionKey)
    ensures key in BuildLookup(edges) && connectionKey in BuildLookup(edges)[key].values
    decreases |edges|
  {
    var init := edges[..|edges| - 1];
    var t := BuildLookup(init);
    AddEdgeFacts(t, edges[|edges| - 1]);
    if i < |edges| - 1 {
      assert init[i] == edges[i];
      BuildLookupComplete(init, i, key, connectionKey);
      assert key in t && connectionKey in t[key].values;
    }
  }

  /** Everything in the lookup is the connection of an edge stored at its
      own place. */
  lemma {:induction false} BuildLookupSound(edges: seq<Edge>, key: string, connectionKey: string)
    requires key in BuildLookup(edges) && connectionKey in BuildLookup(edges)[key].values
    ensures exists i ::
      && 0 <= i < |edges| && Placed(edges[i], key, connectionKey)
      && BuildLookup(edges)[key].values[connectionKey] == EdgeConnection(edges[i])
    decreases |edges|
  {
    var init := edges[..|edges| - 1];
    var last := |edges| - 1;
    var t := BuildLookup(edges);
    AddEdgeFacts(BuildLookup(init), edges[last]);
    if Placed(edges[last], key, connectionKey) && t[key].values[connectionKey] == EdgeConnection(edges[last]) {
    } else {
      BuildLookupSound(init, key, connectionKey);
      var i :| 0 <= i < |init| && Placed(init[i], key, connectionKey)
        && BuildLookup(init)[key].values[connectionKey] == EdgeConnection(init[i]);
      assert edges[i] == init[i];
    }
  }

  /** `handleConnectionChange`'s diff over some of `a`'s keys in order:
      the values whose keys `b` lacks. */
  function DiffKeys(keys: seq<string>, values: map<string, HandleConnection>, b: ConnectionMap): seq<HandleConnection>
    requires forall k :: k in keys ==> k in values
    decreases |keys|
  {
    if keys == [] then []
    else
      var k := keys[|keys| - 1];
      DiffKeys(keys[..|keys| - 1], values, b) + (if k !in b.values then [values[k]] else [])
  }

  function Diff(a: ConnectionMap, b: ConnectionMap): seq<HandleConnection>
    requires ValidMap(a)
  {
    DiffKeys(a.keys, a.values, b)
  }

  lemma {:induction false} DiffKeysMembership(keys: seq<string>, values: map<string, HandleConnection>,
                                              b: ConnectionMap, x: HandleConnection)
    requires forall k :: k in keys ==> k in values
    ensures x in DiffKeys(keys, values, b) <==> exists k :: k in keys && k !in b.values && values[k] == x
    decreases |keys|
  {
    if keys != [] {
      var init := keys[..|keys| - 1];
      var last := keys[|keys| - 1];
      DiffKeysMembership(init, values, b, x);
      assert forall k :: k in keys <==> k in init || k == last;
    }
  }

  /** The diff holds exactly the connections stored in `a` under a key
      `b` does not have. */
  lemma DiffMembership(a: ConnectionMap, b: ConnectionMap, x: HandleConnection)
    requires ValidMap(a)
    ensures x in Diff(a, b) <==> exists k :: k in a.values && k !in b.values && a.values[k] == x
  {
    DiffKeysMembership(a.keys, a.values, b, x);
  }

  /** `handleConnectionChange(a, b, cb)`: the argument of the one call of
      `cb`, or `None` when there is no `cb` or nothing to report. */
  method HandleConnectionChange(a: ConnectionMap, b: ConnectionMap, hasCallback: bool) returns (call: Option<seq<HandleConnection>>)
    requires ValidMap(a)
    ensures call == if !hasCallback || Diff(a, b) == [] then None else Some(Diff(a, b))
  {
    if !hasCallback {
      return None;
    }
    var diff: seq<HandleConnection> := [];
    for i := 0 to |a.keys|
      invariant diff == DiffKeys(a.keys[..i], a.values, b)
    {
      assert a.keys[..i + 1][..i] == a.keys[..i];
      var key := a.keys[i];
      if key !in b.values {
        diff := diff + [a.values[key]];
      }
    }
    assert a.keys[..|a.keys|] == a.keys;
    if |diff| > 0 {
      call := Some(diff);
    } else {
      call := None;
    }
  }

  /** The key set of a map, which is what the comparisons below read. */
  function KeySet(m: ConnectionMap): set<string> {
    m.values.Keys
  }

  /** What `areConnectionMapsEqual` computes: both missing, or both present
      with as many keys and every key of `a` in `b`. */
  predicate SameKeys(a: Option<ConnectionMap>, b: Option<ConnectionMap>) {
    (a.None? && b.None?) ||
    (a.Some? && b.Some? && |a.value.keys| == |b.value.keys| &&
     forall i :: 0 <= i < |a.value.keys| ==> a.value.keys[i] in b.value.values)
  }

  method AreConnectionMapsEqual(a: Option<ConnectionMap>, b: Option<ConnectionMap>) returns (r: bool)
    ensures r == SameKeys(a, b)
  {
    if a.None? && b.None? {
      return true;
    }
    if a.None? || b.None? || |a.value.keys| != |b.value.keys| {
      return false;
    }
    if |a.value.keys| == 0 && |b.value.keys| == 0 {
      return true;
    }
    for i := 0 to |a.value.keys|
      invariant forall j :: 0 <= j < i ==> a.value.keys[j] in b.value.values
    {
      if a.value.keys[i] !in b.value.values {
        return false;
      }
    }
    return true;
  }

  /** `areConnectionMapsEqual` compares key sets only: the connections
      stored may differ. */
  lemma ConnectionMapsEqualKeys(a: Option<ConnectionMap>, b: Option<ConnectionMap>)
    requires a.Some? ==> ValidMap(a.value)
    requires b.Some? ==> ValidMap(b.value)
    ensures SameKeys(a, b) <==> (a.None? && b.None?) || (a.Some? && b.Some? && KeySet(a.value) == KeySet(b.value))
  {
    if a.Some? && b.Some? {
      var ka := a.value.keys;
      var kb := b.value.keys;
      DistinctCardinality(ka);
      DistinctCardinality(kb);
      assert KeySet(a.value) == set x | x in ka;
      assert KeySet(b.value) == set x | x in kb;
      if SameKeys(a, b) {
        assert (set x | x in ka) <= (set x | x in kb);
        SubsetSameSize(set x | x in ka, set x | x in kb);
      }
    }
  }

  /** What `areSetsEqual` computes on two insertion-ordered sets. */
  predicate SameItems<T(==)>(a: seq<T>, b: seq<T>) {
    |a| == |b| && forall i :: 0 <= i < |a| ==> a[i] in b
  }

  method AreSetsEqual<T(==)>(a: seq<T>, b: seq<T>) returns (r: bool)
    ensures r == SameItems(a, b)
  {
    if |a| != |b| {
      return false;
    }
    for i := 0 to |a|
      invariant forall j :: 0 <= j < i ==> a[j] in b
    {
      if a[i] !in b {
        return false;
      }
    }
    return true;
  }

  /** `areSetsEqual` is set equality. */
  lemma AreSetsEqualIsEquality<T>(a: seq<T>, b: seq<T>)
    requires Distinct(a) && Distinct(b)
    ensures SameItems(a, b) <==> (set x | x in a) == (set x | x in b)
  {
    DistinctCardinality(a);
    DistinctCardinality(b);
    var sa, sb := set x | x in a, set x | x in b;
    if SameItems(a, b) {
      assert sa <= sb;
      SubsetSameSize(sa, sb);
    }
    if sa == sb {
      forall i | 0 <= i < |a|
        ensures a[i] in b
      {
        assert a[i] in sa;
      }
    }
  }
}
