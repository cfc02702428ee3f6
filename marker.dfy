/** `getMarkerId`: the id of an edge marker. A marker object's entries
    are sorted by key, so the id does not depend on the order in which
    the object's properties were written. */
module Marker {
  import opened Common

  /** `a <= b` character by character, a proper prefix first. Characters
      are compared by code point; `Array.prototype.sort` compares UTF-16
      code units, which gives the same order for keys without characters
      above U+FFFF. */
  predicate StrLe(a: string, b: string)
    decreases |a|
  {
    a == [] || (b != [] && (a[0] < b[0] || (a[0] == b[0] && StrLe(a[1..], b[1..]))))
  }

  lemma {:induction false} StrLeTotal(a: string, b: string)
    ensures StrLe(a, b) || StrLe(b, a)
    decreases |a|
  {
    if a != [] && b != [] && a[0] == b[0] {
      StrLeTotal(a[1..], b[1..]);
    }
  }

  lemma {:induction false} StrLeReflexive(a: string)
    ensures StrLe(a, a)
    decreases |a|
  {
    if a != [] {
      StrLeReflexive(a[1..]);
    }
  }

  lemma {:induction false} StrLeAntisymmetric(a: string, b: string)
    requires StrLe(a, b) && StrLe(b, a)
    ensures a == b
    decreases |a|
  {
    if a != [] {
      StrLeAntisymmetric(a[1..], b[1..]);
      assert a == [a[0]] + a[1..] && b == [b[0]] + b[1..];
    }
  }

  lemma {:induction false} StrLeTransitive(a: string, b: string, c: string)
    requires StrLe(a, b) && StrLe(b, c)
    ensures StrLe(a, c)
    decreases |a|
  {
    if a != [] && a[0] == b[0] && b[0] == c[0] {
      StrLeTransitive(a[1..], b[1..], c[1..]);
    }
  }

  predicate Sorted(s: seq<string>) {
    forall i, j :: 0 <= i < j < |s| ==> StrLe(s[i], s[j])
  }

  /** Inserts `x` before the first element it does not exceed. */
  function Insert(x: string, s: seq<string>): (r: seq<string>)
    ensures multiset(r) == multiset(s) + multiset{x}
    ensures |r| == |s| + 1
    decreases |s|
  {
    if s == [] then [x]
    else if StrLe(x, s[0]) then [x] + s
    else
      assert s == [s[0]] + s[1..];
      [s[0]] + Insert(x, s[1..])
  }

  /** A head that does not exceed any element of a sorted tail. */
  lemma ConsSorted(h: string, t: seq<string>)
    requires Sorted(t)
    requires forall k :: 0 <= k < |t| ==> StrLe(h, t[k])
    ensures Sorted([h] + t)
  {
    var r := [h] + t;
    forall i, j | 0 <= i < j < |r|
      ensures StrLe(r[i], r[j])
    {
      if i > 0 {
        assert r[i] == t[i - 1] && r[j] == t[j - 1];
      } else {
        assert r[j] == t[j - 1];
      }
    }
  }

  lemma {:induction false} InsertSorted(x: string, s: seq<string>)
    requires Sorted(s)
    ensures Sorted(Insert(x, s))
    decreases |s|
  {
    if s == [] {
    } else if StrLe(x, s[0]) {
      forall k | 0 <= k < |s|
        ensures StrLe(x, s[k])
      {
        if k > 0 {
          StrLeTransitive(x, s[0], s[k]);
        }
      }
      ConsSorted(x, s);
    } else {
      StrLeTotal(x, s[0]);
      InsertSorted(x, s[1..]);
      var r := Insert(x, s[1..]);
      forall k | 0 <= k < |r|
        ensures StrLe(s[0], r[k])
      {
        assert r[k] in multiset(r);
        assert r[k] in multiset(s[1..]) || r[k] == x;
        if r[k] != x {
          var m :| 0 <= m < |s[1..]| && s[1..][m] == r[k];
          assert s[m + 1] == r[k];
        }
      }
      ConsSorted(s[0], r);
    }
  }

  /** `.sort()` on an array of strings, as insertion sort. */
  function Sort(s: seq<string>): (r: seq<string>)
    ensures multiset(r) == multiset(s)
    ensures Sorted(r)
    decreases |s|
  {
    if s == [] then []
    else
      assert s == [s[0]] + s[1..];
      InsertSorted(s[0], Sort(s[1..]));
      Insert(s[0], Sort(s[1..]))
  }

  /** The head of a sorted sequence does not exceed any of its elements. */
  lemma SortedHead(a: seq<string>, x: string)
    requires Sorted(a) && x in a
    ensures StrLe(a[0], x)
  {
    var i :| 0 <= i < |a| && a[i] == x;
    if i == 0 {
      StrLeReflexive(x);
    }
  }

  /** Removing the same first element from both sides keeps equal
      multisets equal. */
  lemma TailMultiset(a: seq<string>, b: seq<string>)
    requires a != [] && b != [] && a[0] == b[0] && multiset(a) == multiset(b)
    ensures multiset(a[1..]) == multiset(b[1..])
  {
    assert a == [a[0]] + a[1..] && b == [b[0]] + b[1..];
    assert multiset(a) == multiset{a[0]} + multiset(a[1..]);
    assert multiset(b) == multiset{a[0]} + multiset(b[1..]);
    forall x
      ensures multiset(a[1..])[x] == multiset(b[1..])[x]
    {
      assert multiset(a)[x] == multiset{a[0]}[x] + multiset(a[1..])[x];
      assert multiset(b)[x] == multiset{a[0]}[x] + multiset(b[1..])[x];
    }
  }

  /** The tail of a sorted sequence is sorted. */
  lemma SortedTail(a: seq<string>)
    requires a != [] && Sorted(a)
    ensures Sorted(a[1..])
  {
    var t := a[1..];
    forall i, j | 0 <= i < j < |t| ensures StrLe(t[i], t[j]) {
      assert t[i] == a[i + 1] && t[j] == a[j + 1];
    }
  }

  /** There is only one sorted arrangement of a multiset of strings. */
  lemma {:induction false} SortedUnique(a: seq<string>, b: seq<string>)
    requires Sorted(a) && Sorted(b) && multiset(a) == multiset(b)
    ensures a == b
    decreases |a|
  {
    assert |a| == |multiset(a)| == |multiset(b)| == |b|;
    if a != [] {
      assert a[0] in multiset(b) && b[0] in multiset(a);
      SortedHead(a, b[0]);
      SortedHead(b, a[0]);
      StrLeAntisymmetric(a[0], b[0]);
      var ta, tb := a[1..], b[1..];
      TailMultiset(a, b);
      SortedTail(a);
      SortedTail(b);
      SortedUnique(ta, tb);
    }
  }

  /** A marker: the `MarkerType` string, or an object whose entries are
      its own properties in the order they were written. Property values
      are taken as already converted to text. */
  datatype MarkerSpec = MarkerString(name: string) | MarkerObject(entries: seq<(string, string)>)

  function Keys(entries: seq<(string, string)>): (r: seq<string>)
    ensures |r| == |entries| && forall i :: 0 <= i < |entries| ==> r[i] == entries[i].0
  {
    Map(entries, (e: (string, string)) => e.0)
  }

  /** `marker[key]`: the value of the first entry with that key. */
  function Lookup(entries: seq<(string, string)>, key: string): string
    decreases |entries|
  {
    if entries == [] then ""
    else if entries[0].0 == key then entries[0].1
    else Lookup(entries[1..], key)
  }

  /** `parts.join(sep)`. */
  function Join(parts: seq<string>, sep: string): (r: string)
    ensures parts == [] ==> r == []
    ensures |parts| == 1 ==> r == parts[0]
    decreases |parts|
  {
    if parts == [] then ""
    else if |parts| == 1 then parts[0]
    else parts[0] + sep + Join(parts[1..], sep)
  }

  /** The `key=value` texts in key order. */
  function Pairs(entries: seq<(string, string)>): (r: seq<string>)
    ensures |r| == |entries|
    ensures var ks := Sort(Keys(entries));
      |ks| == |entries| && forall i :: 0 <= i < |r| ==> r[i] == ks[i] + "=" + Lookup(entries, ks[i])
  {
    var ks := Sort(Keys(entries));
    assert |ks| == |entries| by {
      assert |multiset(ks)| == |multiset(Keys(entries))|;
    }
    Map(ks, (k: string) => k + "=" + Lookup(entries, k))
  }

  /** `getMarkerId(marker, vueFlowId)`: `''` for no marker, the string
      itself for a string marker, and otherwise the sorted `key=value`
      pairs joined by `&`, after `vueFlowId__` when the id is truthy. */
  function GetMarkerId(marker: Option<MarkerSpec>, vueFlowId: Option<string>): (r: string)
    ensures marker.None? ==> r == ""
    ensures marker.Some? && marker.value.MarkerString? ==> r == marker.value.name
    ensures marker.Some? && marker.value.MarkerObject? ==>
      var prefix := if Truthy(vueFlowId) then vueFlowId.value + "__" else "";
      |r| >= |prefix| && r[..|prefix|] == prefix
      && r[|prefix|..] == Join(Pairs(marker.value.entries), "&")
  {
    match marker
    case None => ""
    case Some(MarkerString(name)) => name
    case Some(MarkerObject(entries)) =>
      var idPrefix := if Truthy(vueFlowId) then vueFlowId.value + "__" else "";
      var body := Join(Pairs(entries), "&");
      assert (idPrefix + body)[|idPrefix|..] == body;
      idPrefix + body
  }

  /** The keys of a JavaScript object are distinct. */
  predicate DistinctKeys(entries: seq<(string, string)>) {
    forall i, j :: 0 <= i < j < |entries| ==> entries[i].0 != entries[j].0
  }

  lemma {:induction false} LookupEntry(entries: seq<(string, string)>, k: string, v: string)
    requires DistinctKeys(entries) && (k, v) in entries
    ensures Lookup(entries, k) == v
    decreases |entries|
  {
    if entries[0].0 != k {
      assert (k, v) in entries[1..];
      LookupEntry(entries[1..], k, v);
    } else {
      var i :| 0 <= i < |entries| && entries[i] == (k, v);
      assert i == 0;
    }
  }

  lemma {:induction false} DistinctCount(s: seq<string>, x: string)
    requires Distinct(s)
    ensures multiset(s)[x] == if x in s then 1 else 0
    decreases |s|
  {
    if s != [] {
      assert s == [s[0]] + s[1..];
      DistinctCount(s[1..], x);
      if x == s[0] {
        assert x !in s[1..];
      }
    }
  }

  /** Objects with the same entries and distinct keys have the same keys,
      each once. */
  lemma SameKeyMultiset(e1: seq<(string, string)>, e2: seq<(string, string)>)
    requires DistinctKeys(e1) && DistinctKeys(e2)
    requires forall e :: e in e1 <==> e in e2
    ensures multiset(Keys(e1)) == multiset(Keys(e2))
  {
    var k1 := Keys(e1);
    var k2 := Keys(e2);
    assert forall k :: k in k1 <==> k in k2 by {
      forall k
        ensures k in k1 <==> k in k2
      {
        if k in k1 {
          var i :| 0 <= i < |k1| && k1[i] == k;
          assert e1[i] in e2;
          var j :| 0 <= j < |e2| && e2[j] == e1[i];
          assert k2[j] == k;
        }
        if k in k2 {
          var i :| 0 <= i < |k2| && k2[i] == k;
          assert e2[i] in e1;
          var j :| 0 <= j < |e1| && e1[j] == e2[i];
          assert k1[j] == k;
        }
      }
    }
    forall k
      ensures multiset(k1)[k] == multiset(k2)[k]
    {
      DistinctCount(k1, k);
      DistinctCount(k2, k);
    }
  }

  /** The marker id depends only on the set of the object's entries, not
      on the order its properties were written in. */
  lemma MarkerIdOrderIndependent(e1: seq<(string, string)>, e2: seq<(string, string)>, vueFlowId: Option<string>)
    requires DistinctKeys(e1) && DistinctKeys(e2)
    requires forall e :: e in e1 <==> e in e2
    ensures GetMarkerId(Some(MarkerObject(e1)), vueFlowId) == GetMarkerId(Some(MarkerObject(e2)), vueFlowId)
  {
    var k1 := Keys(e1);
    var k2 := Keys(e2);
    SameKeyMultiset(e1, e2);
    SortedUnique(Sort(k1), Sort(k2));
    var ks := Sort(k1);
    forall i | 0 <= i < |ks|
      ensures Lookup(e1, ks[i]) == Lookup(e2, ks[i])
    {
      assert ks[i] in multiset(k1);
      var m :| 0 <= m < |k1| && k1[m] == ks[i];
      LookupEntry(e1, ks[i], e1[m].1);
      LookupEntry(e2, ks[i], e1[m].1);
    }
    assert Pairs(e1) == Pairs(e2);
  }
}
