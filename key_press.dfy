/** The key-combination matcher behind `useKeyPress`: parsing a filter such
    as `'ctrl+a'` into its parts, matching a key event against it, and the
    shared set of pressed keys that the matcher updates. */
module KeyPress {
  import opened Common

  // ---------------------------------------------------------------------
  // String operations the matcher uses

  /** `pat` occurs in `s` at index `j`. */
  predicate MatchAt(s: string, pat: string, j: int) {
    0 <= j && j + |pat| <= |s| && s[j..j + |pat|] == pat
  }

  /** `s.indexOf(pat)` for a string pattern: the first index at which `pat`
      occurs, or -1. */
  function IndexOfText(s: string, pat: string): (r: int)
    ensures r == -1 || MatchAt(s, pat, r)
    ensures forall j :: 0 <= j && (r == -1 || j < r) ==> !MatchAt(s, pat, j)
    decreases |s|
  {
    if |s| < |pat| then -1
    else if s[..|pat|] == pat then 0
    else
      var k := IndexOfText(s[1..], pat);
      forall j | 1 <= j
        ensures MatchAt(s, pat, j) <==> MatchAt(s[1..], pat, j - 1)
      {
        if j + |pat| <= |s| {
          assert s[1..][j - 1..j - 1 + |pat|] == s[j..j + |pat|];
        }
      }
      assert !MatchAt(s, pat, 0);
      if k == -1 then -1 else k + 1
  }

  /** `s.replace(pat, rep)` with a string pattern: only the first
      occurrence is replaced. */
  function ReplaceFirst(s: string, pat: string, rep: string): string {
    var k := IndexOfText(s, pat);
    if k == -1 then s else s[..k] + rep + s[k + |pat|..]
  }

  /** The parts of a string between its separators, joined back. */
  function Join(parts: seq<string>, sep: char): string
    requires |parts| >= 1
    decreases |parts|
  {
    if |parts| == 1 then parts[0] else parts[0] + [sep] + Join(parts[1..], sep)
  }

  /** `s.split(sep)` for a one-character separator: the pieces between the
      separators, which join back to `s`. */
  function Split(s: string, sep: char): (r: seq<string>)
    ensures |r| >= 1
    ensures forall i :: 0 <= i < |r| ==> sep !in r[i]
    ensures Join(r, sep) == s
    ensures |r| == 1 <==> sep !in s
    decreases |s|
  {
    var i := IndexOf(s, sep);
    if i == -1 then [s]
    else
      var rest := Split(s[i + 1..], sep);
      SplitCons(s, sep, i, rest);
      [s[..i]] + rest
  }

  /** The split of `s` at its first separator `i` is the piece before it
      followed by the split of the rest. */
  lemma SplitCons(s: string, sep: char, i: int, rest: seq<string>)
    requires 0 <= i < |s| && s[i] == sep && forall j :: 0 <= j < i ==> s[j] != sep
    requires |rest| >= 1 && (forall k :: 0 <= k < |rest| ==> sep !in rest[k]) && Join(rest, sep) == s[i + 1..]
    ensures var r := [s[..i]] + rest;
      && (forall k :: 0 <= k < |r| ==> sep !in r[k])
      && Join(r, sep) == s
      && |r| >= 2 && sep in s
  {
    var r := [s[..i]] + rest;
    assert r[1..] == rest;
    assert s == s[..i] + [sep] + s[i + 1..];
    assert sep !in s[..i] by {
      assert forall j :: 0 <= j < i ==> s[..i][j] == s[j];
    }
    assert forall k :: 1 <= k < |r| ==> r[k] == rest[k - 1];
  }

  /** Splitting a join of separator-free parts gives the parts back. */
  lemma {:induction false} SplitJoin(parts: seq<string>, sep: char)
    requires |parts| >= 1
    requires forall i :: 0 <= i < |parts| ==> sep !in parts[i]
    ensures Split(Join(parts, sep), sep) == parts
    decreases |parts|
  {
    if |parts| > 1 {
      var p := parts[0];
      var tail := Join(parts[1..], sep);
      var s := Join(parts, sep);
      assert s == p + [sep] + tail;
      assert s[|p|] == sep;
      var i := IndexOf(s, sep);
      assert i == |p| by {
        assert forall j :: 0 <= j < |p| ==> s[j] == p[j];
      }
      assert s[..i] == p;
      assert s[i + 1..] == tail;
      assert forall k :: 0 <= k < |parts| - 1 ==> parts[1..][k] == parts[k + 1];
      SplitJoin(parts[1..], sep);
      assert Split(s, sep) == [s[..i]] + Split(s[i + 1..], sep);
      assert parts == [p] + parts[1..];
    }
  }

  /** The characters `String.prototype.trim` removes. */
  predicate IsSpace(c: char) {
    || c == ' ' || c == '\t' || c == '\n' || c == '\r' || c == '\U{000B}' || c == '\U{000C}'
    || c == '\U{00A0}' || c == '\U{1680}' || ('\U{2000}' <= c <= '\U{200A}')
    || c == '\U{2028}' || c == '\U{2029}' || c == '\U{202F}' || c == '\U{205F}'
    || c == '\U{3000}' || c == '\U{FEFF}'
  }

  function TrimStart(s: string): (r: string)
    ensures |r| <= |s| && r == s[|s| - |r|..]
    ensures r == [] || !IsSpace(r[0])
    ensures forall i :: 0 <= i < |s| - |r| ==> IsSpace(s[i])
    decreases |s|
  {
    if s != [] && IsSpace(s[0]) then TrimStart(s[1..]) else s
  }

  function TrimEnd(s: string): (r: string)
    ensures |r| <= |s| && r == s[..|r|]
    ensures r == [] || !IsSpace(r[|r| - 1])
    ensures forall i :: |r| <= i < |s| ==> IsSpace(s[i])
    decreases |s|
  {
    if s != [] && IsSpace(s[|s| - 1]) then TrimEnd(s[..|s| - 1]) else s
  }

  /** `s.trim()`: the string without its leading and trailing white space. */
  function Trim(s: string): (r: string)
    ensures r == [] || (!IsSpace(r[0]) && !IsSpace(r[|r| - 1]))
    ensures (s == [] || (!IsSpace(s[0]) && !IsSpace(s[|s| - 1]))) ==> r == s
  {
    TrimEnd(TrimStart(s))
  }

  function LowerChar(c: char): char {
    if 'A' <= c <= 'Z' then (c as int + 32) as char else c
  }

  /** `s.toLowerCase()` on the Latin letters. */
  function Lower(s: string): (r: string)
    ensures |r| == |s| && forall i :: 0 <= i < |s| ==> r[i] == LowerChar(s[i])
  {
    Map(s, LowerChar)
  }

  /** Lower-casing never creates or removes a `'+'`. */
  lemma LowerKeepsPlus(s: string)
    ensures '+' in Lower(s) <==> '+' in s
  {
    if '+' in s {
      var i :| 0 <= i < |s| && s[i] == '+';
      assert Lower(s)[i] == '+';
    }
  }

  // ---------------------------------------------------------------------
  // Parsing a filter into a key combination

  function LowerTrim(k: string): string {
    Lower(Trim(k))
  }

  /** `keyToMatch.replace('+', '\n').replace('\n\n', '\n+').split('\n')
      .map(k => k.trim().toLowerCase())`. */
  function KeyCombination(keyToMatch: string): (r: seq<string>)
    ensures |r| >= 1
  {
    Map(Split(ReplaceFirst(ReplaceFirst(keyToMatch, "+", "\n"), "\n\n", "\n+"), '\n'), LowerTrim)
  }

  /** A one-character pattern occurs where that character is. */
  lemma MatchChar(s: string, c: char)
    ensures forall j :: MatchAt(s, [c], j) <==> 0 <= j < |s| && s[j] == c
  {
    forall j | 0 <= j < |s|
      ensures MatchAt(s, [c], j) <==> s[j] == c
    {
      assert s[j..j + 1] == [s[j]];
    }
  }

  /** Searching for a one-character string finds the character's first
      index. */
  lemma FindChar(s: string, c: char)
    ensures IndexOfText(s, [c]) == IndexOf(s, c)
  {
    MatchChar(s, c);
    var k := IndexOfText(s, [c]);
    var i := IndexOf(s, c);
    if k >= 0 {
      assert s[k] == c;
    }
    if i >= 0 {
      assert MatchAt(s, [c], i);
    }
  }

  /** A string with no two line breaks in a row. */
  predicate NoBreakPair(s: string) {
    forall j :: 0 <= j < |s| - 1 && s[j] == '\n' ==> s[j + 1] != '\n'
  }

  /** The second replacement changes only a string with two line breaks in
      a row. */
  lemma SecondReplaceNoop(s: string)
    requires NoBreakPair(s)
    ensures ReplaceFirst(s, "\n\n", "\n+") == s
  {
    var q := IndexOfText(s, "\n\n");
    if q >= 0 {
      BreakPairAt(s, q);
      assert false;
    }
  }

  lemma BreakPairAt(s: string, q: int)
    requires MatchAt(s, "\n\n", q)
    ensures s[q] == '\n' && s[q + 1] == '\n'
  {
    assert s[q..q + 2] == "\n\n";
  }

  /** Both replacements keep a line break, and the first makes one of the
      first plus sign. */
  lemma ReplaceKeepsBreak(s: string)
    ensures '\n' in ReplaceFirst(s, "+", "\n") <==> '+' in s || '\n' in s
    ensures forall t: string :: '\n' in ReplaceFirst(t, "\n\n", "\n+") <==> '\n' in t
  {
    FindChar(s, '+');
    var k := IndexOf(s, '+');
    if k >= 0 {
      var s1 := ReplaceFirst(s, "+", "\n");
      assert s1 == s[..k] + "\n" + s[k + 1..];
      assert s1[k] == '\n';
      assert s == s[..k] + "+" + s[k + 1..];
      assert forall c :: c in s ==> c in s[..k] || c == '+' || c in s[k + 1..];
    }
    forall t: string
      ensures '\n' in ReplaceFirst(t, "\n\n", "\n+") <==> '\n' in t
    {
      var q := IndexOfText(t, "\n\n");
      if q >= 0 {
        var t2 := ReplaceFirst(t, "\n\n", "\n+");
        assert t2 == t[..q] + "\n+" + t[q + 2..];
        assert t2[q] == '\n';
        assert t[q..q + 2] == "\n\n";
        assert t[q] == '\n';
      }
    }
  }

  /** A filter is a single key exactly when it holds neither a plus sign
      nor a line break, and then it is that key, trimmed and lower-cased. */
  lemma SingleKeyFilter(keyToMatch: string)
    ensures |KeyCombination(keyToMatch)| == 1 <==> '+' !in keyToMatch && '\n' !in keyToMatch
    ensures '+' !in keyToMatch && '\n' !in keyToMatch ==> KeyCombination(keyToMatch) == [LowerTrim(keyToMatch)]
  {
    ReplaceKeepsBreak(keyToMatch);
    var s1 := ReplaceFirst(keyToMatch, "+", "\n");
    var s2 := ReplaceFirst(s1, "\n\n", "\n+");
    assert '\n' in s2 <==> '\n' in s1;
    if '+' !in keyToMatch && '\n' !in keyToMatch {
      FindChar(keyToMatch, '+');
      assert s1 == keyToMatch;
      SecondReplaceNoop(s1);
      assert Split(s2, '\n') == [keyToMatch];
    }
  }

  /** The first replacement turns the first plus sign into a line break. */
  lemma FirstReplace(a: string, b: string)
    requires '+' !in a
    ensures ReplaceFirst(a + "+" + b, "+", "\n") == a + "\n" + b
  {
    var s := a + "+" + b;
    FindChar(s, '+');
    var k := IndexOf(s, '+');
    assert s[|a|] == '+';
    assert k == |a| by {
      assert forall j :: 0 <= j < |a| ==> s[j] == a[j];
    }
    assert s[..k] == a && s[k + 1..] == b;
  }

  /** Only the first plus sign splits: `a + '+' + b` gives the parts `a`
      and `b`, and a plus sign inside `b` stays part of `b`. */
  lemma SplitAtFirstPlus(a: string, b: string)
    requires '+' !in a && '\n' !in a && '\n' !in b
    ensures KeyCombination(a + "+" + b) == [LowerTrim(a), LowerTrim(b)]
  {
    FirstReplace(a, b);
    var s1 := a + "\n" + b;
    assert NoBreakPair(s1) by {
      forall j | 0 <= j < |s1| - 1 && s1[j] == '\n'
        ensures s1[j + 1] != '\n'
      {
        if j == |a| {
          assert s1[j + 1] == b[0];
        }
      }
    }
    SecondReplaceNoop(s1);
    assert Join([a, b], '\n') == s1;
    SplitJoin([a, b], '\n');
  }

  /** A key name the parse leaves alone: no white space, no capital
      letter, no line break. */
  predicate PlainKey(k: string) {
    forall i :: 0 <= i < |k| ==> !IsSpace(k[i]) && !('A' <= k[i] <= 'Z') && k[i] != '\n'
  }

  /** A plain key name is its own parse. */
  lemma TrimLowerKey(k: string)
    requires PlainKey(k)
    ensures LowerTrim(k) == k
  {
    if k != [] {
      assert !IsSpace(k[0]) && !IsSpace(k[|k| - 1]);
    }
    assert Trim(k) == k;
    var l := Lower(k);
    forall i | 0 <= i < |k| ensures l[i] == k[i] {
      assert !('A' <= k[i] <= 'Z');
    }
    assert l == k;
  }

  /** `a + '+' + b` with plain `a` and `b` parses as `[a, b]`. */
  lemma PlusPartsParse(filter: string, a: string, b: string)
    requires filter == a + "+" + b && PlainKey(a) && PlainKey(b) && '+' !in a
    ensures KeyCombination(filter) == [a, b]
  {
    SplitAtFirstPlus(a, b);
    TrimLowerKey(a);
    TrimLowerKey(b);
  }

  /** `'ctrl++'` is `ctrl` with the plus key. */
  lemma CtrlPlusPlus(filter: string)
    requires filter == "ctrl++"
    ensures KeyCombination(filter) == ["ctrl", "+"]
  {
    assert filter == "ctrl" + "+" + "+";
    PlusPartsParse(filter, "ctrl", "+");
  }

  // ---------------------------------------------------------------------
  // Matching against the pressed keys

  /** `keyCombination.every((key, index) => pressedKeys.has(key) &&
      Array.from(pressedKeys.values())[index] === keyCombination[index])`:
      the combination is what was pressed first, in order. */
  predicate ComboMatches(combination: seq<string>, keys: seq<string>) {
    forall i :: 0 <= i < |combination| ==> combination[i] in keys && i < |keys| && keys[i] == combination[i]
  }

  /** A combination matches exactly when it is a prefix of the pressed
      keys. */
  lemma ComboMatchesPrefix(combination: seq<string>, keys: seq<string>)
    ensures ComboMatches(combination, keys) <==> combination <= keys
  {
    if ComboMatches(combination, keys) && combination != [] {
      var last := |combination| - 1;
      assert combination[last] in keys;
      assert last < |keys| && keys[last] == combination[last];
      assert combination == keys[..|combination|];
    }
  }

  /** `isKeyMatch(pressedKey, keyToMatch, pressedKeys, isKeyUp)`: the match
      result and the pressed keys afterwards. */
  function KeyMatch(pressedKey: string, keyToMatch: string, keys: seq<string>, isKeyUp: bool): (r: (bool, seq<string>))
    ensures |KeyCombination(keyToMatch)| == 1 ==> r.1 == keys
    ensures !isKeyUp ==> forall k :: k in keys ==> k in r.1
    ensures isKeyUp ==> forall k :: k in r.1 ==> k in keys
  {
    var combination := KeyCombination(keyToMatch);
    if |combination| == 1 then (Lower(pressedKey) == Lower(keyToMatch), keys)
    else
      var during := if isKeyUp then keys else SetAdd(keys, Lower(pressedKey));
      var after := if isKeyUp then SetDelete(during, Lower(pressedKey)) else during;
      (ComboMatches(combination, during), after)
  }

  /** A single key compares case-insensitively and leaves the set alone. */
  lemma KeyMatchSingle(pressedKey: string, keyToMatch: string, keys: seq<string>, isKeyUp: bool)
    requires |KeyCombination(keyToMatch)| == 1
    ensures KeyMatch(pressedKey, keyToMatch, keys, isKeyUp) == (Lower(pressedKey) == Lower(keyToMatch), keys)
  {
  }

  /** On keydown a combination records the key before matching, so it
      matches when it is a prefix of the keys including this one. */
  lemma KeyMatchDown(pressedKey: string, keyToMatch: string, keys: seq<string>)
    requires |KeyCombination(keyToMatch)| > 1
    ensures var r := KeyMatch(pressedKey, keyToMatch, keys, false);
      && Lower(pressedKey) in r.1 && keys <= r.1
      && (forall k :: k in r.1 <==> k in keys || k == Lower(pressedKey))
      && (r.0 <==> KeyCombination(keyToMatch) <= r.1)
  {
    var x := Lower(pressedKey);
    var during := SetAdd(keys, x);
    ComboMatchesPrefix(KeyCombination(keyToMatch), during);
    assert KeyMatch(pressedKey, keyToMatch, keys, false) == (ComboMatches(KeyCombination(keyToMatch), during), during);
  }

  /** On keyup a combination matches against the keys as they were, and
      forgets the key afterwards. */
  lemma KeyMatchUp(pressedKey: string, keyToMatch: string, keys: seq<string>)
    requires |KeyCombination(keyToMatch)| > 1
    ensures var r := KeyMatch(pressedKey, keyToMatch, keys, true);
      && Lower(pressedKey) !in r.1
      && (forall k :: k in r.1 <==> k in keys && k != Lower(pressedKey))
      && (r.0 <==> KeyCombination(keyToMatch) <= keys)
  {
    var x := Lower(pressedKey);
    var after := SetDelete(keys, x);
    ComboMatchesPrefix(KeyCombination(keyToMatch), keys);
    assert KeyMatch(pressedKey, keyToMatch, keys, true) == (ComboMatches(KeyCombination(keyToMatch), keys), after);
    forall k
      ensures k in after <==> k in keys && k != x
    {
      if k in keys && k != x {
        var i :| 0 <= i < |keys| && keys[i] == k;
      }
      if k in after {
        var i :| 0 <= i < |after| && after[i] == k;
      }
    }
  }

  /** The pressed keys stay a set. */
  lemma KeyMatchDistinct(pressedKey: string, keyToMatch: string, keys: seq<string>, isKeyUp: bool)
    requires Distinct(keys)
    ensures Distinct(KeyMatch(pressedKey, keyToMatch, keys, isKeyUp).1)
  {
  }

  /** A JavaScript `Set` of pressed keys, in insertion order. */
  class KeySet {
    var items: seq<string>

    constructor()
      ensures items == []
    {
      items := [];
    }
  }

  /** `isKeyMatch` on the shared set. */
  method IsKeyMatch(pressedKey: string, keyToMatch: string, pressedKeys: KeySet, isKeyUp: bool) returns (isMatch: bool)
    modifies pressedKeys
    ensures (isMatch, pressedKeys.items) == KeyMatch(pressedKey, keyToMatch, old(pressedKeys.items), isKeyUp)
  {
    var combination := KeyCombination(keyToMatch);
    if |combination| == 1 {
      return Lower(pressedKey) == Lower(keyToMatch);
    }
    if !isKeyUp {
      pressedKeys.items := SetAdd(pressedKeys.items, Lower(pressedKey));
    }
    isMatch := ComboMatches(combination, pressedKeys.items);
    if isKeyUp {
      pressedKeys.items := SetDelete(pressedKeys.items, Lower(pressedKey));
    }
  }

  /** `xs.some(x => step(x, state))` where each call may change the
      state: the entries are tried in order, each on the state the earlier
      ones left, until one answers true. */
  function SomeWithState(xs: seq<string>, state: seq<string>, step: (string, seq<string>) -> (bool, seq<string>)): (bool, seq<string>)
    decreases |xs|
  {
    if xs == [] then (false, state)
    else
      var m := step(xs[0], state);
      if m.0 then (true, m.1) else SomeWithState(xs[1..], m.1, step)
  }

  /** `isKeyMatch(pressedKey, ·, ·, isKeyUp)` as a step on the set. */
  function MatchStep(pressedKey: string, isKeyUp: bool): (string, seq<string>) -> (bool, seq<string>) {
    (f, k) => KeyMatch(pressedKey, f, k, isKeyUp)
  }

  /** `keyFilter.some(key => isKeyMatch(...))` on the shared set. */
  function AnyKeyMatch(pressedKey: string, filters: seq<string>, keys: seq<string>, isKeyUp: bool): (r: (bool, seq<string>))
    ensures filters == [] ==> r == (false, keys)
    ensures filters != [] && |KeyCombination(filters[0])| == 1 && Lower(pressedKey) == Lower(filters[0]) ==>
      r == (true, keys)
  {
    SomeWithState(filters, keys, MatchStep(pressedKey, isKeyUp))
  }

  /** On keydown, what an earlier entry added does not change a later
      entry's result. */
  lemma KeyDownStateIrrelevant(pressedKey: string, f: string, keys: seq<string>, keys2: seq<string>)
    requires keys2 == keys || keys2 == SetAdd(keys, Lower(pressedKey))
    ensures KeyMatch(pressedKey, f, keys2, false).0 == KeyMatch(pressedKey, f, keys, false).0
    ensures var k := KeyMatch(pressedKey, f, keys2, false).1;
      k == keys || k == SetAdd(keys, Lower(pressedKey))
  {
  }

  /** `xs.some(x => step(x, state).0)` with every call on the same state. */
  predicate AnyAt(xs: seq<string>, step: (string, seq<string>) -> (bool, seq<string>), state: seq<string>)
    decreases |xs|
  {
    xs != [] && (step(xs[0], state).0 || AnyAt(xs[1..], step, state))
  }

  lemma {:induction false} AnyAtExists(xs: seq<string>, step: (string, seq<string>) -> (bool, seq<string>), state: seq<string>)
    ensures AnyAt(xs, step, state) <==> exists i :: 0 <= i < |xs| && step(xs[i], state).0
    decreases |xs|
  {
    if xs != [] {
      AnyAtExists(xs[1..], step, state);
      if exists i :: 0 <= i < |xs| && step(xs[i], state).0 {
        var i :| 0 <= i < |xs| && step(xs[i], state).0;
        if i > 0 {
          assert xs[1..][i - 1] == xs[i];
        }
      }
      if AnyAt(xs[1..], step, state) {
        var i :| 0 <= i < |xs[1..]| && step(xs[1..][i], state).0;
        assert xs[i + 1] == xs[1..][i];
      }
    }
  }

  /** Some entry matches when tried on its own against `keys`. */
  predicate SomeEntryMatches(pressedKey: string, filters: seq<string>, keys: seq<string>, isKeyUp: bool) {
    AnyAt(filters, MatchStep(pressedKey, isKeyUp), keys)
  }

  /** When every state in an invariant gives each entry the answer it
      gets at `start`, the stateful `some` is the plain one at `start`. */
  lemma {:induction false} SomeWithStateStable(xs: seq<string>, state: seq<string>, step: (string, seq<string>) -> (bool, seq<string>),
                                            start: seq<string>, inv: seq<string> -> bool)
    requires inv(state)
    requires forall x, k {:trigger step(x, k)} :: inv(k) ==> step(x, k).0 == step(x, start).0 && inv(step(x, k).1)
    ensures SomeWithState(xs, state, step).0 == AnyAt(xs, step, start)
    decreases |xs|
  {
    if xs != [] {
      SomeWithStateStable(xs[1..], step(xs[0], state).1, step, start, inv);
    }
  }

  /** On keydown an array filter matches exactly when one of its entries
      matches on its own. */
  lemma KeyDownAnyMatch(pressedKey: string, filters: seq<string>, keys: seq<string>)
    ensures AnyKeyMatch(pressedKey, filters, keys, false).0 == SomeEntryMatches(pressedKey, filters, keys, false)
  {
    var x := Lower(pressedKey);
    var inv := k => k == keys || k == SetAdd(keys, x);
    var step := MatchStep(pressedKey, false);
    forall f, k {:trigger step(f, k)} | inv(k)
      ensures step(f, k).0 == step(f, keys).0 && inv(step(f, k).1)
    {
      KeyDownStateIrrelevant(pressedKey, f, keys, k);
    }
    SomeWithStateStable(filters, keys, step, keys, inv);
  }

  // ---------------------------------------------------------------------
  // The key predicate

  /** A string filter or an array of them. */
  datatype KeyFilter = KeyString(s: string) | KeyArray(entries: seq<string>)

  /** The parts of a keyboard event the predicate reads. */
  datatype KeyEvent = KeyEvent(code: Option<string>, key: Option<string>, isKeyUp: bool)

  /** Which of the event's fields names the key. */
  datatype KeyField = CodeField | KeyNameField

  /** `useKeyOrCode(code, keysToWatch)`. */
  function UseKeyOrCode(code: Option<string>, keysToWatch: KeyFilter): (r: KeyField)
    ensures r == CodeField <==>
      code.Some? && (match keysToWatch
                     case KeyString(s) => s == code.value
                     case KeyArray(entries) => code.value in entries)
  {
    match keysToWatch
    case KeyArray(entries) => if code.Some? && code.value in entries then CodeField else KeyNameField
    case KeyString(s) => if code == Some(s) then CodeField else KeyNameField
  }

  /** The predicate's answer; `Threw` is the `TypeError` of calling
      `toLowerCase` on an event without the field it picked. */
  datatype PredicateOutcome = Answer(matched: bool) | Threw

  /** The predicate `createKeyPredicate(keyFilter, pressedKeys)` returns,
      applied to one event: its outcome and the pressed keys afterwards. */
  function KeyPredicateResult(keyFilter: KeyFilter, keys: seq<string>, event: KeyEvent): (r: (PredicateOutcome, seq<string>))
    ensures !Truthy(event.code) && !Truthy(event.key) ==> r == (Answer(false), keys)
    ensures r.0 == Threw ==> r.1 == keys && event.key.None?
    ensures keyFilter.KeyArray? && keyFilter.entries == [] ==> r == (Answer(false), keys)
  {
    if !Truthy(event.code) && !Truthy(event.key) then (Answer(false), keys)
    else
      var pressed := if UseKeyOrCode(event.code, keyFilter) == CodeField then event.code else event.key;
      match keyFilter
      case KeyArray(entries) =>
        if entries == [] then (Answer(false), keys)
        else if pressed.None? then (Threw, keys)
        else
          var m := AnyKeyMatch(pressed.value, entries, keys, event.isKeyUp);
          (Answer(m.0), m.1)
      case KeyString(s) =>
        if pressed.None? then (Threw, keys)
        else
          var m := KeyMatch(pressed.value, s, keys, event.isKeyUp);
          (Answer(m.0), m.1)
  }

  lemma {:induction false} AnyKeyMatchDistinct(pressedKey: string, filters: seq<string>, keys: seq<string>, isKeyUp: bool)
    requires Distinct(keys)
    ensures Distinct(AnyKeyMatch(pressedKey, filters, keys, isKeyUp).1)
    decreases |filters|
  {
    if filters != [] {
      var m := KeyMatch(pressedKey, filters[0], keys, isKeyUp);
      KeyMatchDistinct(pressedKey, filters[0], keys, isKeyUp);
      AnyKeyMatchDistinct(pressedKey, filters[1..], m.1, isKeyUp);
    }
  }

  /** The pressed keys stay a set whatever the predicate is asked. */
  lemma KeyPredicateKeepsSet(keyFilter: KeyFilter, keys: seq<string>, event: KeyEvent)
    requires Distinct(keys)
    ensures Distinct(KeyPredicateResult(keyFilter, keys, event).1)
  {
    var r := KeyPredicateResult(keyFilter, keys, event);
    var pressed := if UseKeyOrCode(event.code, keyFilter) == CodeField then event.code else event.key;
    if (!Truthy(event.code) && !Truthy(event.key)) || pressed.None? {
      assert r.1 == keys;
    } else {
      match keyFilter
      case KeyArray(entries) =>
        if entries == [] {
          assert r.1 == keys;
        } else {
          assert r.1 == AnyKeyMatch(pressed.value, entries, keys, event.isKeyUp).1;
          AnyKeyMatchDistinct(pressed.value, entries, keys, event.isKeyUp);
        }
      case KeyString(s) =>
        assert r.1 == KeyMatch(pressed.value, s, keys, event.isKeyUp).1;
        KeyMatchDistinct(pressed.value, s, keys, event.isKeyUp);
    }
  }

  /** One step of the fold: the first entry's match decides, or the
      rest runs on the set the first entry left. */
  lemma AnyKeyMatchStep(pressedKey: string, filters: seq<string>, keys: seq<string>, isKeyUp: bool)
    requires filters != []
    ensures var m := KeyMatch(pressedKey, filters[0], keys, isKeyUp);
      AnyKeyMatch(pressedKey, filters, keys, isKeyUp)
        == if m.0 then (true, m.1) else AnyKeyMatch(pressedKey, filters[1..], m.1, isKeyUp)
  {
    assert MatchStep(pressedKey, isKeyUp)(filters[0], keys) == KeyMatch(pressedKey, filters[0], keys, isKeyUp);
  }

  /** The `some` over the entries of an array filter, stopping at the
      first entry that matches. */
  method AnyIsKeyMatch(pressedKey: string, entries: seq<string>, pressedKeys: KeySet, isKeyUp: bool)
    returns (found: bool)
    modifies pressedKeys
    ensures (found, pressedKeys.items) == AnyKeyMatch(pressedKey, entries, old(pressedKeys.items), isKeyUp)
  {
    ghost var start := pressedKeys.items;
    var i := 0;
    found := false;
    while i < |entries| && !found
      invariant 0 <= i <= |entries|
      invariant found ==> AnyKeyMatch(pressedKey, entries, start, isKeyUp) == (true, pressedKeys.items)
      invariant !found ==> AnyKeyMatch(pressedKey, entries, start, isKeyUp)
                           == AnyKeyMatch(pressedKey, entries[i..], pressedKeys.items, isKeyUp)
      decreases |entries| - i
    {
      ghost var before := pressedKeys.items;
      ghost var m := KeyMatch(pressedKey, entries[i], before, isKeyUp);
      AnyKeyMatchStep(pressedKey, entries[i..], before, isKeyUp);
      assert entries[i..][1..] == entries[i + 1..];
      assert entries[i..][0] == entries[i];
      found := IsKeyMatch(pressedKey, entries[i], pressedKeys, isKeyUp);
      assert (found, pressedKeys.items) == m;
      i := i + 1;
    }
    if !found {
      assert entries[i..] == [];
    }
  }

  method KeyPredicate(keyFilter: KeyFilter, pressedKeys: KeySet, event: KeyEvent) returns (outcome: PredicateOutcome)
    modifies pressedKeys
    ensures (outcome, pressedKeys.items) == KeyPredicateResult(keyFilter, old(pressedKeys.items), event)
  {
    if !Truthy(event.code) && !Truthy(event.key) {
      return Answer(false);
    }
    var keyOrCode := UseKeyOrCode(event.code, keyFilter);
    var pressed := if keyOrCode == CodeField then event.code else event.key;
    match keyFilter
    case KeyArray(entries) =>
      if entries == [] {
        return Answer(false);
      }
      if pressed.None? {
        return Threw;
      }
      var found := AnyIsKeyMatch(pressed.value, entries, pressedKeys, event.isKeyUp);
      outcome := Answer(found);
    case KeyString(s) =>
      if pressed.None? {
        return Threw;
      }
      var m := IsKeyMatch(pressed.value, s, pressedKeys, event.isKeyUp);
      outcome := Answer(m);
  }

  // ---------------------------------------------------------------------
  // Findings

  /** A combination whose second part is no pressed key's name does not
      match. */
  lemma PlusPartNeverMatches(combination: seq<string>, keys: seq<string>)
    requires |combination| >= 2
    requires forall i :: 0 <= i < |keys| ==> keys[i] != combination[1]
    ensures !ComboMatches(combination, keys)
  {
    if 1 < |keys| {
      assert keys[1] != combination[1];
    }
    assert !(combination[1] in keys && 1 < |keys| && keys[1] == combination[1]);
  }

  /** `'ctrl+shift+a'` parses, as written, as `ctrl` and `shift+a`. */
  lemma CtrlShiftAParse(filter: string)
    requires filter == "ctrl+shift+a"
    ensures KeyCombination(filter) == ["ctrl", "shift+a"]
  {
    assert filter == "ctrl" + "+" + "shift+a";
    PlusPartsParse(filter, "ctrl", "shift+a");
  }

  /** As written, a three-key filter such as `'ctrl+shift+a'` parses as
      `ctrl` and `shift+a`; the second part is not a key name, so it
      matches only if one pressed key were named `shift+a` as a whole
      (holding the `+` key itself does not help). */
  lemma ThreeKeyComboNeverMatches(filter: string, a: string, b: string, c: string, keys: seq<string>)
    requires filter == a + "+" + b + "+" + c
    requires PlainKey(a) && PlainKey(b) && PlainKey(c) && '+' !in a
    requires forall i :: 0 <= i < |keys| ==> keys[i] != b + "+" + c
    ensures KeyCombination(filter) == [a, b + "+" + c]
    ensures !ComboMatches(KeyCombination(filter), keys)
  {
    var rest := b + "+" + c;
    assert filter == a + "+" + rest;
    assert PlainKey(rest) by {
      forall i | 0 <= i < |rest|
        ensures !IsSpace(rest[i]) && !('A' <= rest[i] <= 'Z') && rest[i] != '\n'
      {
        if i < |b| {
          assert rest[i] == b[i];
        } else if i > |b| {
          assert rest[i] == c[i - |b| - 1];
        }
      }
    }
    PlusPartsParse(filter, a, rest);
    PlusPartNeverMatches(KeyCombination(filter), keys);
  }

  /** Deleting the last of two different keys leaves the first. */
  lemma DeleteSecond(keys: seq<string>, x: string, y: string)
    requires keys == [y, x] && y != x
    ensures SetDelete(keys, x) == [y]
  {
    assert keys[1..] == [x];
    assert SetDelete(keys[1..], x) == [];
  }

  /** On keyup of `x` with the keys `[y, x]`, the combination `m+x` of
      another modifier `m` misses and forgets `x`. */
  lemma OtherModifierKeyUp(x: string, m: string, y: string, filter: string)
    requires PlainKey(x) && PlainKey(m) && '+' !in m && filter == m + "+" + x && y != m && y != x
    ensures KeyMatch(x, filter, [y, x], true) == (false, [y])
  {
    PlusPartsParse(filter, m, x);
    var c := KeyCombination(filter);
    TrimLowerKey(x);
    assert Lower(x) == x;
    var keys := [y, x];
    assert keys[0] != c[0];
    DeleteSecond(keys, x, y);
    assert KeyMatch(x, filter, keys, true) == (ComboMatches(c, keys), SetDelete(keys, x));
  }

  /** On keyup of `x`, the combination `m+x` matches the keys `[m, x]`,
      and no longer matches once `x` was forgotten. */
  lemma SameModifierKeyUp(x: string, m: string, filter: string)
    requires PlainKey(x) && PlainKey(m) && '+' !in m && filter == m + "+" + x
    ensures KeyMatch(x, filter, [m, x], true).0
    ensures !KeyMatch(x, filter, [m], true).0
  {
    PlusPartsParse(filter, m, x);
    var c := KeyCombination(filter);
    ComboMatchesPrefix(c, [m, x]);
    ComboMatchesPrefix(c, [m]);
  }

  /** As written, an array filter `[m1 + '+' + x, m2 + '+' + x]` (say
      `['ctrl+a', 'shift+a']`) misses the release of `x` while `m2` is held:
      the first entry deletes `x` from the shared set before the second
      entry looks, though that entry alone matches. */
  lemma KeyUpArrayMisses(x: string, m1: string, m2: string, first: string, second: string)
    requires PlainKey(x) && PlainKey(m1) && PlainKey(m2) && '+' !in m1 && '+' !in m2
    requires first == m1 + "+" + x && second == m2 + "+" + x && m2 != m1 && m2 != x
    ensures KeyMatch(x, second, [m2, x], true).0
    ensures !AnyKeyMatch(x, [first, second], [m2, x], true).0
  {
    OtherModifierKeyUp(x, m1, m2, first);
    SameModifierKeyUp(x, m2, second);
    var step := MatchStep(x, true);
    StepIsKeyMatch(x, true, first, [m2, x]);
    StepIsKeyMatch(x, true, second, [m2]);
    SomeWithStateTwo(first, second, [m2, x], step);
  }

  lemma StepIsKeyMatch(pressedKey: string, isKeyUp: bool, f: string, k: seq<string>)
    ensures MatchStep(pressedKey, isKeyUp)(f, k) == KeyMatch(pressedKey, f, k, isKeyUp)
  {
  }

  /** The stateful `some` over two entries. */
  lemma SomeWithStateTwo(a: string, b: string, state: seq<string>, step: (string, seq<string>) -> (bool, seq<string>))
    ensures var m := step(a, state);
      SomeWithState([a, b], state, step) == if m.0 then (true, m.1) else step(b, m.1)
  {
    assert [a, b][1..] == [b];
    assert [b][1..] == [];
    var m := step(a, state);
    var n := step(b, m.1);
    assert SomeWithState([b], m.1, step) == if n.0 then (true, n.1) else SomeWithState([], n.1, step);
    assert SomeWithState([], n.1, step) == (false, n.1);
    assert n == (n.0, n.1);
  }

  /** Whether any entry of an array filter is a key combination. */
  predicate HasCombination(filters: seq<string>) {
    exists i :: 0 <= i < |filters| && |KeyCombination(filters[i])| > 1
  }

  /** The evidently intended array match: every entry is judged against the
      same pressed keys, and the key is recorded or forgotten once. */
  function AnyKeyMatchIntended(pressedKey: string, filters: seq<string>, keys: seq<string>, isKeyUp: bool): (r: (bool, seq<string>))
    ensures r.0 <==> exists i :: 0 <= i < |filters| && KeyMatch(pressedKey, filters[i], keys, isKeyUp).0
    ensures HasCombination(filters) && isKeyUp ==> Lower(pressedKey) !in r.1
    ensures HasCombination(filters) && !isKeyUp ==> Lower(pressedKey) in r.1
    ensures !HasCombination(filters) ==> r.1 == keys
  {
    AnyAtExists(filters, MatchStep(pressedKey, isKeyUp), keys);
    var after := if !HasCombination(filters) then keys
                 else if isKeyUp then SetDelete(keys, Lower(pressedKey))
                 else SetAdd(keys, Lower(pressedKey));
    (SomeEntryMatches(pressedKey, filters, keys, isKeyUp), after)
  }

  /** On keydown the source already behaves as intended; on keyup the
      intended match catches the release the source misses. */
  lemma AnyKeyMatchIntendedAgrees(pressedKey: string, filters: seq<string>, keys: seq<string>)
    ensures AnyKeyMatch(pressedKey, filters, keys, false).0 == AnyKeyMatchIntended(pressedKey, filters, keys, false).0
  {
    KeyDownAnyMatch(pressedKey, filters, keys);
  }

  /** The intended match sees the release `KeyUpArrayMisses` shows the
      source missing. */
  lemma KeyUpArrayIntended(x: string, m1: string, m2: string, first: string, second: string)
    requires PlainKey(x) && PlainKey(m1) && PlainKey(m2) && '+' !in m1 && '+' !in m2
    requires first == m1 + "+" + x && second == m2 + "+" + x && m2 != m1 && m2 != x
    ensures AnyKeyMatchIntended(x, [first, second], [m2, x], true).0
    ensures x !in AnyKeyMatchIntended(x, [first, second], [m2, x], true).1
  {
    SameModifierKeyUp(x, m2, second);
    PlusPartsParse(second, m2, x);
    TrimLowerKey(x);
    var filters := [first, second];
    assert filters[1] == second;
    assert HasCombination(filters);
  }

  /** `s.replaceAll(c, d)` for single characters. */
  function ReplaceChar(s: string, c: char, d: char): (r: string)
    ensures |r| == |s| && forall i :: 0 <= i < |s| ==> r[i] == if s[i] == c then d else s[i]
  {
    Map(s, (x: char) => if x == c then d else x)
  }

  /** The evidently intended parse: every plus sign separates, and `'++'`
      still stands for the plus key after a separator. */
  function KeyCombinationIntended(keyToMatch: string): (r: seq<string>)
    ensures |r| >= 1
  {
    Map(Split(ReplaceFirst(ReplaceChar(keyToMatch, '+', '\n'), "\n\n", "\n+"), '\n'), LowerTrim)
  }

  lemma {:induction false} JoinReplace(parts: seq<string>)
    requires |parts| >= 1
    requires forall i :: 0 <= i < |parts| ==> '+' !in parts[i]
    ensures ReplaceChar(Join(parts, '+'), '+', '\n') == Join(parts, '\n')
    decreases |parts|
  {
    if |parts| == 1 {
      assert ReplaceChar(parts[0], '+', '\n') == parts[0];
    } else {
      JoinReplace(parts[1..]);
      var a := parts[0];
      var j1 := Join(parts[1..], '+');
      assert Join(parts, '+') == a + ['+'] + j1;
      var r := ReplaceChar(Join(parts, '+'), '+', '\n');
      assert r == a + ['\n'] + ReplaceChar(j1, '+', '\n') by {
        assert forall i :: 0 <= i < |a| ==> r[i] == a[i];
      }
    }
  }

  /** A join of non-empty parts without line breaks has no two line breaks
      in a row, and starts with the first part's first character. */
  lemma {:induction false} JoinNoDoubleBreak(parts: seq<string>)
    requires |parts| >= 1
    requires forall i :: 0 <= i < |parts| ==> parts[i] != [] && '\n' !in parts[i]
    ensures Join(parts, '\n') != [] && Join(parts, '\n')[0] == parts[0][0]
    ensures NoBreakPair(Join(parts, '\n'))
    decreases |parts|
  {
    if |parts| > 1 {
      JoinNoDoubleBreak(parts[1..]);
      var a := parts[0];
      var t := Join(parts[1..], '\n');
      var s := Join(parts, '\n');
      assert s == a + ['\n'] + t;
      assert parts[1..][0] == parts[1];
      forall j | 0 <= j < |s| - 1 && s[j] == '\n'
        ensures s[j + 1] != '\n'
      {
        if j == |a| {
          assert s[j + 1] == t[0];
        } else if j > |a| {
          assert s[j] == t[j - |a| - 1] && s[j + 1] == t[j - |a|];
        }
      }
    }
  }

  /** The intended parse splits a join of key names at every plus sign. */
  lemma SplitsAtEveryPlus(parts: seq<string>)
    requires |parts| >= 1
    requires forall i :: 0 <= i < |parts| ==> parts[i] != [] && '+' !in parts[i] && '\n' !in parts[i]
    ensures KeyCombinationIntended(Join(parts, '+')) == Map(parts, LowerTrim)
  {
    JoinReplace(parts);
    JoinNoDoubleBreak(parts);
    SecondReplaceNoop(Join(parts, '\n'));
    SplitJoin(parts, '\n');
  }

  /** A plain key name holds no line break. */
  lemma PlainNoBreak(k: string)
    requires PlainKey(k)
    ensures '\n' !in k
  {
  }

  /** Plain key names are their own parses. */
  lemma PlainKeysParse(parts: seq<string>)
    requires forall i :: 0 <= i < |parts| ==> PlainKey(parts[i])
    ensures Map(parts, LowerTrim) == parts
  {
    var m := Map(parts, LowerTrim);
    forall i | 0 <= i < |parts|
      ensures m[i] == parts[i]
    {
      TrimLowerKey(parts[i]);
    }
  }

  /** A join of plain key names parses, as intended, into those names. */
  lemma IntendedParse(filter: string, parts: seq<string>)
    requires |parts| >= 1 && filter == Join(parts, '+')
    requires forall i :: 0 <= i < |parts| ==> parts[i] != [] && '+' !in parts[i] && PlainKey(parts[i])
    ensures KeyCombinationIntended(filter) == parts
  {
    forall i | 0 <= i < |parts|
      ensures '\n' !in parts[i]
    {
      PlainNoBreak(parts[i]);
    }
    SplitsAtEveryPlus(parts);
    PlainKeysParse(parts);
  }

  /** With every plus sign splitting, a three-key filter such as
      `'ctrl+shift+a'` parses as its three key names, which match when all
      three are pressed in that order. */
  lemma ThreeKeyComboIntended(filter: string, a: string, b: string, c: string)
    requires filter == a + "+" + b + "+" + c
    requires a != [] && b != [] && c != [] && '+' !in a && '+' !in b && '+' !in c
    requires PlainKey(a) && PlainKey(b) && PlainKey(c)
    ensures KeyCombinationIntended(filter) == [a, b, c]
    ensures ComboMatches(KeyCombinationIntended(filter), [a, b, c])
  {
    var parts := [a, b, c];
    assert parts[1..] == [b, c] && parts[1..][1..] == [c];
    assert Join(parts[1..][1..], '+') == c;
    assert Join(parts[1..], '+') == b + "+" + c;
    assert Join(parts, '+') == a + "+" + (b + "+" + c);
    assert Join(parts, '+') == filter;
    IntendedParse(filter, parts);
  }
}
