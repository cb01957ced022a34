/** The static array helpers of `Arr`: dotted-path access (`get`, `has`,
    `set`, `del`, `pull`, `update`, `updateKeys`), predicates over lists
    (`every`, `some`, `find`, `filter`, `matches`), key selection (`pick`,
    `omit`), the recursive `merge`, `flatten`, `columns` and `splice`.

    A by-reference array parameter is an in/out parameter here: the method
    takes the array and returns its new value. */
module Arr {
  import opened Php

  // ---------------------------------------------------------------------------
  // Accessibility and key tests

  /** `accessible`: arrays are (ArrayAccess objects are not modelled). */
  predicate Accessible(v: Value)
  {
    v.Arr?
  }

  /** `exists($array, $key)`: an array with that key, after key normalisation. */
  predicate Exists(a: Value, key: string)
  {
    Accessible(a) && Lookup(a.entries, NormKey(key)).Some?
  }

  /** The value stored under `key` in an array that has it. */
  function At(a: Value, key: string): Value
    requires Exists(a, key)
  {
    Lookup(a.entries, NormKey(key)).value
  }

  /** `wrap`: null is the empty array, an array is itself, anything else the
      one-element list holding it. */
  function Wrap(v: Value): (r: PArray)
    ensures v.Null? ==> r == []
    ensures v.Arr? ==> r == v.entries
    ensures !v.Null? && !v.Arr? ==> r == [Entry(IntKey(0), v)]
  {
    match v
    case Null => []
    case Arr(e) => e
    case _ => [Entry(IntKey(0), v)]
  }

  /** `strpos($key, '.')` is truthy: the key has a dot, and its first dot is
      not at position 0. */
  predicate DottedPath(key: string)
  {
    key != [] && key[0] != '.' && '.' in key
  }

  // ---------------------------------------------------------------------------
  // get and has

  /** Following `parts` from `cur`, one existing key at a time. */
  function Walk(cur: Value, parts: seq<string>, default: Value): Value
    decreases |parts|
  {
    if parts == [] then cur
    else if Exists(cur, parts[0]) then Walk(At(cur, parts[0]), parts[1..], default)
    else default
  }

  /** Every key along `parts` exists. */
  predicate Reaches(cur: Value, parts: seq<string>)
    decreases |parts|
  {
    parts == [] || (Exists(cur, parts[0]) && Reaches(At(cur, parts[0]), parts[1..]))
  }

  /** `get($array, $key, $default)`. */
  function GetSpec(a: Value, key: Option<string>, default: Value): Value
  {
    if !Accessible(a) then default
    else if key.None? then a
    else if Exists(a, key.value) then At(a, key.value)
    else if !DottedPath(key.value) then default
    else Walk(a, Split(key.value, '.'), default)
  }

  /** `has($array, $key)`. */
  predicate HasSpec(a: Value, key: Option<string>)
  {
    if !Truthy(a) || key.None? then false
    else if Exists(a, key.value) then true
    else if !DottedPath(key.value) then false
    else Reaches(a, Split(key.value, '.'))
  }

  /** A key that reaches somewhere walks to the same value whatever the default. */
  lemma {:induction false} WalkReaches(cur: Value, parts: seq<string>, d1: Value, d2: Value)
    ensures Reaches(cur, parts) ==> Walk(cur, parts, d1) == Walk(cur, parts, d2)
    ensures !Reaches(cur, parts) ==> Walk(cur, parts, d1) == d1
    decreases |parts|
  {
    if parts != [] && Exists(cur, parts[0]) {
      WalkReaches(At(cur, parts[0]), parts[1..], d1, d2);
    }
  }

  /** `has` says exactly whether `get` finds something: on a non-empty array,
      a key `has` denies yields the default, and a key it confirms yields a
      value that does not depend on the default. */
  lemma HasGet(a: Value, key: string, d1: Value, d2: Value)
    requires Accessible(a) && Truthy(a)
    ensures !HasSpec(a, Some(key)) ==> GetSpec(a, Some(key), d1) == d1
    ensures HasSpec(a, Some(key)) ==> GetSpec(a, Some(key), d1) == GetSpec(a, Some(key), d2)
  {
    if !Exists(a, key) && DottedPath(key) {
      WalkReaches(a, Split(key, '.'), d1, d2);
    }
  }

  /** `get`: the key as it is, else a walk along its dotted segments. */
  method Get(a: Value, key: Option<string>, default: Value) returns (r: Value)
    ensures r == GetSpec(a, key, default)
  {
    if !Accessible(a) {
      return default;
    }
    if key.None? {
      return a;
    }
    if Exists(a, key.value) {
      return At(a, key.value);
    }
    if !DottedPath(key.value) {
      return default;
    }
    var parts := Split(key.value, '.');
    var cur := a;
    var i := 0;
    while i < |parts|
      invariant 0 <= i <= |parts|
      invariant Walk(cur, parts[i..], default) == Walk(a, parts, default)
    {
      SuffixStep(parts, i);
      if Exists(cur, parts[i]) {
        cur := At(cur, parts[i]);
      } else {
        return default;
      }
      i := i + 1;
    }
    return cur;
  }

  /** `has`: the key as it is, else every dotted segment in turn. */
  method Has(a: Value, key: Option<string>) returns (r: bool)
    ensures r == HasSpec(a, key)
  {
    if !Truthy(a) || key.None? {
      return false;
    }
    if Exists(a, key.value) {
      return true;
    }
    if !DottedPath(key.value) {
      return false;
    }
    var parts := Split(key.value, '.');
    var cur := a;
    var i := 0;
    while i < |parts|
      invariant 0 <= i <= |parts|
      invariant Reaches(cur, parts[i..]) == Reaches(a, parts)
    {
      SuffixStep(parts, i);
      if Exists(cur, parts[i]) {
        cur := At(cur, parts[i]);
      } else {
        return false;
      }
      i := i + 1;
    }
    return true;
  }

  // ---------------------------------------------------------------------------
  // set

  /** The array an intermediate segment leads to: its value when that is an
      array; anything else (missing, null, a scalar) counts as empty. */
  function Child(a: PArray, part: string): PArray
  {
    match Lookup(a, NormKey(part))
    case Some(Arr(e)) => e
    case _ => []
  }

  /** The array at depth `j` along `parts`. */
  function Level(a: PArray, parts: seq<string>, j: nat): PArray
    requires j <= |parts|
  {
    if j == 0 then a else Child(Level(a, parts, j - 1), parts[j - 1])
  }

  /** The arrays at depths `0..i` along `parts`, outermost first. */
  function Levels(a: PArray, parts: seq<string>, i: nat): (ls: seq<PArray>)
    requires i < |parts|
    ensures |ls| == i + 1
    ensures forall j :: 0 <= j <= i ==> ls[j] == Level(a, parts, j)
  {
    if i == 0 then [a] else Levels(a, parts, i - 1) + [Level(a, parts, i)]
  }

  /** Writing `v` at the end of a path, creating or replacing intermediate arrays. */
  function SetPath(a: PArray, parts: seq<string>, v: Value): PArray
    requires |parts| >= 1
    decreases |parts|
  {
    var k := NormKey(parts[0]);
    if |parts| == 1 then Put(a, k, v)
    else Put(a, k, Arr(SetPath(Child(a, parts[0]), parts[1..], v)))
  }

  /** `set($array, $key, $value)`: a null key replaces the whole array;
      otherwise the path is walked down (intermediate arrays created as
      needed) and the value written at its end. */
  method Set(a: PArray, key: Option<string>, v: Value) returns (r: Value)
    ensures key.None? ==> r == v
    ensures key.Some? ==> r == Arr(SetPath(a, Split(key.value, '.'), v))
  {
    if key.None? {
      return v;
    }
    var parts := Split(key.value, '.');
    var levels := Descend(a, parts);
    var i := |parts| - 1;
    var cur := levels[i];
    cur := Put(cur, NormKey(parts[i]), v);
    assert parts[i..] == [parts[i]];
    while i > 0
      invariant 0 <= i < |parts|
      invariant cur == SetPath(Level(a, parts, i), parts[i..], v)
    {
      i := i - 1;
      SetPathStep(a, parts, i, v);
      cur := Put(levels[i], NormKey(parts[i]), Arr(cur));
    }
    return Arr(cur);
  }

  /** The arrays met on the way down a path (each reference `set` takes),
      outermost first, one per segment but the last. */
  method Descend(a: PArray, parts: seq<string>) returns (levels: seq<PArray>)
    requires |parts| >= 1
    ensures |levels| == |parts|
    ensures forall j :: 0 <= j < |parts| ==> levels[j] == Level(a, parts, j)
  {
    levels := [a];
    var cur := a;
    var i := 0;
    while i < |parts| - 1
      invariant 0 <= i <= |parts| - 1
      invariant levels == Levels(a, parts, i)
      invariant cur == levels[i]
    {
      cur := Child(cur, parts[i]);
      levels := levels + [cur];
      i := i + 1;
    }
  }

  /** One level of the write-back in `set`. */
  lemma SetPathStep(a: PArray, parts: seq<string>, i: nat, v: Value)
    requires i + 1 < |parts|
    ensures SetPath(Level(a, parts, i), parts[i..], v)
         == Put(Level(a, parts, i), NormKey(parts[i]), Arr(SetPath(Level(a, parts, i + 1), parts[i + 1..], v)))
  {
    assert parts[i..][1..] == parts[i + 1..];
  }

  /** Walking a path just written finds the value written. */
  lemma {:induction false} WalkSetPath(a: PArray, parts: seq<string>, v: Value, d: Value)
    requires |parts| >= 1
    ensures Walk(Arr(SetPath(a, parts, v)), parts, d) == v
    decreases |parts|
  {
    var r := SetPath(a, parts, v);
    assert Exists(Arr(r), parts[0]);
    if |parts| > 1 {
      WalkSetPath(Child(a, parts[0]), parts[1..], v, d);
    } else {
      assert parts[1..] == [];
    }
  }

  /** After `set(a, p, v)`, `get(a, p)` is `v`: for a key without dots, and for
      a dotted key that is not itself a top-level key of `a` and does not
      start with a dot. */
  lemma GetSet(a: PArray, p: string, v: Value, d: Value)
    requires '.' !in p || (DottedPath(p) && Lookup(a, NormKey(p)).None?)
    ensures GetSpec(Arr(SetPath(a, Split(p, '.'), v)), Some(p), d) == v
  {
    var parts := Split(p, '.');
    if '.' !in p {
      SplitWhole(p, '.');
    } else {
      var r := SetPath(a, parts, v);
      assert '.' !in parts[0] by { assert parts[0] in parts; }
      DottedStrKey(p);
      assert NormKey(parts[0]) != NormKey(p);
      assert Lookup(r, NormKey(p)).None?;
      WalkSetPath(a, parts, v, d);
    }
  }

  /** As written, a key starting with a dot is written by `set` but not found
      by `get`: `strpos` gives 0 for the leading dot, which `!` reads as "no dot". */
  lemma LeadingDotLost()
    ensures SetPath([], Split(".a", '.'), Int(1)) == [Entry(StrKey(""), Arr([Entry(StrKey("a"), Int(1))]))]
    ensures GetSpec(Arr(SetPath([], Split(".a", '.'), Int(1))), Some(".a"), Null) == Null
  {
    SplitLeadingDot();
    assert NormKey("") == StrKey("");
    assert NormKey("a") == StrKey("a");
    assert NormKey(".a") == StrKey(".a") by {
      DottedStrKey(".a");
    }
    assert !DottedPath(".a");
  }

  lemma SplitLeadingDot()
    ensures Split(".a", '.') == ["", "a"]
  {
    assert ".a"[1..] == "a";
    SplitWhole("a", '.');
  }

  /** `get` with the dot test meant (`strpos(...) === false`): the path is
      walked whenever the key holds a dot. */
  function GetIntended(a: Value, key: Option<string>, default: Value): Value
  {
    if !Accessible(a) then default
    else if key.None? then a
    else if Exists(a, key.value) then At(a, key.value)
    else if '.' !in key.value then default
    else Walk(a, Split(key.value, '.'), default)
  }

  /** With the intended dot test, `get` reads back what `set` wrote for every
      key that is not itself a top-level key, a leading dot included. */
  lemma GetSetIntended(a: PArray, p: string, v: Value, d: Value)
    requires '.' !in p || Lookup(a, NormKey(p)).None?
    ensures GetIntended(Arr(SetPath(a, Split(p, '.'), v)), Some(p), d) == v
  {
    var parts := Split(p, '.');
    if '.' !in p {
      SplitWhole(p, '.');
    } else {
      var r := SetPath(a, parts, v);
      assert '.' !in parts[0] by { assert parts[0] in parts; }
      DottedStrKey(p);
      assert NormKey(parts[0]) != NormKey(p);
      assert Lookup(r, NormKey(p)).None?;
      WalkSetPath(a, parts, v, d);
    }
  }

  /** A key text holding a dot is never an integer key. */
  lemma DottedStrKey(s: string)
    requires '.' in s
    ensures NormKey(s) == StrKey(s)
  {
    var i :| 0 <= i < |s| && s[i] == '.';
    assert !IsDigit(s[i]);
    assert i >= 1 ==> s[i] in s[1..];
    assert i >= 2 ==> s[i] in s[2..];
  }

  // ---------------------------------------------------------------------------
  // del, pull and update

  /** An intermediate segment `del` can go through: its value is an array. */
  predicate ArrayAt(a: PArray, part: string)
  {
    match Lookup(a, NormKey(part))
    case Some(Arr(_)) => true
    case _ => false
  }

  /** The first `i` segments of `parts` all lead to arrays. */
  predicate Descends(a: PArray, parts: seq<string>, i: nat)
    requires i <= |parts|
  {
    forall j :: 0 <= j < i ==> ArrayAt(Level(a, parts, j), parts[j])
  }

  /** Unsetting the end of a path; `None` when some intermediate segment is
      missing or not an array, where `del` returns without a change. */
  function DelPath(a: PArray, parts: seq<string>): Option<PArray>
    requires |parts| >= 1
    decreases |parts|
  {
    var k := NormKey(parts[0]);
    if |parts| == 1 then Some(Remove(a, k))
    else match Lookup(a, k)
      case Some(Arr(e)) =>
        (match DelPath(e, parts[1..])
         case Some(e') => Some(Put(a, k, Arr(e')))
         case None => None)
      case _ => None
  }

  /** `del($array, $key)`. */
  function DelSpec(a: PArray, key: string): PArray
  {
    if Exists(Arr(a), key) then Remove(a, NormKey(key))
    else match DelPath(a, Split(key, '.'))
      case Some(r) => r
      case None => a
  }

  /** The arrays met on the way down a path while each segment leads to an
      array; `ok` is false where `del` gives up. */
  method DescendArrays(a: PArray, parts: seq<string>) returns (levels: seq<PArray>, ok: bool)
    requires |parts| >= 1
    ensures ok ==> |levels| == |parts| && Descends(a, parts, |parts| - 1)
    ensures ok ==> forall j :: 0 <= j < |parts| ==> levels[j] == Level(a, parts, j)
    ensures !ok ==> DelPath(a, parts).None?
  {
    levels := [a];
    var i := 0;
    while i < |parts| - 1
      invariant 0 <= i <= |parts| - 1
      invariant levels == Levels(a, parts, i)
      invariant Descends(a, parts, i)
    {
      if !ArrayAt(levels[i], parts[i]) {
        DelStuck(a, parts, i);
        DelNoneUp(a, parts, i);
        return levels, false;
      }
      DescendsMore(a, parts, i);
      levels := levels + [Child(levels[i], parts[i])];
      i := i + 1;
    }
    return levels, true;
  }

  lemma DescendsMore(a: PArray, parts: seq<string>, i: nat)
    requires i < |parts| && Descends(a, parts, i)
    requires ArrayAt(Level(a, parts, i), parts[i])
    ensures Descends(a, parts, i + 1)
  {
  }

  /** A path that stops at a segment without an array below it deletes nothing. */
  lemma DelStuck(a: PArray, parts: seq<string>, i: nat)
    requires i + 1 < |parts|
    requires !ArrayAt(Level(a, parts, i), parts[i])
    ensures DelPath(Level(a, parts, i), parts[i..]).None?
  {
    assert parts[i..][0] == parts[i];
  }

  /** Giving up below a chain of arrays gives up for the whole path. */
  lemma {:induction false} DelNoneUp(a: PArray, parts: seq<string>, i: nat)
    requires i < |parts| && Descends(a, parts, i)
    requires DelPath(Level(a, parts, i), parts[i..]).None?
    ensures DelPath(a, parts).None?
    decreases i
  {
    if i == 0 {
      assert Level(a, parts, 0) == a && parts[0..] == parts;
    } else {
      assert ArrayAt(Level(a, parts, i - 1), parts[i - 1]);
      DelNoneStep(a, parts, i);
      assert Descends(a, parts, i - 1);
      DelNoneUp(a, parts, i - 1);
    }
  }

  /** Giving up one level down gives up at the level above. */
  lemma DelNoneStep(a: PArray, parts: seq<string>, i: nat)
    requires 0 < i < |parts| && ArrayAt(Level(a, parts, i - 1), parts[i - 1])
    requires DelPath(Level(a, parts, i), parts[i..]).None?
    ensures DelPath(Level(a, parts, i - 1), parts[i - 1..]).None?
  {
    var up := Level(a, parts, i - 1);
    assert Lookup(up, NormKey(parts[i - 1])) == Some(Arr(Level(a, parts, i)));
    assert parts[i - 1..][0] == parts[i - 1] && parts[i - 1..][1..] == parts[i..];
  }

  /** One level of the write-back in `del`. */
  lemma DelPathStep(a: PArray, parts: seq<string>, i: nat, inner: PArray)
    requires i + 1 < |parts|
    requires ArrayAt(Level(a, parts, i), parts[i])
    requires DelPath(Level(a, parts, i + 1), parts[i + 1..]) == Some(inner)
    ensures DelPath(Level(a, parts, i), parts[i..])
         == Some(Put(Level(a, parts, i), NormKey(parts[i]), Arr(inner)))
  {
    SuffixStep(parts, i);
  }

  /** `del`: an existing key as it is is unset; otherwise the path is walked
      while it meets arrays and its last segment unset. */
  method Del(a: PArray, key: string) returns (r: PArray)
    ensures r == DelSpec(a, key)
  {
    if Exists(Arr(a), key) {
      return Remove(a, NormKey(key));
    }
    var parts := Split(key, '.');
    var levels, ok := DescendArrays(a, parts);
    if !ok {
      return a;
    }
    var i := |parts| - 1;
    var cur := Remove(levels[i], NormKey(parts[i]));
    assert parts[i..] == [parts[i]];
    while i > 0
      invariant 0 <= i < |parts|
      invariant DelPath(Level(a, parts, i), parts[i..]) == Some(cur)
    {
      i := i - 1;
      DelPathStep(a, parts, i, cur);
      cur := Put(levels[i], NormKey(parts[i]), Arr(cur));
    }
    return cur;
  }

  /** Deleting a top-level key removes it and nothing else. */
  lemma DelTopLevel(a: PArray, key: string)
    requires Exists(Arr(a), key)
    ensures !Exists(Arr(DelSpec(a, key)), key)
    ensures forall k :: k != NormKey(key) ==> Lookup(DelSpec(a, key), k) == Lookup(a, k)
  {
  }

  /** A path whose parent is not reachable through arrays leaves the array as it was. */
  lemma DelUnreachable(a: PArray, key: string, i: nat)
    requires !Exists(Arr(a), key)
    requires i + 1 < |Split(key, '.')|
    requires Descends(a, Split(key, '.'), i)
    requires !ArrayAt(Level(a, Split(key, '.'), i), Split(key, '.')[i])
    ensures DelSpec(a, key) == a
  {
    DelStuck(a, Split(key, '.'), i);
    DelNoneUp(a, Split(key, '.'), i);
  }

  /** The levels below the first segment are the levels of the path's tail
      from the first child. */
  lemma {:induction false} LevelShift(a: PArray, parts: seq<string>, j: nat)
    requires 1 <= j <= |parts|
    ensures Level(a, parts, j) == Level(Child(a, parts[0]), parts[1..], j - 1)
    decreases j
  {
    if j > 1 {
      LevelShift(a, parts, j - 1);
      assert parts[1..][j - 2] == parts[j - 1];
    }
  }

  /** Unsetting the end of a path through arrays leaves no entry for the
      last segment at the last level. */
  lemma {:induction false} DelPathGone(a: PArray, parts: seq<string>, r: PArray)
    requires |parts| >= 1 && DelPath(a, parts) == Some(r)
    ensures Lookup(Level(r, parts, |parts| - 1), NormKey(parts[|parts| - 1])).None?
    decreases |parts|
  {
    if |parts| > 1 {
      var e, e' := DelPathCase(a, parts, r);
      DelPathGone(e, parts[1..], e');
      var n := |parts|;
      assert parts[1..][n - 2] == parts[n - 1];
      LevelBelow(r, parts, e', n - 1);
    }
  }

  /** Every key other than the path's own segment keeps its value, at every
      level on the path. */
  lemma {:induction false} DelPathKeeps(a: PArray, parts: seq<string>, r: PArray)
    requires |parts| >= 1 && DelPath(a, parts) == Some(r)
    ensures forall j, k :: 0 <= j < |parts| && k != NormKey(parts[j]) ==>
              Lookup(Level(r, parts, j), k) == Lookup(Level(a, parts, j), k)
    decreases |parts|
  {
    if |parts| > 1 {
      var e, e' := DelPathCase(a, parts, r);
      DelPathKeeps(e, parts[1..], e');
      forall j, k | 0 <= j < |parts| && k != NormKey(parts[j])
        ensures Lookup(Level(r, parts, j), k) == Lookup(Level(a, parts, j), k)
      {
        if j > 0 {
          assert parts[1..][j - 1] == parts[j];
          LevelBelow(r, parts, e', j);
          LevelBelow(a, parts, e, j);
        }
      }
    }
  }

  /** After unsetting the end of a path, walking the path finds nothing. */
  lemma {:induction false} DelPathWalk(a: PArray, parts: seq<string>, r: PArray, d: Value)
    requires |parts| >= 1 && DelPath(a, parts) == Some(r)
    ensures Walk(Arr(r), parts, d) == d
    decreases |parts|
  {
    if |parts| == 1 {
      assert parts[1..] == [];
    } else {
      var e, e' := DelPathCase(a, parts, r);
      DelPathWalk(e, parts[1..], e', d);
      assert Exists(Arr(r), parts[0]) && At(Arr(r), parts[0]) == Arr(e');
    }
  }

  /** A path of two or more segments that `del` can follow starts with an array. */
  lemma DelPathCase(a: PArray, parts: seq<string>, r: PArray) returns (e: PArray, e': PArray)
    requires |parts| >= 2 && DelPath(a, parts) == Some(r)
    ensures Lookup(a, NormKey(parts[0])) == Some(Arr(e)) && Child(a, parts[0]) == e
    ensures DelPath(e, parts[1..]) == Some(e')
    ensures r == Put(a, NormKey(parts[0]), Arr(e')) && Child(r, parts[0]) == e'
  {
    e := Lookup(a, NormKey(parts[0])).value.entries;
    e' := DelPath(e, parts[1..]).value;
  }

  lemma LevelBelow(r: PArray, parts: seq<string>, c: PArray, j: nat)
    requires 1 <= j <= |parts| && Child(r, parts[0]) == c
    ensures Level(r, parts, j) == Level(c, parts[1..], j - 1)
  {
    LevelShift(r, parts, j);
  }

  /** `del` on a path through arrays removes only the addressed leaf: `get`
      no longer finds the key, and every other key at every level on the
      path keeps its value. */
  lemma DelPathLeaf(a: PArray, key: string, d: Value)
    requires !Exists(Arr(a), key) && DelPath(a, Split(key, '.')).Some?
    ensures GetSpec(Arr(DelSpec(a, key)), Some(key), d) == d
    ensures forall j, k :: 0 <= j < |Split(key, '.')| && k != NormKey(Split(key, '.')[j]) ==>
              Lookup(Level(DelSpec(a, key), Split(key, '.'), j), k) == Lookup(Level(a, Split(key, '.'), j), k)
  {
    var parts := Split(key, '.');
    var r := DelSpec(a, key);
    DelPathGone(a, parts, r);
    DelPathKeeps(a, parts, r);
    DelPathWalk(a, parts, r, d);
    if '.' in key {
      DottedStrKey(key);
      assert NormKey(parts[0]) != NormKey(key) by {
        assert '.' !in parts[0] by { assert parts[0] in parts; }
      }
      assert Lookup(Level(r, parts, 0), NormKey(key)) == Lookup(Level(a, parts, 0), NormKey(key));
    } else {
      SplitWhole(key, '.');
    }
  }

  /** `pull`: the value `get` finds, and the array as `del` leaves it. */
  method Pull(a: PArray, key: string, default: Value) returns (v: Value, r: PArray)
    ensures v == GetSpec(Arr(a), Some(key), default)
    ensures r == DelSpec(a, key)
  {
    v := Get(Arr(a), Some(key), default);
    r := Del(a, key);
  }

  /** `update`: `set` of the callback applied to what `get` finds (null by default). */
  method Update(a: PArray, key: Option<string>, f: Value -> Value) returns (r: Value)
    ensures r == if key.None? then f(Arr(a))
                 else Arr(SetPath(a, Split(key.value, '.'), f(GetSpec(Arr(a), key, Null))))
  {
    var current := Get(Arr(a), key, Null);
    r := Set(a, key, f(current));
  }

  /** After `update(a, p, f)`, `get(a, p)` is `f` of what it was before, under
      the conditions of `GetSet`. */
  lemma GetUpdate(a: PArray, p: string, f: Value -> Value, d: Value)
    requires '.' !in p || (DottedPath(p) && Lookup(a, NormKey(p)).None?)
    ensures GetSpec(Arr(SetPath(a, Split(p, '.'), f(GetSpec(Arr(a), Some(p), Null)))), Some(p), d)
         == f(GetSpec(Arr(a), Some(p), Null))
  {
    GetSet(a, p, f(GetSpec(Arr(a), Some(p), Null)), d);
  }

  // ---------------------------------------------------------------------------
  // updateKeys

  /** What an old key is renamed to: a new key path, or a callback whose
      result (when it is an array) lists the keys and values to write. */
  datatype Rename = To(key: string) | Via(f: Value -> Value)

  /** The entries a renaming callback asks to write: `$newKey($value) ?: []`,
      of which `foreach` sees entries only when it is an array. */
  function Written(result: Value): PArray
  {
    if result.Arr? then result.entries else []
  }

  /** Writing each entry in turn at the path its key spells. */
  function SetEach(a: PArray, entries: PArray): PArray
    decreases |entries|
  {
    if entries == [] then a
    else SetEach(SetPath(a, Split(KeyText(entries[0].key), '.'), entries[0].val), entries[1..])
  }

  /** One renaming: when `has` finds the old key, its value is read, the key
      deleted, and the value written under the new key (or the callback's
      entries written). */
  function RenameOne(a: PArray, oldKey: string, to: Rename): PArray
  {
    if HasSpec(Arr(a), Some(oldKey)) then
      var v := GetSpec(Arr(a), Some(oldKey), Null);
      var rest := DelSpec(a, oldKey);
      match to
      case To(k) => SetPath(rest, Split(k, '.'), v)
      case Via(f) => SetEach(rest, Written(f(v)))
    else a
  }

  /** `updateKeys($array, $keys)`: the renamings applied in order. */
  function UpdateKeysSpec(a: PArray, keys: seq<(string, Rename)>): PArray
    decreases |keys|
  {
    if keys == [] then a else UpdateKeysSpec(RenameOne(a, keys[0].0, keys[0].1), keys[1..])
  }

  /** The inner loop of `updateKeys` over a callback's entries. */
  method WriteEach(a: PArray, entries: PArray) returns (r: PArray)
    ensures r == SetEach(a, entries)
  {
    r := a;
    var i := 0;
    while i < |entries|
      invariant 0 <= i <= |entries|
      invariant SetEach(r, entries[i..]) == SetEach(a, entries)
    {
      SuffixStep(entries, i);
      var next := Set(r, Some(KeyText(entries[i].key)), entries[i].val);
      r := next.entries;
      i := i + 1;
    }
  }

  /** `updateKeys`: for each old key `has` finds, `get`, `del`, then `set`. */
  method UpdateKeys(a: PArray, keys: seq<(string, Rename)>) returns (r: PArray)
    ensures r == UpdateKeysSpec(a, keys)
  {
    r := a;
    var i := 0;
    while i < |keys|
      invariant 0 <= i <= |keys|
      invariant UpdateKeysSpec(r, keys[i..]) == UpdateKeysSpec(a, keys)
    {
      SuffixStep(keys, i);
      var (oldKey, to) := keys[i];
      var found := Has(Arr(r), Some(oldKey));
      if found {
        var v := Get(Arr(r), Some(oldKey), Null);
        var rest := Del(r, oldKey);
        match to {
          case To(k) =>
            var next := Set(rest, Some(k), v);
            r := next.entries;
          case Via(f) =>
            r := WriteEach(rest, Written(f(v)));
        }
      }
      i := i + 1;
    }
  }

  /** Renaming a top-level key to another plain key moves its value: the new
      key holds it, the old key is gone, and every other key is unchanged. */
  lemma RenameTopLevel(a: PArray, oldKey: string, newKey: string, v: Value)
    requires '.' !in oldKey && '.' !in newKey && NormKey(oldKey) != NormKey(newKey)
    requires Lookup(a, NormKey(oldKey)) == Some(v)
    ensures Lookup(UpdateKeysSpec(a, [(oldKey, To(newKey))]), NormKey(newKey)) == Some(v)
    ensures Lookup(UpdateKeysSpec(a, [(oldKey, To(newKey))]), NormKey(oldKey)).None?
    ensures forall k :: k != NormKey(oldKey) && k != NormKey(newKey) ==>
              Lookup(UpdateKeysSpec(a, [(oldKey, To(newKey))]), k) == Lookup(a, k)
  {
    assert a != [];
    assert HasSpec(Arr(a), Some(oldKey));
    assert GetSpec(Arr(a), Some(oldKey), Null) == v;
    var rest := Remove(a, NormKey(oldKey));
    assert DelSpec(a, oldKey) == rest;
    SplitWhole(newKey, '.');
    var r := Put(rest, NormKey(newKey), v);
    assert SetPath(rest, Split(newKey, '.'), v) == r;
    assert RenameOne(a, oldKey, To(newKey)) == r;
    assert UpdateKeysSpec(a, [(oldKey, To(newKey))]) == UpdateKeysSpec(r, []);
  }

  /** A key `has` does not find leaves the array as it was. */
  lemma RenameMissing(a: PArray, oldKey: string, to: Rename)
    requires !HasSpec(Arr(a), Some(oldKey))
    ensures UpdateKeysSpec(a, [(oldKey, to)]) == a
  {
    assert UpdateKeysSpec(a, [(oldKey, to)]) == RenameOne(a, oldKey, to);
  }

  // ---------------------------------------------------------------------------
  // every, some, find, filter and matches

  /** A predicate argument: a callable taking value and key, or an array of
      key/value pairs every checked array must hold (`matches`). */
  datatype Predicate = Callback(f: (Value, Key) -> bool) | Match(pairs: PArray)

  /** The closure `matches($predicate)` returns, with `!=` read as strict
      inequality. */
  predicate Matches(v: Value, pairs: PArray)
  {
    Accessible(v) && forall e :: e in pairs ==> Lookup(v.entries, e.key) == Some(e.val)
  }

  predicate Satisfies(p: Predicate, v: Value, k: Key)
  {
    match p
    case Callback(f) => f(v, k)
    case Match(pairs) => Matches(v, pairs)
  }

  /** The loop inside the `matches` closure. */
  method MatchesAll(v: Value, pairs: PArray) returns (b: bool)
    ensures b == Matches(v, pairs)
  {
    if !Accessible(v) {
      return false;
    }
    var i := 0;
    while i < |pairs|
      invariant 0 <= i <= |pairs|
      invariant forall j :: 0 <= j < i ==> Lookup(v.entries, pairs[j].key) == Some(pairs[j].val)
    {
      if Lookup(v.entries, pairs[i].key).None? {
        return false;
      }
      if Lookup(v.entries, pairs[i].key) != Some(pairs[i].val) {
        return false;
      }
      i := i + 1;
    }
    return true;
  }

  /** Calling the callback `every`, `some` and `find` build from a predicate. */
  method Call(p: Predicate, v: Value, k: Key) returns (b: bool)
    ensures b == Satisfies(p, v, k)
  {
    match p {
      case Callback(f) => b := f(v, k);
      case Match(pairs) => b := MatchesAll(v, pairs);
    }
  }

  /** `every`: no entry fails the predicate. */
  method Every(a: PArray, p: Predicate) returns (b: bool)
    ensures b <==> forall i :: 0 <= i < |a| ==> Satisfies(p, a[i].val, a[i].key)
  {
    var i := 0;
    while i < |a|
      invariant 0 <= i <= |a|
      invariant forall j :: 0 <= j < i ==> Satisfies(p, a[j].val, a[j].key)
    {
      var ok := Call(p, a[i].val, a[i].key);
      if !ok {
        return false;
      }
      i := i + 1;
    }
    return true;
  }

  /** `some`: an entry passes the predicate. */
  method Any(a: PArray, p: Predicate) returns (b: bool)
    ensures b <==> exists i :: 0 <= i < |a| && Satisfies(p, a[i].val, a[i].key)
  {
    var i := 0;
    while i < |a|
      invariant 0 <= i <= |a|
      invariant forall j :: 0 <= j < i ==> !Satisfies(p, a[j].val, a[j].key)
    {
      var ok := Call(p, a[i].val, a[i].key);
      if ok {
        return true;
      }
      i := i + 1;
    }
    return false;
  }

  /** `find`: the value of the first entry passing the predicate, null when none does. */
  method Find(a: PArray, p: Predicate) returns (r: Value)
    ensures (forall i :: 0 <= i < |a| ==> !Satisfies(p, a[i].val, a[i].key)) ==> r == Null
    ensures (exists i :: 0 <= i < |a| && Satisfies(p, a[i].val, a[i].key)) ==>
              exists i :: 0 <= i < |a| && Satisfies(p, a[i].val, a[i].key) && r == a[i].val
                       && forall j :: 0 <= j < i ==> !Satisfies(p, a[j].val, a[j].key)
  {
    var i := 0;
    while i < |a|
      invariant 0 <= i <= |a|
      invariant forall j :: 0 <= j < i ==> !Satisfies(p, a[j].val, a[j].key)
    {
      var ok := Call(p, a[i].val, a[i].key);
      if ok {
        return a[i].val;
      }
      i := i + 1;
    }
    return Null;
  }

  /** `array_filter`: the entries `keep` accepts, in order, keys kept. */
  function FilterBy(a: PArray, keep: Entry -> bool): (r: PArray)
    ensures forall e :: e in r <==> e in a && keep(e)
    ensures |r| <= |a|
  {
    if a == [] then []
    else
      assert a == [a[0]] + a[1..];
      (if keep(a[0]) then [a[0]] else []) + FilterBy(a[1..], keep)
  }

  /** `filter`: without a predicate, the truthy values; otherwise the entries
      passing it. */
  function Filter(a: PArray, p: Option<Predicate>): PArray
  {
    match p
    case None => FilterBy(a, (e: Entry) => Truthy(e.val))
    case Some(q) => FilterBy(a, (e: Entry) => Satisfies(q, e.val, e.key))
  }

  /** `filter` keeps exactly the entries that pass, and only those. */
  lemma FilterKeeps(a: PArray, p: Option<Predicate>)
    ensures forall e :: e in Filter(a, p) <==>
              e in a && (if p.None? then Truthy(e.val) else Satisfies(p.value, e.val, e.key))
  {
  }

  // ---------------------------------------------------------------------------
  // pick and omit

  /** What `pick` and `omit` select by: a callable on value and key, or key names. */
  datatype Selector = Select(f: (Value, Key) -> bool) | Names(names: seq<string>)

  /** Whether an entry is selected: for names, `array_flip` makes each name a key. */
  predicate Selected(sel: Selector, e: Entry)
  {
    match sel
    case Select(f) => f(e.val, e.key)
    case Names(names) => exists n :: n in names && NormKey(n) == e.key
  }

  /** Entries of `a` whose key is (or is not) among `ks` (`array_intersect_key`,
      `array_diff_key`). */
  function KeysIn(a: PArray, ks: seq<Key>, inside: bool): (r: PArray)
    ensures forall e :: e in r <==> e in a && (e.key in ks <==> inside)
    ensures |r| <= |a|
  {
    FilterBy(a, (e: Entry) => (e.key in ks) == inside)
  }

  /** `pick`: the selected entries, keys and order kept. */
  function Pick(a: PArray, sel: Selector): PArray
  {
    match sel
    case Select(f) => FilterBy(a, (e: Entry) => f(e.val, e.key))
    case Names(names) => KeysIn(a, NameKeys(names), true)
  }

  /** `omit`: everything `pick` would not return. */
  function Omit(a: PArray, sel: Selector): PArray
  {
    match sel
    case Select(f) => KeysIn(a, Keys(FilterBy(a, (e: Entry) => f(e.val, e.key))), false)
    case Names(names) => KeysIn(a, NameKeys(names), false)
  }

  function NameKeys(names: seq<string>): (ks: seq<Key>)
    ensures forall k :: k in ks <==> exists n :: n in names && NormKey(n) == k
  {
    if names == [] then []
    else
      assert forall n :: n in names <==> n == names[0] || n in names[1..];
      [NormKey(names[0])] + NameKeys(names[1..])
  }

  /** An entry is among the keys of a sub-array of `a` exactly when it is in
      that sub-array, for an array with distinct keys. */
  lemma KeyOfFiltered(a: PArray, keep: Entry -> bool, e: Entry)
    requires Distinct(a) && e in a
    ensures e.key in Keys(FilterBy(a, keep)) <==> keep(e)
  {
    var r := FilterBy(a, keep);
    if e.key in Keys(r) {
      var i :| 0 <= i < |Keys(r)| && Keys(r)[i] == e.key;
      KeysIndex(r, i);
      assert r[i] in a;
      SameKeySameEntry(a, r[i], e);
    }
    if keep(e) {
      InKeys(r, e);
    }
  }

  lemma SameKeySameEntry(a: PArray, d: Entry, e: Entry)
    requires Distinct(a) && d in a && e in a && d.key == e.key
    ensures d == e
  {
    var i :| 0 <= i < |a| && a[i] == d;
    var j :| 0 <= j < |a| && a[j] == e;
    KeysIndex(a, i);
    KeysIndex(a, j);
  }

  lemma InKeys(a: PArray, e: Entry)
    requires e in a
    ensures e.key in Keys(a)
  {
    var i :| 0 <= i < |a| && a[i] == e;
    KeysIndex(a, i);
  }

  /** `pick` and `omit` split an array with distinct keys: every entry lands
      in exactly one of them. */
  lemma PickOmitPartition(a: PArray, sel: Selector)
    requires Distinct(a)
    ensures forall e :: e in a ==> (e in Pick(a, sel) <==> Selected(sel, e))
    ensures forall e :: e in a ==> (e in Omit(a, sel) <==> !Selected(sel, e))
    ensures forall e :: e in Pick(a, sel) || e in Omit(a, sel) ==> e in a
  {
    match sel {
      case Select(f) =>
        forall e | e in a
          ensures e in Omit(a, sel) <==> !f(e.val, e.key)
        {
          KeyOfFiltered(a, (d: Entry) => f(d.val, d.key), e);
        }
      case Names(names) =>
    }
  }

  // ---------------------------------------------------------------------------
  // merge

  /** One entry of the second array merged into the first: a key set in
      both appends when it is an integer, merges recursively when both values
      are arrays, and is overwritten otherwise; a key not set is written. */
  function MergeEntry(r: PArray, e: Entry): PArray
    decreases e, 0
  {
    if IsSet(r, e.key) then
      if e.key.IntKey? then Append(r, e.val)
      else
        var cur := Lookup(r, e.key).value;
        if Accessible(e.val) && Accessible(cur) then Put(r, e.key, Arr(MergeSpec(cur.entries, e.val.entries)))
        else Put(r, e.key, e.val)
    else Put(r, e.key, e.val)
  }

  /** `merge($array1, $array2)`: every entry of the second merged in turn. */
  function MergeSpec(a1: PArray, a2: PArray): PArray
    decreases a2, 1
  {
    if a2 == [] then a1 else MergeSpec(MergeEntry(a1, a2[0]), a2[1..])
  }

  /** `merge`: the loop over the second array, recursing into nested arrays. */
  method Merge(a1: PArray, a2: PArray) returns (r: PArray)
    ensures r == MergeSpec(a1, a2)
    decreases Arr(a2)
  {
    r := a1;
    var i := 0;
    while i < |a2|
      invariant 0 <= i <= |a2|
      invariant MergeSpec(r, a2[i..]) == MergeSpec(a1, a2)
    {
      SuffixStep(a2, i);
      var e := a2[i];
      if IsSet(r, e.key) {
        if e.key.IntKey? {
          r := Append(r, e.val);
        } else {
          var cur := Lookup(r, e.key).value;
          if Accessible(e.val) && Accessible(cur) {
            assert e.val == Arr(e.val.entries) && e in a2;
            var inner := Merge(cur.entries, e.val.entries);
            r := Put(r, e.key, Arr(inner));
          } else {
            r := Put(r, e.key, e.val);
          }
        }
      } else {
        r := Put(r, e.key, e.val);
      }
      i := i + 1;
    }
  }

  /** Merging never moves or drops a key of the first array: its keys stay a
      prefix of the result's. */
  lemma {:induction false} MergeKeepsKeys(a1: PArray, a2: PArray)
    ensures Keys(a1) <= Keys(MergeSpec(a1, a2))
    decreases |a2|
  {
    if a2 != [] {
      var r := MergeEntry(a1, a2[0]);
      assert Keys(a1) <= Keys(r);
      MergeKeepsKeys(r, a2[1..]);
    }
  }

  /** Looking up a key already present is unaffected by appending. */
  lemma {:induction false} LookupAppendKnown(a: PArray, v: Value, k: Key)
    requires k in Keys(a)
    ensures Lookup(Append(a, v), k) == Lookup(a, k)
  {
    LookupAppendOther(a, Entry(IntKey(NextIndex(a)), v), k);
  }

  /** A key of the first array that the second does not have keeps its value. */
  lemma {:induction false} MergeUntouched(a1: PArray, a2: PArray, k: Key)
    requires k in Keys(a1) && k !in Keys(a2)
    ensures Lookup(MergeSpec(a1, a2), k) == Lookup(a1, k)
    decreases |a2|
  {
    if a2 != [] {
      assert k != a2[0].key && Keys(a2)[1..] == Keys(a2[1..]);
      var r := MergeEntry(a1, a2[0]);
      if IsSet(a1, a2[0].key) && a2[0].key.IntKey? {
        LookupAppendKnown(a1, a2[0].val, k);
      }
      assert Lookup(r, k) == Lookup(a1, k);
      MergeKeepsKeys(a1, [a2[0]]);
      assert MergeSpec(a1, [a2[0]]) == r;
      MergeUntouched(r, a2[1..], k);
    }
  }

  /** The value a string key of the second array ends up with: merged with
      the first array's value when both are arrays, the second's otherwise. */
  function MergedValue(a1: PArray, s: string, w: Value): Value
  {
    var k := StrKey(s);
    if IsSet(a1, k) && Accessible(w) && Accessible(Lookup(a1, k).value)
    then Arr(MergeSpec(Lookup(a1, k).value.entries, w.entries))
    else w
  }

  /** A string key of the second array (keys distinct) holds `MergedValue`. */
  lemma {:induction false} MergeStrKey(a1: PArray, a2: PArray, s: string, w: Value)
    requires Distinct(a2) && Entry(StrKey(s), w) in a2
    ensures Lookup(MergeSpec(a1, a2), StrKey(s)) == Some(MergedValue(a1, s, w))
    decreases |a2|
  {
    var k := StrKey(s);
    var r := MergeEntry(a1, a2[0]);
    DistinctTail(a2);
    assert Keys(a2)[1..] == Keys(a2[1..]);
    DistinctHead(a2);
    if a2[0] == Entry(k, w) {
      assert Lookup(r, k) == Some(MergedValue(a1, s, w));
      MergeUntouched(r, a2[1..], k);
    } else {
      assert Entry(k, w) in a2[1..];
      InKeys(a2[1..], Entry(k, w));
      if IsSet(a1, a2[0].key) && a2[0].key.IntKey? {
        if k in Keys(a1) {
          LookupAppendKnown(a1, a2[0].val, k);
        } else {
          LookupAppendOther(a1, Entry(IntKey(NextIndex(a1)), a2[0].val), k);
        }
      }
      assert Lookup(r, k) == Lookup(a1, k);
      assert MergedValue(r, s, w) == MergedValue(a1, s, w);
      MergeStrKey(r, a2[1..], s, w);
    }
  }

  /** The first key of an array with distinct keys does not recur. */
  lemma DistinctHead(a: PArray)
    requires Distinct(a) && a != []
    ensures a[0].key !in Keys(a[1..])
  {
    forall j | 0 <= j < |a| - 1
      ensures Keys(a[1..])[j] != a[0].key
    {
      KeysIndex(a[1..], j);
      KeysIndex(a, 0);
      KeysIndex(a, j + 1);
    }
  }

  lemma ValuesCons(a: PArray)
    requires a != []
    ensures Values(a) == [a[0].val] + Values(a[1..])
  {
  }

  /** Values of a list appended after the array's own values. */
  lemma ValuesAppend(a: PArray, v: Value)
    ensures Values(Append(a, v)) == Values(a) + [v]
  {
  }

  /** An integer key already set appends. */
  lemma MergeEntryAppend(r: PArray, e: Entry)
    requires e.key.IntKey? && IsSet(r, e.key)
    ensures MergeEntry(r, e) == Append(r, e.val)
  {
  }

  /** Keys set before an append stay set. */
  lemma AppendKeepsSet(a: PArray, v: Value, b: PArray)
    requires forall e :: e in b ==> e.key.IntKey? && IsSet(a, e.key)
    ensures forall e :: e in b ==> e.key.IntKey? && IsSet(Append(a, v), e.key)
  {
    forall e | e in b
      ensures IsSet(Append(a, v), e.key)
    {
      LookupAppendKnown(a, v, e.key);
    }
  }

  /** When every key of the second array is an integer already set in the
      first, merging appends the second's values after the first's (as when
      two lists of classes are merged). */
  lemma {:induction false} MergeAppendsList(a1: PArray, a2: PArray)
    requires forall e :: e in a2 ==> e.key.IntKey? && IsSet(a1, e.key)
    ensures Values(MergeSpec(a1, a2)) == Values(a1) + Values(a2)
    decreases |a2|
  {
    if a2 != [] {
      var r := Append(a1, a2[0].val);
      assert MergeSpec(a1, a2) == MergeSpec(r, a2[1..]) by {
        assert a2[0] in a2;
        MergeEntryAppend(a1, a2[0]);
      }
      assert Values(MergeSpec(r, a2[1..])) == Values(r) + Values(a2[1..]) by {
        assert forall e :: e in a2[1..] ==> e in a2;
        AppendKeepsSet(a1, a2[0].val, a2[1..]);
        MergeAppendsList(r, a2[1..]);
      }
      ValuesAppend(a1, a2[0].val);
      ValuesCons(a2);
      Regroup(Values(a1), [a2[0].val], Values(a2[1..]));
    }
  }

  // ---------------------------------------------------------------------------
  // flatten

  /** `flatten($array, $depth)`: the values in order, nested arrays spliced in;
      at depth 1 a nested array contributes its values as they are, at any
      other depth its own flattening one level shallower (so depth 0, and any
      depth below 1, flattens completely). */
  function Flat(a: PArray, depth: int): seq<Value>
    decreases a, 1
  {
    if a == [] then [] else Item(a[0], depth) + Flat(a[1..], depth)
  }

  /** What one item contributes to the result of `flatten`. */
  function Item(e: Entry, depth: int): seq<Value>
    decreases e, 0
  {
    if !e.val.Arr? then [e.val]
    else if depth == 1 then Values(e.val.entries)
    else Flat(e.val.entries, depth - 1)
  }

  /** `flatten`: the loop over the items, recursing into nested arrays. */
  method Flatten(a: PArray, depth: int) returns (r: seq<Value>)
    ensures r == Flat(a, depth)
    decreases Arr(a)
  {
    r := [];
    var i := 0;
    while i < |a|
      invariant 0 <= i <= |a|
      invariant r + Flat(a[i..], depth) == Flat(a, depth)
    {
      SuffixStep(a, i);
      assert Flat(a[i..], depth) == Item(a[i], depth) + Flat(a[i + 1..], depth);
      var item := a[i].val;
      var piece: seq<Value>;
      if !item.Arr? {
        piece := [item];
      } else if depth == 1 {
        piece := Values(item.entries);
      } else {
        assert item == Arr(item.entries) && a[i] in a;
        piece := Flatten(item.entries, depth - 1);
      }
      assert piece == Item(a[i], depth);
      assert (r + piece) + Flat(a[i + 1..], depth) == r + (piece + Flat(a[i + 1..], depth));
      r := r + piece;
      i := i + 1;
    }
  }

  /** The scalar leaves of an array, at any nesting depth, in order. */
  function Leaves(a: PArray): seq<Value>
    decreases a, 1
  {
    if a == [] then [] else EntryLeaves(a[0]) + Leaves(a[1..])
  }

  function EntryLeaves(e: Entry): seq<Value>
    decreases e, 0
  {
    if e.val.Arr? then Leaves(e.val.entries) else [e.val]
  }

  /** The leaves of a list of values, in order. */
  function LeavesOf(vs: seq<Value>): seq<Value>
  {
    if vs == [] then []
    else (if vs[0].Arr? then Leaves(vs[0].entries) else [vs[0]]) + LeavesOf(vs[1..])
  }

  lemma {:induction false} LeavesOfAppend(xs: seq<Value>, ys: seq<Value>)
    ensures LeavesOf(xs + ys) == LeavesOf(xs) + LeavesOf(ys)
  {
    if xs != [] {
      assert (xs + ys)[0] == xs[0] && (xs + ys)[1..] == xs[1..] + ys;
      LeavesOfAppend(xs[1..], ys);
    } else {
      assert xs + ys == ys;
    }
  }

  lemma {:induction false} LeavesOfValues(a: PArray)
    ensures LeavesOf(Values(a)) == Leaves(a)
  {
    if a != [] {
      assert Values(a)[1..] == Values(a[1..]);
      LeavesOfValues(a[1..]);
    }
  }

  /** Flattening, to any depth, keeps the scalar leaves in order: none is
      lost, duplicated or moved. */
  lemma {:induction false} FlatLeaves(a: PArray, depth: int)
    ensures LeavesOf(Flat(a, depth)) == Leaves(a)
    decreases a, 1
  {
    if a != [] {
      ItemLeaves(a[0], depth);
      FlatLeaves(a[1..], depth);
      LeavesOfAppend(Item(a[0], depth), Flat(a[1..], depth));
    }
  }

  lemma {:induction false} ItemLeaves(e: Entry, depth: int)
    ensures LeavesOf(Item(e, depth)) == EntryLeaves(e)
    decreases e, 0
  {
    if e.val.Arr? {
      if depth == 1 {
        LeavesOfValues(e.val.entries);
      } else {
        FlatLeaves(e.val.entries, depth - 1);
      }
    } else {
      assert [e.val][1..] == [];
      assert LeavesOf([e.val]) == [e.val] + [];
    }
  }

  /** Below depth 1, flattening leaves no array in the result. */
  lemma {:induction false} FlatNoArrays(a: PArray, depth: int)
    requires depth < 1
    ensures forall v :: v in Flat(a, depth) ==> !v.Arr?
    decreases a, 1
  {
    if a != [] {
      ItemNoArrays(a[0], depth);
      FlatNoArrays(a[1..], depth);
    }
  }

  lemma {:induction false} ItemNoArrays(e: Entry, depth: int)
    requires depth < 1
    ensures forall v :: v in Item(e, depth) ==> !v.Arr?
    decreases e, 0
  {
    if e.val.Arr? {
      FlatNoArrays(e.val.entries, depth - 1);
    }
  }

  /** A list of scalars is its own list of leaves. */
  lemma {:induction false} LeavesOfScalars(vs: seq<Value>)
    requires forall v :: v in vs ==> !v.Arr?
    ensures LeavesOf(vs) == vs
  {
    if vs != [] {
      assert vs[0] in vs;
      assert forall v :: v in vs[1..] ==> v in vs;
      LeavesOfScalars(vs[1..]);
      assert vs == [vs[0]] + vs[1..];
    }
  }

  /** Complete flattening (depth 0, or any depth below 1) yields exactly the
      leaves, in order. */
  lemma FullFlatten(a: PArray, depth: int)
    requires depth < 1
    ensures Flat(a, depth) == Leaves(a)
  {
    FlatNoArrays(a, depth);
    LeavesOfScalars(Flat(a, depth));
    FlatLeaves(a, depth);
  }

  /** Flattening to depth 1 opens the top-level arrays by one level: the
      result holds exactly the top-level scalars and the values of the
      top-level arrays. */
  lemma {:induction false} FlatOne(a: PArray)
    ensures forall v :: v in Flat(a, 1) <==>
              exists i :: 0 <= i < |a| && (if a[i].val.Arr? then v in Values(a[i].val.entries) else v == a[i].val)
  {
    if a != [] {
      FlatOne(a[1..]);
      var head := Item(a[0], 1);
      assert Flat(a, 1) == head + Flat(a[1..], 1);
      forall v | v in Flat(a, 1)
        ensures exists i :: 0 <= i < |a| && (if a[i].val.Arr? then v in Values(a[i].val.entries) else v == a[i].val)
      {
        if v in head {
          assert 0 <= 0 < |a|;
        } else {
          var i :| 0 <= i < |a[1..]| && (if a[1..][i].val.Arr? then v in Values(a[1..][i].val.entries) else v == a[1..][i].val);
          assert a[1..][i] == a[i + 1];
        }
      }
      forall v | exists i :: 0 <= i < |a| && (if a[i].val.Arr? then v in Values(a[i].val.entries) else v == a[i].val)
        ensures v in Flat(a, 1)
      {
        var i :| 0 <= i < |a| && (if a[i].val.Arr? then v in Values(a[i].val.entries) else v == a[i].val);
        if i > 0 {
          assert a[1..][i - 1] == a[i];
        }
      }
    }
  }

  // ---------------------------------------------------------------------------
  // columns

  function Min(x: int, y: int): int
  {
    if x <= y then x else y
  }

  function Concat(xs: seq<seq<Value>>): seq<Value>
  {
    if xs == [] then [] else xs[0] + Concat(xs[1..])
  }

  lemma {:induction false} ConcatSnoc(xs: seq<seq<Value>>, y: seq<Value>)
    ensures Concat(xs + [y]) == Concat(xs) + y
  {
    if xs != [] {
      assert (xs + [y])[1..] == xs[1..] + [y];
      ConcatSnoc(xs[1..], y);
    } else {
      assert [y][1..] == [];
    }
  }

  /** `array_chunk($array, $size)`: consecutive pieces of `size` values, the
      last one possibly shorter. */
  function Chunk(a: seq<Value>, size: int): seq<seq<Value>>
    requires size > 0
    decreases |a|
  {
    if a == [] then []
    else if |a| <= size then [a]
    else [a[..size]] + Chunk(a[size..], size)
  }

  /** A list of `m` times `size` values chunks into `m` full pieces. */
  lemma {:induction false} ChunkExact(a: seq<Value>, size: int, m: nat)
    requires size > 0 && |a| == m * size
    ensures |Chunk(a, size)| == m && Concat(Chunk(a, size)) == a
    ensures forall i :: 0 <= i < m ==> |Chunk(a, size)[i]| == size
    decreases m
  {
    if m == 0 {
    } else if m == 1 {
      assert Chunk(a, size) == [a];
    } else {
      assert |a[size..]| == (m - 1) * size;
      ChunkExact(a[size..], size, m - 1);
      assert a == a[..size] + a[size..];
    }
  }

  /** Division pinned down by a quotient and remainder in range. */
  lemma DivMod(x: int, k: int, d: int, r: int)
    requires k > 0 && 0 <= r < k && x == k * d + r
    ensures x / k == d && x % k == r
  {
    var q, m := x / k, x % k;
    assert x == k * q + m;
    assert k * (d - q) == m - r;
    MulSign(k, d - q);
  }

  /** A positive factor keeps a product at least as far from zero as the factor. */
  lemma MulSign(k: int, m: int)
    requires k > 0
    ensures m >= 1 ==> k * m >= k
    ensures m <= -1 ==> k * m <= -k
  {
  }

  lemma MulMono(i: nat, k: nat, q: nat)
    requires i <= k
    ensures i * q <= k * q
  {
  }

  /** Offset of column `i` when the first `rem` columns hold one value more. */
  function ColumnStart(i: nat, q: nat, rem: nat): nat
  {
    i * q + Min(i, rem)
  }

  /** The size the design gives column `i` of `k`. */
  function ColumnSize(n: nat, k: int, i: nat): nat
    requires k > 0
  {
    n / k + (if i < n % k then 1 else 0)
  }

  /** `columns($array, $columns)` on a list: with `k` the smaller of the
      count and `$columns`, a zero `k` divides by zero and a negative one
      either gives no columns or (when it divides the count) makes
      `array_chunk` reject its size; otherwise the values are cut, in order,
      into `k` columns whose sizes differ by at most one, the longer first. */
  method Columns(a: seq<Value>, columns: int) returns (r: Outcome<seq<seq<Value>>>)
    ensures Min(|a|, columns) == 0 ==> r == Thrown("DivisionByZeroError")
    ensures Min(|a|, columns) < 0 ==>
              r == if |a| % -Min(|a|, columns) == 0 then Thrown("ValueError") else Done([])
    ensures Min(|a|, columns) > 0 ==>
              r.Done? && |r.value| == Min(|a|, columns) && Concat(r.value) == a
              && forall i :: 0 <= i < |r.value| ==> |r.value[i]| == ColumnSize(|a|, Min(|a|, columns), i)
  {
    var n := |a|;
    var k := Min(n, columns);
    if k == 0 {
      return Thrown("DivisionByZeroError");
    }
    if k < 0 {
      // ceil of a non-positive quotient, and PHP's remainder, which takes the
      // sign of the (non-negative) count
      var rows := -(n / -k);
      var remainder := n % -k;
      if remainder == 0 {
        // array_chunk with a size below 1
        return Thrown("ValueError");
      }
      return Done([]);
    }
    var cols := Balanced(a, k);
    return Done(cols);
  }

  /** The positive case of `columns`: `array_chunk` when `k` divides the
      count, otherwise the loop of `array_slice` calls. */
  method Balanced(a: seq<Value>, k: int) returns (cols: seq<seq<Value>>)
    requires 0 < k <= |a|
    ensures |cols| == k && Concat(cols) == a
    ensures forall i :: 0 <= i < k ==> |cols[i]| == ColumnSize(|a|, k, i)
  {
    var n := |a|;
    var q := n / k;
    var rem := n % k;
    var rows := (n + k - 1) / k;
    if rem == 0 {
      DivMod(n + k - 1, k, q, k - 1);
      ChunkExact(a, rows, k);
      return Chunk(a, rows);
    }
    DivMod(n + k - 1, k, q + 1, rem - 1);
    DivModOf(n, k);
    cols := Slices(a, k, rows, rem);
  }

  /** The loop of `columns` when `k` does not divide the count: column `i`
      is the slice at `i * rows - max(i - rem, 0)` of `rows` values, one
      fewer from column `rem` on. */
  method Slices(a: seq<Value>, k: int, rows: int, rem: int) returns (cols: seq<seq<Value>>)
    requires 0 < rem < k && rows >= 1 && |a| == k * (rows - 1) + rem
    ensures |cols| == k && Concat(cols) == a
    ensures forall i :: 0 <= i < k ==> |cols[i]| == ColumnSize(|a|, k, i)
  {
    var n := |a|;
    ghost var q := rows - 1;
    cols := [];
    var i := 0;
    while i < k
      invariant 0 <= i <= k && |cols| == i
      invariant ColumnStart(i, q, rem) <= n
      invariant Concat(cols) == a[..ColumnStart(i, q, rem)]
      invariant forall j :: 0 <= j < i ==> |cols[j]| == ColumnSize(n, k, j)
    {
      var offset := i * rows - (if i - rem > 0 then i - rem else 0);
      var length := rows - (if i >= rem then 1 else 0);
      ColumnStep(n, k, q, rem, i, offset, length);
      ConcatSnoc(cols, a[offset..offset + length]);
      assert a[..offset] + a[offset..offset + length] == a[..offset + length];
      cols := cols + [a[offset..offset + length]];
      i := i + 1;
    }
    ColumnEnd(n, k, q, rem);
  }

  /** The slice the loop of `columns` takes for column `i` starts where the
      previous one ended and has the column's size. */
  lemma ColumnStep(n: nat, k: int, q: nat, rem: int, i: nat, offset: int, length: int)
    requires k > 0 && 0 < rem < k && n == k * q + rem && i < k
    requires offset == i * (q + 1) - (if i - rem > 0 then i - rem else 0)
    requires length == (q + 1) - (if i >= rem then 1 else 0)
    ensures offset == ColumnStart(i, q, rem)
    ensures offset + length == ColumnStart(i + 1, q, rem) <= n
    ensures length == ColumnSize(n, k, i)
  {
    assert i * (q + 1) == i * q + i;
    assert (i + 1) * q == i * q + q;
    MulMono(i + 1, k, q);
    DivMod(n, k, q, rem);
  }

  lemma DivModOf(n: int, k: int)
    requires k > 0
    ensures n == k * (n / k) + n % k && 0 <= n % k < k
  {
  }

  lemma ColumnEnd(n: nat, k: int, q: nat, rem: int)
    requires k > 0 && 0 < rem < k && n == k * q + rem
    ensures ColumnStart(k, q, rem) == n
  {
  }

  // ---------------------------------------------------------------------------
  // splice

  /** `array_slice($array, $offset, $length, true)`: a negative offset counts
      from the end, a null length runs to the end, a negative one stops that
      many entries before it; keys are kept. */
  function Slice(a: PArray, offset: int, length: Option<int>): (r: PArray)
    ensures exists i, j :: 0 <= i <= j <= |a| && r == a[i..j]
  {
    var n := |a|;
    if offset > n then assert a[n..n] == []; []
    else
      var start := if offset >= 0 then offset else if n + offset < 0 then 0 else n + offset;
      var len0 := if length.None? then n else length.value;
      var len := if len0 < 0 then n - start + len0 else if start + len0 > n then n - start else len0;
      if len <= 0 then assert a[start..start] == []; [] else a[start..start + len]
  }

  /** `splice($array, $offset, $length, $replacement)`: the removed slice
      (empty unless an offset and a non-zero length are given), and the array
      rebuilt by `array_merge` from what precedes the offset, the wrapped
      replacement and what follows the removed slice. */
  method Splice(a: PArray, offset: Option<int>, length: Option<int>, replacement: Value)
    returns (removed: PArray, r: PArray)
    ensures removed == if offset.Some? && length.Some? && length.value != 0
                       then Slice(a, offset.value, length) else []
    ensures r == MergeInto(ArrayMerge(Slice(a, 0, offset), Wrap(replacement)),
                           if offset.Some? then Slice(a, offset.value + LengthOrZero(length), None) else [])
  {
    if offset.Some? && length.Some? && length.value != 0 {
      removed := Slice(a, offset.value, length);
    } else {
      removed := [];
    }
    var head := Slice(a, 0, offset);
    var tail := if offset.Some? then Slice(a, offset.value + LengthOrZero(length), None) else [];
    r := MergeInto(ArrayMerge(head, Wrap(replacement)), tail);
  }

  /** A null length counts as zero in `$offset + $length`. */
  function LengthOrZero(length: Option<int>): int
  {
    if length.None? then 0 else length.value
  }

  /** With an offset and a positive length inside the array, the part before,
      the removed slice and the part after are the array itself, in order. */
  lemma SplicePieces(a: PArray, offset: nat, length: nat)
    requires 0 < length && offset + length <= |a|
    ensures Slice(a, 0, Some(offset)) == a[..offset]
    ensures Slice(a, offset, Some(length)) == a[offset..offset + length]
    ensures Slice(a, offset + length, None) == a[offset + length..]
    ensures Slice(a, 0, Some(offset)) + Slice(a, offset, Some(length)) + Slice(a, offset + length, None) == a
  {
    assert a[..offset] + a[offset..offset + length] + a[offset + length..] == a;
  }

  /** Putting a key not yet present appends it. */
  lemma {:induction false} PutFresh(r: PArray, k: Key, v: Value)
    requires k !in Keys(r)
    ensures Put(r, k, v) == r + [Entry(k, v)]
  {
    if r != [] {
      assert Keys(r)[1..] == Keys(r[1..]);
      assert Keys(r)[0] == r[0].key;
      PutFresh(r[1..], k, v);
    }
  }

  /** Distinct keys, stated on the entries. */
  lemma DistinctEntries(x: PArray)
    ensures Distinct(x) <==> forall i, j :: 0 <= i < j < |x| ==> x[i].key != x[j].key
  {
    forall i | 0 <= i < |x| {
      KeysIndex(x, i);
    }
  }

  /** In a distinct-keyed `r + b`, the first key of `b` is not a key of `r`. */
  lemma DistinctJoin(r: PArray, b: PArray)
    requires b != [] && Distinct(r + b)
    ensures b[0].key !in Keys(r)
  {
    DistinctEntries(r + b);
    forall i | 0 <= i < |r|
      ensures Keys(r)[i] != b[0].key
    {
      KeysIndex(r, i);
      assert (r + b)[i] == r[i] && (r + b)[|r|] == b[0];
    }
  }

  /** `array_merge` of entries with string keys, all keys distinct, appends them. */
  lemma {:induction false} MergeIntoFresh(r: PArray, b: PArray)
    requires forall i :: 0 <= i < |b| ==> b[i].key.StrKey?
    requires Distinct(r + b)
    ensures MergeInto(r, b) == r + b
    decreases |b|
  {
    if b != [] {
      DistinctJoin(r, b);
      MergeIntoFreshStep(r, b);
      MoveHead(r, b);
      MergeIntoFresh(r + [b[0]], b[1..]);
    }
  }

  /** Moving the first entry of `b` to the end of `r` changes nothing. */
  lemma MoveHead(r: PArray, b: PArray)
    requires b != []
    ensures (r + [b[0]]) + b[1..] == r + b
  {
    assert b == [b[0]] + b[1..];
  }

  /** A fresh string key is appended by the first step of `array_merge`. */
  lemma MergeIntoFreshStep(r: PArray, b: PArray)
    requires b != [] && b[0].key.StrKey? && b[0].key !in Keys(r)
    ensures MergeInto(r, b) == MergeInto(r + [b[0]], b[1..])
  {
    PutFresh(r, b[0].key, b[0].val);
    MergeIntoStr(r, b);
  }

  /** One string-keyed step of `array_merge`. */
  lemma MergeIntoStr(r: PArray, b: PArray)
    requires b != [] && b[0].key.StrKey?
    ensures MergeInto(r, b) == MergeInto(Put(r, b[0].key, b[0].val), b[1..])
  {
  }

  /** Dropping a slice keeps the keys distinct. */
  lemma DistinctDropMiddle(a: PArray, offset: nat, length: nat)
    requires offset + length <= |a| && Distinct(a)
    ensures Distinct(a[..offset] + a[offset + length..])
  {
    DistinctEntries(a);
    var x := a[..offset] + a[offset + length..];
    forall i, j | 0 <= i < j < |x|
      ensures x[i].key != x[j].key
    {
      var i' := if i < offset then i else i + length;
      var j' := if j < offset then j else j + length;
      assert x[i] == a[i'] && x[j] == a[j'];
    }
    DistinctEntries(x);
  }

  /** On an array with distinct string keys, splicing out a slice with no
      replacement leaves the entries before and after it, keys kept. */
  lemma SpliceStringKeys(a: PArray, offset: nat, length: nat)
    requires 0 < length && offset + length <= |a|
    requires Distinct(a) && forall e :: e in a ==> e.key.StrKey?
    ensures MergeInto(ArrayMerge(Slice(a, 0, Some(offset)), Wrap(Null)), Slice(a, offset + length, None))
            == a[..offset] + a[offset + length..]
  {
    SplicePieces(a, offset, length);
    var head, tail := a[..offset], a[offset + length..];
    DistinctEntries(a);
    assert Distinct([] + head) by {
      assert [] + head == head;
      DistinctEntries(head);
    }
    assert forall i :: 0 <= i < |head| ==> head[i] in a;
    MergeIntoFresh([], head);
    assert ArrayMerge(head, []) == head;
    DistinctDropMiddle(a, offset, length);
    assert forall i :: 0 <= i < |tail| ==> tail[i] in a;
    MergeIntoFresh(head, tail);
  }
}
