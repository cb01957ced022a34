/** The modification watcher: a list of watched entries (integer stamps and
    file paths) accumulated by `watch`, and `modified`, the latest stamp or
    file modification time among them.

    The filesystem is the map `fs` from the path of an existing file to its
    modification time. */
module Watcher {
  import opened Php

  // ---------------------------------------------------------------------------
  // watch

  /** The argument as the declared parameter type takes it: null and
      objects are refused, and a boolean becomes the integer 0 or 1. */
  function WatchArg(w: Value): Outcome<Value>
  {
    match w
    case Null => Thrown("TypeError")
    case Closure(_, _) => Thrown("TypeError")
    case Bool(b) => Done(Int(if b then 1 else 0))
    case _ => Done(w)
  }

  /** What `watch($watch)` does to the list: a falsy argument changes
      nothing, an array is merged in, a string with a `/` and an integer are
      appended. A string without `/` is looked up as a component name
      through a method the module does not have, which throws. */
  function WatchSpec(list: PArray, w: Value): Outcome<PArray>
  {
    match WatchArg(w)
    case Thrown(e) => Thrown(e)
    case Done(a) =>
      if !Truthy(a) then Done(list)
      else if a.Arr? then Done(ArrayMerge(list, a.entries))
      else if a.Str? && '/' !in a.s then Thrown("WireException")
      else Done(Append(list, a))
  }

  // ---------------------------------------------------------------------------
  // modified

  /** `array_unique`: the first occurrence of each value, in order. */
  function Unique(vs: seq<Value>): (r: seq<Value>)
    ensures forall v :: v in r <==> v in vs
  {
    if vs == [] then []
    else
      var init := Unique(vs[..|vs| - 1]);
      assert vs == vs[..|vs| - 1] + [vs[|vs| - 1]];
      if vs[|vs| - 1] in vs[..|vs| - 1] then init else init + [vs[|vs| - 1]]
  }

  /** Whether an entry can be handed to `is_file`: arrays and objects cannot. */
  predicate Checkable(v: Value)
  {
    !v.Arr? && !v.Closure?
  }

  /** The time an entry contributes: an integer is its own stamp, and the
      text of any other scalar is a path whose modification time counts
      when the file exists. */
  predicate IsTime(v: Value, t: int, fs: map<string, int>)
  {
    if v.Int? then t == v.i
    else Checkable(v) && ToText(v) in fs && t == fs[ToText(v)]
  }

  /** One pass of the loop of `modified`: nothing for a skipped entry. */
  function TimeOf(v: Value, fs: map<string, int>): Outcome<Option<int>>
  {
    if v.Int? then Done(Some(v.i))
    else if !Checkable(v) then Thrown("TypeError")
    else if ToText(v) in fs then Done(Some(fs[ToText(v)]))
    else Done(None)
  }

  /** The loop of `modified`: the times in order, or the error `is_file`
      raises on an array or an object. */
  function Times(vs: seq<Value>, fs: map<string, int>): Outcome<seq<int>>
  {
    if vs == [] then Done([])
    else
      match TimeOf(vs[0], fs)
      case Thrown(e) => Thrown(e)
      case Done(t) =>
        match Times(vs[1..], fs)
        case Thrown(e) => Thrown(e)
        case Done(ts) => Done((if t.Some? then [t.value] else []) + ts)
  }

  function MaxOf(ts: seq<int>): (m: int)
    requires ts != []
    ensures m in ts && forall t :: t in ts ==> t <= m
  {
    if |ts| == 1 then ts[0]
    else
      var m := MaxOf(ts[1..]);
      assert forall t :: t in ts ==> t == ts[0] || t in ts[1..];
      if ts[0] > m then ts[0] else m
  }

  /** `modified()`: the largest time, or the error `max` raises on an empty
      list. */
  function ModifiedSpec(list: PArray, fs: map<string, int>): Outcome<int>
  {
    match Times(Unique(Values(list)), fs)
    case Thrown(e) => Thrown(e)
    case Done(ts) => if ts == [] then Thrown("ValueError") else Done(MaxOf(ts))
  }

  /** One step of the loop of `modified`. */
  lemma TimesStep(vs: seq<Value>, i: int, fs: map<string, int>)
    requires 0 <= i < |vs|
    ensures Times(vs[i..], fs) ==
              match TimeOf(vs[i], fs)
              case Thrown(e) => Thrown(e)
              case Done(t) => Prefix(if t.Some? then [t.value] else [], Times(vs[i + 1..], fs))
  {
    SuffixStep(vs, i);
  }

  /** The loop of `modified` fails exactly on an array or an object. */
  lemma {:induction false} TimesFail(vs: seq<Value>, fs: map<string, int>)
    ensures (forall v :: v in vs ==> Checkable(v) || v.Int?) <==> Times(vs, fs).Done?
  {
    if vs != [] {
      TimesFail(vs[1..], fs);
      assert forall v :: v in vs <==> v == vs[0] || v in vs[1..];
    }
  }

  /** The times collected are exactly those of the entries. */
  lemma {:induction false} TimesAre(vs: seq<Value>, fs: map<string, int>, t: int)
    requires Times(vs, fs).Done?
    ensures t in Times(vs, fs).value <==> exists v :: v in vs && IsTime(v, t, fs)
  {
    if vs != [] {
      TimesAre(vs[1..], fs, t);
      var ts := Times(vs, fs).value;
      var rest := Times(vs[1..], fs).value;
      var head := TimeOf(vs[0], fs).value;
      assert ts == (if head.Some? then [head.value] else []) + rest;
      assert head.Some? && head.value == t <==> IsTime(vs[0], t, fs);
      if t in ts {
        if t in rest {
          var v :| v in vs[1..] && IsTime(v, t, fs);
          assert v in vs;
        } else {
          assert IsTime(vs[0], t, fs);
        }
      }
      if exists v :: v in vs && IsTime(v, t, fs) {
        var v :| v in vs && IsTime(v, t, fs);
        if v != vs[0] {
          assert v in vs[1..];
        }
      }
    }
  }

  /** `modified()` is the largest time of any watched entry. */
  lemma ModifiedIsMax(list: PArray, fs: map<string, int>, m: int)
    requires ModifiedSpec(list, fs) == Done(m)
    ensures exists v :: v in Values(list) && IsTime(v, m, fs)
    ensures forall v, t :: v in Values(list) && IsTime(v, t, fs) ==> t <= m
  {
    var vs := Unique(Values(list));
    var ts := Times(vs, fs).value;
    assert ts != [] && m == MaxOf(ts);
    TimesAre(vs, fs, m);
    forall v, t | v in Values(list) && IsTime(v, t, fs) ensures t <= m {
      assert v in vs;
      TimesAre(vs, fs, t);
    }
  }

  /** `modified()` fails exactly when an entry is an array or an object, or
      when no entry has a time. */
  lemma ModifiedFails(list: PArray, fs: map<string, int>)
    ensures ModifiedSpec(list, fs).Thrown? <==>
              (exists v :: v in Values(list) && !Checkable(v) && !v.Int?)
              || (forall v, t :: v in Values(list) ==> !IsTime(v, t, fs))
  {
    var vs := Unique(Values(list));
    TimesFail(vs, fs);
    if Times(vs, fs).Done? {
      var ts := Times(vs, fs).value;
      if ts == [] {
        forall v, t | v in Values(list) ensures !IsTime(v, t, fs) {
          TimesAre(vs, fs, t);
          assert v in vs;
        }
      } else {
        TimesAre(vs, fs, ts[0]);
      }
    }
  }

  /** Watching an entry again changes nothing `modified()` sees. */
  lemma DuplicateIgnored(list: PArray, k: Key, v: Value, fs: map<string, int>)
    requires v in Values(list)
    ensures ModifiedSpec(list + [Entry(k, v)], fs) == ModifiedSpec(list, fs)
  {
    var vs := Values(list + [Entry(k, v)]);
    assert vs[..|vs| - 1] == Values(list);
  }

  /** Watching more entries never makes `modified()` earlier. */
  lemma ModifiedMonotone(list: PArray, more: PArray, fs: map<string, int>, m: int, m': int)
    requires ModifiedSpec(list, fs) == Done(m)
    requires ModifiedSpec(list + more, fs) == Done(m')
    ensures m <= m'
  {
    ModifiedIsMax(list, fs, m);
    ModifiedIsMax(list + more, fs, m');
    var v :| v in Values(list) && IsTime(v, m, fs);
    var i :| 0 <= i < |list| && list[i].val == v;
    assert (list + more)[i].val == v;
  }

  /** With only integers watched, `modified()` is their maximum. */
  lemma IntegersOnly(list: PArray, fs: map<string, int>)
    requires list != [] && forall v :: v in Values(list) ==> v.Int?
    ensures ModifiedSpec(list, fs).Done?
    ensures exists v :: v in Values(list) && v.i == ModifiedSpec(list, fs).value
    ensures forall v :: v in Values(list) ==> v.i <= ModifiedSpec(list, fs).value
  {
    ModifiedFails(list, fs);
    assert Values(list)[0] in Values(list);
    assert IsTime(Values(list)[0], Values(list)[0].i, fs);
    ModifiedIsMax(list, fs, ModifiedSpec(list, fs).value);
    forall v | v in Values(list) ensures v.i <= ModifiedSpec(list, fs).value {
      assert IsTime(v, v.i, fs);
    }
  }

  /** An array is merged in with its integer-keyed entries after the list's own. */
  lemma WatchArray(list: PArray, w: PArray)
    requires w != []
    ensures WatchSpec(list, Arr(w)) == Done(ArrayMerge(list, w))
    ensures IntValues(WatchSpec(list, Arr(w)).value) == IntValues(list) + IntValues(w)
  {
    ArrayMergeIntValues(list, w);
  }

  /** `true` is watched as the stamp 1, `false` and null as nothing. */
  lemma WatchBool(list: PArray)
    ensures WatchSpec(list, Bool(true)) == Done(Append(list, Int(1)))
    ensures WatchSpec(list, Bool(false)) == Done(list)
    ensures WatchSpec(list, Null).Thrown?
  {
  }

  /** A path or a stamp is appended as one entry. */
  lemma WatchOne(list: PArray, w: Value)
    requires (w.Str? && '/' in w.s) || (w.Int? && w.i != 0)
    ensures WatchSpec(list, w).Done?
    ensures Values(WatchSpec(list, w).value) == Values(list) + [w]
  {
  }

  // ---------------------------------------------------------------------------
  // The watcher object

  class Watcher {
    /** The watched entries. */
    var list: PArray

    constructor ()
      ensures list == []
    {
      list := [];
    }

    /** `watch($watch)`; the watcher returned for chaining is this one. */
    method Watch(w: Value) returns (r: Outcome<Watcher>)
      modifies this
      ensures WatchSpec(old(list), w).Done? ==> r == Done(this) && list == WatchSpec(old(list), w).value
      ensures WatchSpec(old(list), w).Thrown? ==> r.Thrown? && list == old(list)
    {
      var arg := WatchArg(w);
      if arg.Thrown? {
        return Thrown(arg.error);
      }
      var a := arg.value;
      if !Truthy(a) {
        return Done(this);
      }
      if a.Arr? {
        list := ArrayMerge(list, a.entries);
      } else if a.Str? {
        if '/' in a.s {
          list := Append(list, a);
        } else {
          return Thrown("WireException");
        }
      } else {
        list := Append(list, a);
      }
      return Done(this);
    }

    /** `modified()`. */
    method Modified(fs: map<string, int>) returns (r: Outcome<int>)
      ensures r == ModifiedSpec(list, fs)
    {
      var files := Unique(Values(list));
      var times: seq<int> := [];
      var i := 0;
      assert files[i..] == files;
      PrefixEmpty(Times(files, fs));
      while i < |files|
        invariant 0 <= i <= |files|
        invariant Times(files, fs) == Prefix(times, Times(files[i..], fs))
      {
        TimesStep(files, i, fs);
        var v := files[i];
        if !v.Int? && !Checkable(v) {
          return Thrown("TypeError");
        }
        var found: seq<int> := [];
        if v.Int? {
          found := [v.i];
        } else if ToText(v) in fs {
          found := [fs[ToText(v)]];
        }
        PrefixAppend(times, found, Times(files[i + 1..], fs));
        times := times + found;
        i := i + 1;
      }
      assert files[i..] == [] && times + [] == times;
      assert Times(files, fs) == Done(times);
      if times == [] {
        return Thrown("ValueError");
      }
      return Done(MaxOf(times));
    }
  }
}
