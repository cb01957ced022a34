/** The PHP runtime values the component library works on: ordered arrays with
    normalised keys, scalar conversions, and the built-ins the core relies on
    (trim, implode, explode, array_merge, array_replace, array_slice). */
module Php {

  datatype Option<T> = None | Some(value: T)

  /** An array key after PHP's key normalisation. */
  datatype Key = IntKey(i: int) | StrKey(s: string)

  /** A PHP value. A closure is an opaque handle together with the number of
      parameters it declares; its code is interpreted by a `Runtime`. */
  datatype Value =
    | Null
    | Bool(b: bool)
    | Int(i: int)
    | Str(s: string)
    | Arr(entries: seq<Entry>)
    | Closure(id: nat, arity: nat)

  datatype Entry = Entry(key: Key, val: Value)

  /** A PHP array: an ordered list of entries. */
  type PArray = seq<Entry>

  /** Whatever calling a closure produces: a value, or a thrown error. */
  datatype Outcome<T> = Done(value: T) | Thrown(error: string)

  /** What a loop has produced so far, ahead of the outcome of the rest of it. */
  function Prefix<T>(done: seq<T>, rest: Outcome<seq<T>>): Outcome<seq<T>>
  {
    match rest
    case Thrown(e) => Thrown(e)
    case Done(more) => Done(done + more)
  }

  lemma PrefixEmpty<T>(o: Outcome<seq<T>>)
    ensures Prefix([], o) == o
  {
    if o.Done? {
      assert [] + o.value == o.value;
    }
  }

  lemma PrefixAppend<T>(a: seq<T>, b: seq<T>, o: Outcome<seq<T>>)
    ensures Prefix(a, Prefix(b, o)) == Prefix(a + b, o)
  {
    if o.Done? {
      assert a + (b + o.value) == a + b + o.value;
    }
  }

  /** The host that runs closures: `apply(id, args)` is what the closure with
      handle `id` returns for the arguments `args`. */
  datatype Runtime = Runtime(apply: (nat, seq<Value>) -> Value)

  /** Calling a closure: PHP raises ArgumentCountError when a user closure is
      passed fewer arguments than it declares. */
  function Invoke(rt: Runtime, c: Value, args: seq<Value>): (r: Outcome<Value>)
    requires c.Closure?
    ensures r.Thrown? <==> |args| < c.arity
    ensures r.Done? ==> r.value == rt.apply(c.id, args)
  {
    if |args| < c.arity then Thrown("ArgumentCountError") else Done(rt.apply(c.id, args))
  }

  // ---------------------------------------------------------------------------
  // Arrays as ordered maps

  /** Concatenation regroups, and the empty sequence is its unit. */
  lemma Regroup<T>(a: seq<T>, b: seq<T>, c: seq<T>)
    ensures (a + b) + c == a + (b + c) && [] + c == c && a + [] == a
  {
  }

  /** A concatenation starts with its first part and ends with its second. */
  lemma Parts<T>(a: seq<T>, b: seq<T>)
    ensures a <= a + b && |a + b| == |a| + |b| && (a + b)[|a|..] == b
  {
  }

  /** The prefix of length `n` is the shorter prefix and one more element. */
  lemma PrefixStep<T>(s: seq<T>, n: nat)
    requires 0 < n <= |s|
    ensures s[..n] == s[..n - 1] + [s[n - 1]]
  {
  }

  /** The suffix from `i` starts with `s[i]` and goes on with the suffix from `i + 1`. */
  lemma SuffixStep<T>(s: seq<T>, i: nat)
    requires i < |s|
    ensures s[i..][0] == s[i] && s[i..][1..] == s[i + 1..]
  {
  }

  function Keys(a: PArray): (ks: seq<Key>)
    ensures |ks| == |a|
  {
    if a == [] then [] else [a[0].key] + Keys(a[1..])
  }

  /** `$a[$k]` when `array_key_exists($k, $a)`, else nothing. */
  function Lookup(a: PArray, k: Key): (r: Option<Value>)
    ensures r.None? <==> k !in Keys(a)
    ensures r.Some? ==> Entry(k, r.value) in a
  {
    if a == [] then None
    else if a[0].key == k then Some(a[0].val)
    else Lookup(a[1..], k)
  }

  /** `Lookup` walking by index from position `i`: on an array written out
      in full this evaluates step by step. */
  function LookupFrom(a: PArray, k: Key, i: nat): Option<Value>
    requires i <= |a|
    decreases |a| - i
  {
    if i == |a| then None else if a[i].key == k then Some(a[i].val) else LookupFrom(a, k, i + 1)
  }

  lemma {:induction false} LookupFromSuffix(a: PArray, k: Key, i: nat)
    requires i <= |a|
    ensures LookupFrom(a, k, i) == Lookup(a[i..], k)
    decreases |a| - i
  {
    if i < |a| {
      LookupFromSuffix(a, k, i + 1);
      SuffixStep(a, i);
    }
  }

  lemma LookupByIndex(a: PArray, k: Key)
    ensures Lookup(a, k) == LookupFrom(a, k, 0)
  {
    LookupFromSuffix(a, k, 0);
    assert a[0..] == a;
  }

  /** `$a[$k] ?? $default` when only a missing key yields the default. */
  function LookupOr(a: PArray, k: Key, default: Value): Value
  {
    match Lookup(a, k)
    case Some(v) => v
    case None => default
  }

  /** PHP `isset($a[$k])`: the key is present and its value is not null. */
  predicate IsSet(a: PArray, k: Key)
  {
    Lookup(a, k).Some? && Lookup(a, k).value != Null
  }

  /** `$a[$k] = $v`: overwrite in place, or add at the end. */
  function Put(a: PArray, k: Key, v: Value): (r: PArray)
    ensures Lookup(r, k) == Some(v)
    ensures forall k' :: k' != k ==> Lookup(r, k') == Lookup(a, k')
    ensures Keys(r) == if k in Keys(a) then Keys(a) else Keys(a) + [k]
  {
    if a == [] then [Entry(k, v)]
    else if a[0].key == k then
      ConsParts(Entry(k, v), a[1..]);
      [Entry(k, v)] + a[1..]
    else
      var rest := Put(a[1..], k, v);
      PutBehind(a, k, v, rest);
      [a[0]] + rest
  }

  /** Putting a key that is not first leaves the first entry in front. */
  lemma PutBehind(a: PArray, k: Key, v: Value, rest: PArray)
    requires a != [] && a[0].key != k
    requires Lookup(rest, k) == Some(v)
    requires forall k' :: k' != k ==> Lookup(rest, k') == Lookup(a[1..], k')
    requires Keys(rest) == if k in Keys(a[1..]) then Keys(a[1..]) else Keys(a[1..]) + [k]
    ensures Lookup([a[0]] + rest, k) == Some(v)
    ensures forall k' :: k' != k ==> Lookup([a[0]] + rest, k') == Lookup(a, k')
    ensures Keys([a[0]] + rest) == if k in Keys(a) then Keys(a) else Keys(a) + [k]
  {
    ConsParts(a[0], rest);
    assert k in Keys(a) <==> k in Keys(a[1..]);
    assert Keys(a) + [k] == [a[0].key] + (Keys(a[1..]) + [k]);
  }

  /** An entry put in front of an array is its first entry, followed by the array. */
  lemma ConsParts(e: Entry, x: PArray)
    ensures ([e] + x)[0] == e && ([e] + x)[1..] == x
  {
  }

  /** `unset($a[$k])`. */
  function Remove(a: PArray, k: Key): (r: PArray)
    ensures Lookup(r, k) == None
    ensures forall k' :: k' != k ==> Lookup(r, k') == Lookup(a, k')
    ensures forall e :: e in r <==> e in a && e.key != k
    ensures |r| <= |a|
  {
    if a == [] then []
    else
      assert a == [a[0]] + a[1..];
      if a[0].key == k then Remove(a[1..], k)
      else [a[0]] + Remove(a[1..], k)
  }

  /** The key `$a[] = $v` uses on an array that never lost its last integer
      key: one past the largest integer key present, never below 0. */
  function NextIndex(a: PArray): (n: int)
    ensures n >= 0
    ensures forall i :: IntKey(i) in Keys(a) ==> i < n
  {
    if a == [] then 0
    else match a[0].key
      case IntKey(i) => if i + 1 > NextIndex(a[1..]) then i + 1 else NextIndex(a[1..])
      case StrKey(_) => NextIndex(a[1..])
  }

  /** `$a[] = $v`. */
  function Append(a: PArray, v: Value): (r: PArray)
    ensures Keys(r) == Keys(a) + [IntKey(NextIndex(a))]
    ensures IntKey(NextIndex(a)) !in Keys(a)
  {
    KeysAppend(a, [Entry(IntKey(NextIndex(a)), v)]);
    a + [Entry(IntKey(NextIndex(a)), v)]
  }

  /** Keys are pairwise distinct, as in every array PHP builds. */
  predicate Distinct(a: PArray)
  {
    DistinctKeys(Keys(a))
  }

  predicate DistinctKeys(ks: seq<Key>)
  {
    forall i, j :: 0 <= i < j < |ks| ==> ks[i] != ks[j]
  }

  /** The first key of a distinct-keyed array does not recur, and the rest is distinct. */
  lemma DistinctTail(a: PArray)
    requires Distinct(a) && a != []
    ensures Distinct(a[1..]) && a[0].key !in Keys(a[1..])
  {
    var ks := Keys(a);
    var tail := Keys(a[1..]);
    assert ks == [a[0].key] + tail;
    forall i, j | 0 <= i < j < |tail| ensures tail[i] != tail[j] {
      assert tail[i] == ks[i + 1] && tail[j] == ks[j + 1];
    }
    assert forall j :: 0 <= j < |tail| ==> tail[j] == ks[j + 1] && ks[j + 1] != ks[0];
  }

  /** The values in order (`array_values`). */
  function Values(a: PArray): (vs: seq<Value>)
    ensures |vs| == |a|
    ensures forall i :: 0 <= i < |a| ==> vs[i] == a[i].val
  {
    if a == [] then [] else [a[0].val] + Values(a[1..])
  }

  /** A list `[0 => v0, 1 => v1, ...]`. */
  function ListOf(vs: seq<Value>): (a: PArray)
    ensures |a| == |vs|
    ensures Values(a) == vs
    ensures forall i :: 0 <= i < |vs| ==> a[i].key == IntKey(i)
  {
    seq(|vs|, i requires 0 <= i < |vs| => Entry(IntKey(i), vs[i]))
  }

  /** The values of the integer-keyed entries, in order. */
  function IntValues(a: PArray): seq<Value>
  {
    if a == [] then []
    else if a[0].key.IntKey? then [a[0].val] + IntValues(a[1..])
    else IntValues(a[1..])
  }

  lemma {:induction false} KeysIndex(a: PArray, i: int)
    requires 0 <= i < |a|
    ensures Keys(a)[i] == a[i].key
  {
    if i > 0 { KeysIndex(a[1..], i - 1); }
  }

  lemma {:induction false} KeysAppend(a: PArray, b: PArray)
    ensures Keys(a + b) == Keys(a) + Keys(b)
  {
    if a != [] {
      assert (a + b)[1..] == a[1..] + b;
      KeysAppend(a[1..], b);
      calc {
        Keys(a + b);
        [a[0].key] + Keys(a[1..] + b);
        [a[0].key] + (Keys(a[1..]) + Keys(b));
        ([a[0].key] + Keys(a[1..])) + Keys(b);
      }
    } else {
      assert a + b == b;
    }
  }

  lemma {:induction false} IntValuesAppend(a: PArray, b: PArray)
    ensures IntValues(a + b) == IntValues(a) + IntValues(b)
  {
    if a != [] {
      assert (a + b)[1..] == a[1..] + b;
      IntValuesAppend(a[1..], b);
    } else {
      assert a + b == b;
    }
  }

  /** Writing a string key never touches the integer-keyed entries. */
  lemma {:induction false} IntValuesPutStr(a: PArray, s: string, v: Value)
    ensures IntValues(Put(a, StrKey(s), v)) == IntValues(a)
  {
    if a != [] && a[0].key != StrKey(s) {
      IntValuesPutStr(a[1..], s, v);
    }
  }

  lemma PutDistinct(a: PArray, k: Key, v: Value)
    requires Distinct(a)
    ensures Distinct(Put(a, k, v))
  {
  }

  lemma AppendDistinct(a: PArray, v: Value)
    requires Distinct(a)
    ensures Distinct(Append(a, v))
  {
  }

  // ---------------------------------------------------------------------------
  // array_merge and array_replace

  /** The loop of `array_merge`: integer keys are renumbered onto the end,
      string keys overwrite in place or are added. */
  function MergeInto(r: PArray, b: PArray): PArray
    decreases |b|
  {
    if b == [] then r
    else
      var e := b[0];
      var r' := if e.key.IntKey? then Append(r, e.val) else Put(r, e.key, e.val);
      MergeInto(r', b[1..])
  }

  /** `array_merge($a, $b)`. */
  function ArrayMerge(a: PArray, b: PArray): PArray
  {
    MergeInto(MergeInto([], a), b)
  }

  /** The integer-keyed values of both arrays survive, in order, one after the other. */
  lemma {:induction false} MergeIntoIntValues(r: PArray, b: PArray)
    ensures IntValues(MergeInto(r, b)) == IntValues(r) + IntValues(b)
    decreases |b|
  {
    if b != [] {
      var e := b[0];
      if e.key.IntKey? {
        IntValuesAppend(r, [Entry(IntKey(NextIndex(r)), e.val)]);
        MergeIntoIntValues(Append(r, e.val), b[1..]);
      } else {
        IntValuesPutStr(r, e.key.s, e.val);
        MergeIntoIntValues(Put(r, e.key, e.val), b[1..]);
      }
    }
  }

  lemma {:induction false} MergeIntoDistinct(r: PArray, b: PArray)
    requires Distinct(r)
    ensures Distinct(MergeInto(r, b))
    decreases |b|
  {
    if b != [] {
      var e := b[0];
      if e.key.IntKey? {
        AppendDistinct(r, e.val);
        MergeIntoDistinct(Append(r, e.val), b[1..]);
      } else {
        PutDistinct(r, e.key, e.val);
        MergeIntoDistinct(Put(r, e.key, e.val), b[1..]);
      }
    }
  }

  /** A string key of a distinct-keyed `b` ends up with b's value; one that b
      lacks keeps what `r` had. */
  lemma {:induction false} MergeIntoStrKey(r: PArray, b: PArray, s: string)
    requires Distinct(b)
    ensures Lookup(MergeInto(r, b), StrKey(s)) ==
              if StrKey(s) in Keys(b) then Lookup(b, StrKey(s)) else Lookup(r, StrKey(s))
    decreases |b|
  {
    if b != [] {
      var e := b[0];
      var r' := if e.key.IntKey? then Append(r, e.val) else Put(r, e.key, e.val);
      DistinctTail(b);
      MergeIntoStrKey(r', b[1..], s);
      if e.key == StrKey(s) {
      } else if e.key.IntKey? {
        assert Lookup(Append(r, e.val), StrKey(s)) == Lookup(r, StrKey(s)) by {
          LookupAppendOther(r, Entry(IntKey(NextIndex(r)), e.val), StrKey(s));
        }
      }
    }
  }

  lemma {:induction false} LookupAppendOther(a: PArray, e: Entry, k: Key)
    requires e.key != k
    ensures Lookup(a + [e], k) == Lookup(a, k)
  {
    if a != [] {
      assert (a + [e])[1..] == a[1..] + [e];
      LookupAppendOther(a[1..], e, k);
    }
  }

  /** `array_merge(defaults, caller)` on string keys: the caller wins, keys
      only the defaults have survive. */
  lemma {:induction false} ArrayMergeStrKey(a: PArray, b: PArray, s: string)
    requires Distinct(a) && Distinct(b)
    ensures Lookup(ArrayMerge(a, b), StrKey(s)) ==
              if StrKey(s) in Keys(b) then Lookup(b, StrKey(s)) else Lookup(a, StrKey(s))
  {
    MergeIntoStrKey([], a, s);
    MergeIntoStrKey(MergeInto([], a), b, s);
  }

  /** `array_merge` keeps every integer-keyed value of both arrays, in order. */
  lemma {:induction false} ArrayMergeIntValues(a: PArray, b: PArray)
    ensures IntValues(ArrayMerge(a, b)) == IntValues(a) + IntValues(b)
  {
    var m := MergeInto([], a);
    MergeIntoIntValues([], a);
    assert IntValues([]) == [];
    assert IntValues(m) == IntValues(a);
    MergeIntoIntValues(m, b);
    assert ArrayMerge(a, b) == MergeInto(m, b);
  }

  /** `array_replace($a, $b)`: every key of b is written into a, in place. */
  function Replace(a: PArray, b: PArray): (r: PArray)
    ensures forall k :: k in Keys(b) ==> Lookup(r, k).Some?
    ensures forall k :: k !in Keys(b) ==> Lookup(r, k) == Lookup(a, k)
    ensures Distinct(b) ==> forall k :: k in Keys(b) ==> Lookup(r, k) == Lookup(b, k)
    decreases |b|
  {
    if b == [] then a
    else
      assert Distinct(b) ==> Distinct(b[1..]) && b[0].key !in Keys(b[1..]) by {
        if Distinct(b) { DistinctTail(b); }
      }
      Replace(Put(a, b[0].key, b[0].val), b[1..])
  }

  // ---------------------------------------------------------------------------
  // Scalars

  /** PHP truthiness (`(bool) $v`). */
  predicate Truthy(v: Value)
  {
    match v
    case Null => false
    case Bool(b) => b
    case Int(i) => i != 0
    case Str(s) => s != "" && s != "0"
    case Arr(e) => e != []
    case Closure(_, _) => true
  }

  function DigitChar(d: nat): char
    requires d < 10
  {
    "0123456789"[d]
  }

  predicate IsDigit(c: char)
  {
    '0' <= c <= '9'
  }

  function NatToText(n: nat): (s: string)
    ensures |s| >= 1
    ensures forall c :: c in s ==> IsDigit(c)
    ensures n > 0 ==> s[0] != '0'
    ensures n == 0 ==> s == "0"
    decreases n
  {
    if n < 10 then [DigitChar(n)] else NatToText(n / 10) + [DigitChar(n % 10)]
  }

  /** The decimal text of an integer (`(string) $i`). */
  function IntToText(i: int): string
  {
    if i < 0 then "-" + NatToText(-i) else NatToText(i)
  }

  /** String conversion. An array converts to the text "Array", as PHP's
      interpolation does. A closure has no conversion in PHP; "Closure" stands
      for it where the core would raise an error. */
  function ToText(v: Value): string
  {
    match v
    case Null => ""
    case Bool(b) => if b then "1" else ""
    case Int(i) => IntToText(i)
    case Str(s) => s
    case Arr(_) => "Array"
    case Closure(_, _) => "Closure"
  }

  predicate AllDigits(s: string)
  {
    forall c :: c in s ==> IsDigit(c)
  }

  /** A decimal integer in canonical form: PHP turns such string keys into integers. */
  predicate IsCanonicalInt(s: string)
  {
    s == "0"
    || (|s| >= 1 && '1' <= s[0] <= '9' && AllDigits(s[1..]))
    || (|s| >= 2 && s[0] == '-' && '1' <= s[1] <= '9' && AllDigits(s[2..]))
  }

  function ParseNat(s: string): nat
    requires AllDigits(s)
  {
    if s == [] then 0
    else
      assert s[|s| - 1] in s && forall c :: c in s[..|s| - 1] ==> c in s;
      ParseNat(s[..|s| - 1]) * 10 + (s[|s| - 1] as int - '0' as int)
  }

  /** Key normalisation for a string key. */
  function NormKey(s: string): Key
  {
    if IsCanonicalInt(s) then
      if s[0] == '-' then
        assert forall c :: c in s[1..] ==> c == s[1] || c in s[2..];
        IntKey(0 - ParseNat(s[1..]))
      else
        assert forall c :: c in s ==> c == s[0] || c in s[1..];
        IntKey(ParseNat(s))
    else StrKey(s)
  }

  /** The text of a key (a key converted back to a string). */
  function KeyText(k: Key): string
  {
    match k
    case IntKey(i) => IntToText(i)
    case StrKey(s) => s
  }

  lemma {:induction false} ParseNatToText(n: nat)
    ensures ParseNat(NatToText(n)) == n
    decreases n
  {
    if n >= 10 {
      var s := NatToText(n);
      assert s[..|s| - 1] == NatToText(n / 10);
      ParseNatToText(n / 10);
    }
  }

  lemma NatTextCanonical(n: nat)
    ensures IsCanonicalInt(NatToText(n)) && NatToText(n)[0] != '-'
    ensures n > 0 ==> IsCanonicalInt("-" + NatToText(n))
  {
    var t := NatToText(n);
    assert forall c :: c in t[1..] ==> c in t;
    if n > 0 {
      assert ("-" + t)[1] == t[0] && ("-" + t)[2..] == t[1..];
    }
  }

  /** Key normalisation turns the text of every integer back into that integer key. */
  lemma NormKeyIntText(i: int)
    ensures NormKey(IntToText(i)) == IntKey(i)
  {
    if i < 0 {
      NormKeyNegText(i);
    } else {
      NormKeyNatText(i);
    }
  }

  lemma NormKeyNatText(n: nat)
    ensures NormKey(IntToText(n)) == IntKey(n)
  {
    var t := NatToText(n);
    NatTextCanonical(n);
    ParseNatToText(n);
    assert NormKey(t) == IntKey(ParseNat(t));
  }

  lemma NormKeyNegText(i: int)
    requires i < 0
    ensures NormKey(IntToText(i)) == IntKey(i)
  {
    assert IntToText(i) == "-" + NatToText(-i);
    NormKeyMinusDigits(-i);
  }

  lemma NormKeyMinusDigits(n: nat)
    requires n > 0
    ensures NormKey("-" + NatToText(n)) == IntKey(-(n as int))
  {
    var t := NatToText(n);
    var s := "-" + t;
    NatTextCanonical(n);
    assert s[0] == '-' && s[1..] == t;
    ParseNatToText(n);
    assert NormKey(s) == IntKey(0 - ParseNat(t));
  }

  function Lower(c: char): char
  {
    if 'A' <= c <= 'Z' then (c as int + 32) as char else c
  }

  /** `strtolower` (ASCII, as PHP 8 does). */
  function ToLower(s: string): (r: string)
    ensures |r| == |s|
    ensures forall i :: 0 <= i < |s| ==> r[i] == Lower(s[i])
  {
    seq(|s|, i requires 0 <= i < |s| => Lower(s[i]))
  }

  // ---------------------------------------------------------------------------
  // Strings

  /** The characters `trim` strips: space, tab, newline, carriage return, NUL, vertical tab. */
  predicate IsTrimChar(c: char)
  {
    c == ' ' || c == '\t' || c == '\n' || c == '\r' || c == '\0' || c == '\U{B}'
  }

  function TrimLeft(s: string): (r: string)
    ensures r == [] || !IsTrimChar(r[0])
    ensures |r| <= |s| && r == s[|s| - |r|..]
  {
    if s != [] && IsTrimChar(s[0]) then TrimLeft(s[1..]) else s
  }

  function TrimRight(s: string): (r: string)
    ensures r == [] || !IsTrimChar(r[|r| - 1])
    ensures |r| <= |s| && r == s[..|r|]
  {
    if s != [] && IsTrimChar(s[|s| - 1]) then TrimRight(s[..|s| - 1]) else s
  }

  /** `trim`. */
  function Trim(s: string): (r: string)
    ensures r == [] || (!IsTrimChar(r[0]) && !IsTrimChar(r[|r| - 1]))
  {
    var l := TrimLeft(s);
    var r := TrimRight(l);
    assert r != [] ==> r[0] == l[0];
    r
  }

  /** Digits are never stripped. */
  lemma TrimDigits(s: string)
    requires s != [] && IsDigit(s[0]) && IsDigit(s[|s| - 1])
    ensures Trim(s) == s
  {
    TrimTrimmed(s);
  }

  /** A string with nothing to strip at either end is its own trim. */
  lemma TrimTrimmed(s: string)
    requires s == [] || (!IsTrimChar(s[0]) && !IsTrimChar(s[|s| - 1]))
    ensures Trim(s) == s
  {
    assert TrimLeft(s) == s;
    assert TrimRight(s) == s;
  }

  /** `trim` is idempotent. */
  lemma TrimIdempotent(s: string)
    ensures Trim(Trim(s)) == Trim(s)
  {
    TrimTrimmed(Trim(s));
  }

  /** `implode($sep, $parts)`. */
  function Join(sep: string, parts: seq<string>): string
  {
    if parts == [] then ""
    else if |parts| == 1 then parts[0]
    else parts[0] + sep + Join(sep, parts[1..])
  }

  /** `explode($c, $s)` for a one-character separator: every occurrence splits,
      and the pieces joined back by the separator are the input. */
  function Split(s: string, c: char): (parts: seq<string>)
    ensures |parts| >= 1
    ensures forall p :: p in parts ==> c !in p
    ensures Join([c], parts) == s
  {
    if s == [] then [""]
    else
      var rest := Split(s[1..], c);
      if s[0] == c then
        assert Join([c], [""] + rest) == [c] + Join([c], rest);
        [""] + rest
      else
        var parts := [[s[0]] + rest[0]] + rest[1..];
        assert Join([c], parts) == [s[0]] + Join([c], rest) by {
          if |rest| > 1 {
            assert rest == [rest[0]] + rest[1..];
          }
        }
        parts
  }

  /** A text without the separator is one piece. */
  lemma SplitWhole(s: string, c: char)
    requires c !in s
    ensures Split(s, c) == [s]
  {
    if s != [] {
      assert c !in s[1..];
      SplitWhole(s[1..], c);
    }
  }

  /** A piece without the separator, then the separator, starts a split. */
  lemma {:induction false} SplitPrefix(p: string, rest: string, c: char)
    requires c !in p
    ensures Split(p + [c] + rest, c) == [p] + Split(rest, c)
    decreases |p|
  {
    var s := p + [c] + rest;
    if p == [] {
      assert s == [c] + rest && s[1..] == rest;
      SplitAtSeparator(s, c);
    } else {
      assert s[0] == p[0] && s[1..] == p[1..] + [c] + rest;
      assert c !in p[1..] by {
        assert forall x :: x in p[1..] ==> x in p;
      }
      SplitPrefix(p[1..], rest, c);
      SplitAtChar(s, c);
      assert [p[0]] + p[1..] == p;
    }
  }

  lemma SplitAtSeparator(s: string, c: char)
    requires s != [] && s[0] == c
    ensures Split(s, c) == [""] + Split(s[1..], c)
  {
  }

  lemma SplitAtChar(s: string, c: char)
    requires s != [] && s[0] != c
    ensures Split(s, c) == [[s[0]] + Split(s[1..], c)[0]] + Split(s[1..], c)[1..]
  {
  }

  /** `explode` undoes `implode` when no piece holds the separator. */
  lemma {:induction false} SplitJoin(parts: seq<string>, c: char)
    requires |parts| >= 1
    requires forall p :: p in parts ==> c !in p
    ensures Split(Join([c], parts), c) == parts
  {
    assert parts[0] in parts;
    if |parts| == 1 {
      SplitWhole(parts[0], c);
    } else {
      assert forall p :: p in parts[1..] ==> p in parts;
      SplitJoin(parts[1..], c);
      SplitPrefix(parts[0], Join([c], parts[1..]), c);
      SplitWhole(parts[0], c);
      assert parts == [parts[0]] + parts[1..];
    }
  }

  /** `str_contains($s, $c)` for one character. */
  predicate Contains(s: string, c: char)
  {
    c in s
  }
}
