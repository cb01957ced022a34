/** `componentAttrs`, the template helper that writes an attribute array as
    HTML attributes: every entry becomes ` key="value"`, with booleans
    written as ` true` or ` false`, arrays joined with spaces and the text
    escaped by `htmlspecialchars`, here the parameter `escape`. */
module FunctionsApi {
  import opened Php

  /** The texts `implode` makes of a list, or the error it raises on an object. */
  function Texts(vs: seq<Value>): (r: Outcome<seq<string>>)
    ensures r.Done? <==> forall v :: v in vs ==> !v.Closure?
    ensures r.Done? ==> |r.value| == |vs| && forall i :: 0 <= i < |vs| ==> r.value[i] == ToText(vs[i])
  {
    if vs == [] then Done([])
    else if vs[0].Closure? then Thrown("Error")
    else
      match Texts(vs[1..])
      case Thrown(e) => Thrown(e)
      case Done(ts) =>
        assert forall v :: v in vs <==> v == vs[0] || v in vs[1..];
        Done([ToText(vs[0])] + ts)
  }

  /** The text written for one value, before escaping. */
  function ValueText(v: Value): Outcome<string>
  {
    match v
    case Bool(b) => Done(if b then " true" else " false")
    case Arr(es) =>
      (match Texts(Values(es))
       case Thrown(e) => Thrown(e)
       case Done(ts) => Done(Join(" ", ts)))
    case Closure(_, _) => Thrown("TypeError")
    case _ => Done(ToText(v))
  }

  /** The attribute one entry contributes. */
  function Piece(e: Entry, escape: string -> string): Outcome<string>
  {
    match ValueText(e.val)
    case Thrown(err) => Thrown(err)
    case Done(t) => Done(" " + KeyText(e.key) + "=\"" + escape(t) + "\"")
  }

  /** The attributes of all entries, in order. */
  function Pieces(attrs: PArray, escape: string -> string): Outcome<string>
  {
    if attrs == [] then Done("")
    else
      match Piece(attrs[0], escape)
      case Thrown(e) => Thrown(e)
      case Done(p) =>
        match Pieces(attrs[1..], escape)
        case Thrown(e) => Thrown(e)
        case Done(rest) => Done(p + rest)
  }

  /** `componentAttrs($attrs)`. */
  function AttrsSpec(attrs: PArray, escape: string -> string): Outcome<string>
  {
    match Pieces(attrs, escape)
    case Thrown(e) => Thrown(e)
    case Done(output) => Done(if output == "" then "" else " " + output)
  }

  /** `componentAttrs($attrs)`: the loop over the entries. */
  method ComponentAttrs(attrs: PArray, escape: string -> string) returns (r: Outcome<string>)
    ensures r == AttrsSpec(attrs, escape)
  {
    var output := "";
    var i := 0;
    assert attrs[i..] == attrs;
    assert Prefix(output, Pieces(attrs, escape)) == Pieces(attrs, escape) by {
      if Pieces(attrs, escape).Done? {
        assert "" + Pieces(attrs, escape).value == Pieces(attrs, escape).value;
      }
    }
    while i < |attrs|
      invariant 0 <= i <= |attrs|
      invariant Pieces(attrs, escape) == Prefix(output, Pieces(attrs[i..], escape))
    {
      SuffixStep(attrs, i);
      var value := attrs[i].val;
      var text: string;
      if value.Bool? {
        text := if value.b then " true" else " false";
      } else if value.Arr? {
        var parts := Texts(Values(value.entries));
        if parts.Thrown? {
          return Thrown(parts.error);
        }
        text := Join(" ", parts.value);
      } else if value.Closure? {
        return Thrown("TypeError");
      } else {
        text := ToText(value);
      }
      var piece := " " + KeyText(attrs[i].key) + "=\"" + escape(text) + "\"";
      PrefixAppend(output, piece, Pieces(attrs[i + 1..], escape));
      output := output + piece;
      i := i + 1;
    }
    assert attrs[i..] == [] && output + "" == output;
    r := if output == "" then Done("") else Done(" " + output);
  }

  // ---------------------------------------------------------------------------
  // Properties

  /** Every entry writes a non-empty attribute, so only the empty array
      gives the empty string; otherwise the result opens with the extra
      space and then the space of the first attribute. */
  lemma {:induction false} AttrsEmpty(attrs: PArray, escape: string -> string)
    requires Pieces(attrs, escape).Done?
    ensures AttrsSpec(attrs, escape) == Done("") <==> attrs == []
    ensures attrs != [] ==> |AttrsSpec(attrs, escape).value| >= 2 && AttrsSpec(attrs, escape).value[..2] == "  "
  {
    if attrs != [] {
      var p := Piece(attrs[0], escape).value;
      assert Pieces(attrs, escape).value == p + Pieces(attrs[1..], escape).value;
      assert p[0] == ' ';
    }
  }

  /** The attributes of two arrays are those of the first followed by those
      of the second: nothing is skipped, merged or reordered. */
  lemma {:induction false} PiecesConcat(a: PArray, b: PArray, escape: string -> string)
    ensures Pieces(a + b, escape) == match Pieces(a, escape)
                                     case Thrown(e) => Thrown(e)
                                     case Done(s) => Prefix(s, Pieces(b, escape))
  {
    if a == [] {
      assert a + b == b;
      if Pieces(b, escape).Done? {
        assert "" + Pieces(b, escape).value == Pieces(b, escape).value;
      }
    } else {
      assert (a + b)[0] == a[0] && (a + b)[1..] == a[1..] + b;
      PiecesConcat(a[1..], b, escape);
      if Piece(a[0], escape).Done? && Pieces(a[1..], escape).Done? {
        PrefixAppend(Piece(a[0], escape).value, Pieces(a[1..], escape).value, Pieces(b, escape));
      }
    }
  }

  /** The function fails exactly when a value is an object, or an array
      holding one. */
  lemma {:induction false} AttrsFail(attrs: PArray, escape: string -> string)
    ensures AttrsSpec(attrs, escape).Thrown? <==>
              exists e :: e in attrs && (e.val.Closure? || (e.val.Arr? && exists v :: v in Values(e.val.entries) && v.Closure?))
  {
    if attrs != [] {
      AttrsFail(attrs[1..], escape);
      assert forall e :: e in attrs <==> e == attrs[0] || e in attrs[1..];
    }
  }

  /** A single entry is written as the extra space before its attribute. */
  lemma AttrsOne(e: Entry, escape: string -> string, t: string)
    requires ValueText(e.val) == Done(t)
    ensures AttrsSpec([e], escape) == Done("  " + KeyText(e.key) + "=\"" + escape(t) + "\"")
  {
    var p := " " + KeyText(e.key) + "=\"" + escape(t) + "\"";
    assert [e][1..] == [] && p + "" == p;
    assert Pieces([e], escape) == Done(p);
    assert " " + p == "  " + KeyText(e.key) + "=\"" + escape(t) + "\"";
  }

  /** What a single attribute looks like for a scalar value. */
  lemma OneAttribute(k: Key, v: Value, escape: string -> string)
    requires !v.Closure? && !v.Arr?
    ensures AttrsSpec([Entry(k, v)], escape) ==
              Done("  " + KeyText(k) + "=\"" + escape(if v.Bool? then (if v.b then " true" else " false") else ToText(v)) + "\"")
  {
    AttrsOne(Entry(k, v), escape, if v.Bool? then (if v.b then " true" else " false") else ToText(v));
  }

  /** An array value is written as its values joined by spaces, keys ignored. */
  lemma ArrayAttribute(k: Key, es: PArray, escape: string -> string)
    requires forall v :: v in Values(es) ==> !v.Closure?
    ensures AttrsSpec([Entry(k, Arr(es))], escape) ==
              Done("  " + KeyText(k) + "=\"" + escape(Join(" ", Texts(Values(es)).value)) + "\"")
  {
    AttrsOne(Entry(k, Arr(es)), escape, Join(" ", Texts(Values(es)).value));
  }
}
