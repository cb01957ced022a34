/** The tag serialiser of `Element`: void-element names, opening and closing
    tags, attribute maps (whose array values are conditional class
    expressions, evaluated by the expression engine), and the element object
    with its `attr`, `copy` and `render`.

    `htmlspecialchars` is the parameter `escape` and a placeholder's regular
    expression test is the parameter `matches`. */
module Element {
  import opened Php
  import opened Expression
  import Arr

  // ---------------------------------------------------------------------------
  // Void elements

  /** The sixteen element names that take no closing tag. */
  const VoidNames: set<string> := {
    "area", "base", "br", "col", "embed", "hr", "img", "input",
    "keygen", "link", "menuitem", "meta", "param", "source", "track", "wbr"
  }

  /** `isSelfClosing($name)`: membership of the lower-cased name. */
  predicate IsSelfClosing(name: string)
  {
    ToLower(name) in VoidNames
  }

  /** Whether a name is self-closing does not depend on its letter case. */
  lemma SelfClosingIgnoresCase(name: string)
    ensures IsSelfClosing(name) <==> IsSelfClosing(ToLower(name))
  {
    assert ToLower(ToLower(name)) == ToLower(name);
  }

  lemma SelfClosingExamples()
    ensures IsSelfClosing("BR") && IsSelfClosing("Img") && IsSelfClosing("wbr")
    ensures !IsSelfClosing("div") && !IsSelfClosing("h1")
  {
    assert ToLower("BR") == "br";
    assert ToLower("Img") == "img";
    assert ToLower("wbr") == "wbr";
    assert ToLower("div") == "div";
    assert ToLower("h1") == "h1";
  }

  // ---------------------------------------------------------------------------
  // Numbers as PHP's `is_numeric` sees them

  function DotCount(s: string): nat
  {
    if s == [] then 0 else (if s[0] == '.' then 1 else 0) + DotCount(s[1..])
  }

  /** A numeric string: an optional sign, then digits with at most one decimal
      point and at least one digit. */
  predicate IsNumericText(s: string)
  {
    var body := if s != [] && (s[0] == '+' || s[0] == '-') then s[1..] else s;
    body != [] && body != "." && DotCount(body) <= 1
    && forall c :: c in body ==> IsDigit(c) || c == '.'
  }

  predicate IsNumeric(v: Value)
  {
    v.Int? || (v.Str? && IsNumericText(v.s))
  }

  predicate IsNumericKey(k: Key)
  {
    k.IntKey? || IsNumericText(k.s)
  }

  // ---------------------------------------------------------------------------
  // expr

  /** `array_replace` of the parameters with each extra argument in turn. */
  function ReplaceAll(params: PArray, extra: seq<PArray>): PArray
    decreases |extra|
  {
    if extra == [] then params else ReplaceAll(Replace(params, extra[0]), extra[1..])
  }

  /** The expression an entry stands for: the key, or for an integer key the
      condition itself. */
  function ExpressionOf(e: Entry): string
  {
    if e.key.IntKey? then ToText(e.val) else e.key.s
  }

  /** What one entry of `expr` contributes: nothing for a falsy condition or
      a falsy result; otherwise the expression evaluated with the parameters
      replaced by the condition cast to an array. */
  function ExprPiece(e: Entry, params: PArray, matches: (string, string) -> bool): Option<string>
  {
    if !Truthy(e.val) then None
    else
      var r := Evaluate(ExpressionOf(e), Replace(params, Arr.Wrap(e.val)), matches);
      if Truthy(Str(r)) then Some(r) else None
  }

  function ExprPieces(entries: PArray, params: PArray, matches: (string, string) -> bool): seq<string>
  {
    if entries == [] then []
    else
      (match ExprPiece(entries[0], params, matches) case Some(r) => [r] case None => [])
      + ExprPieces(entries[1..], params, matches)
  }

  /** `expr($expressions, $params, ...$extra)`: the non-empty results joined
      by single spaces, or null when none remains. */
  function ExprSpec(expressions: Value, params: PArray, extra: seq<PArray>, matches: (string, string) -> bool): Option<string>
  {
    var pieces := ExprPieces(Arr.Wrap(expressions), ReplaceAll(params, extra), matches);
    if pieces == [] then None else Some(Join(" ", pieces))
  }

  /** No piece remains exactly when every entry has a falsy condition or a
      falsy result. */
  lemma {:induction false} ExprPiecesEmpty(entries: PArray, params: PArray, matches: (string, string) -> bool)
    ensures ExprPieces(entries, params, matches) == [] <==>
              forall i :: 0 <= i < |entries| ==> ExprPiece(entries[i], params, matches).None?
  {
    if entries != [] {
      var rest := entries[1..];
      ExprPiecesEmpty(rest, params, matches);
      var head := ExprPiece(entries[0], params, matches);
      assert ExprPieces(entries, params, matches)
             == (match head case Some(r) => [r] case None => []) + ExprPieces(rest, params, matches);
      assert forall i :: 1 <= i < |entries| ==> entries[i] == rest[i - 1];
    }
  }

  lemma ExprPiecesStep(entries: PArray, i: nat, params: PArray, matches: (string, string) -> bool)
    requires i < |entries|
    ensures ExprPieces(entries[i..], params, matches)
            == (match ExprPiece(entries[i], params, matches) case Some(r) => [r] case None => [])
               + ExprPieces(entries[i + 1..], params, matches)
  {
    SuffixStep(entries, i);
  }

  lemma ExprStep(output: seq<string>, entries: PArray, i: nat, params: PArray, matches: (string, string) -> bool,
                  piece: Option<string>)
    requires i < |entries|
    requires output + ExprPieces(entries[i..], params, matches) == ExprPieces(entries, params, matches)
    requires piece == ExprPiece(entries[i], params, matches)
    ensures (if piece.Some? then output + [piece.value] else output) + ExprPieces(entries[i + 1..], params, matches)
            == ExprPieces(entries, params, matches)
  {
    ExprPiecesStep(entries, i, params, matches);
    var tail := ExprPieces(entries[i + 1..], params, matches);
    Regroup(output, if piece.Some? then [piece.value] else [], tail);
  }

  /** `expr` returns null exactly when no entry yields a piece. */
  lemma ExprNull(expressions: Value, params: PArray, extra: seq<PArray>, matches: (string, string) -> bool)
    ensures ExprSpec(expressions, params, extra, matches).None? <==>
              forall e :: e in Arr.Wrap(expressions) ==> ExprPiece(e, ReplaceAll(params, extra), matches).None?
  {
    var entries, ps := Arr.Wrap(expressions), ReplaceAll(params, extra);
    ExprPiecesEmpty(entries, ps, matches);
    assert ExprSpec(expressions, params, extra, matches).None? <==> ExprPieces(entries, ps, matches) == [];
    assert (forall e :: e in entries ==> ExprPiece(e, ps, matches).None?) <==>
           (forall i :: 0 <= i < |entries| ==> ExprPiece(entries[i], ps, matches).None?);
  }

  // ---------------------------------------------------------------------------
  // attrs

  /** An attribute value after `expr` has turned an array into a string or null. */
  function AttrValue(v: Value, params: PArray, matches: (string, string) -> bool): Value
  {
    if v.Arr? then
      match ExprSpec(v, params, [], matches)
      case Some(t) => Str(t)
      case None => Null
    else v
  }

  /** What one attribute contributes: nothing when the value is empty and not
      numeric; the bare value under a numeric key; the bare key for `true`;
      otherwise `key="escaped value"`. */
  function AttrPiece(e: Entry, params: PArray, escape: string -> string, matches: (string, string) -> bool): Option<string>
  {
    var v := AttrValue(e.val, params, matches);
    if !Truthy(v) && !IsNumeric(v) then None
    else if IsNumericKey(e.key) then Some(ToText(v))
    else if v == Bool(true) then Some(e.key.s)
    else if v != Str("") then Some(e.key.s + "=\"" + escape(ToText(v)) + "\"")
    else None
  }

  function AttrPieces(attrs: PArray, params: PArray, escape: string -> string, matches: (string, string) -> bool): seq<string>
  {
    if attrs == [] then []
    else
      (match AttrPiece(attrs[0], params, escape, matches) case Some(p) => [p] case None => [])
      + AttrPieces(attrs[1..], params, escape, matches)
  }

  /** `attrs($attrs, $params)`: a space and the pieces joined by spaces, or
      nothing when there is no piece. */
  function AttrsText(attrs: PArray, params: PArray, escape: string -> string, matches: (string, string) -> bool): string
  {
    var pieces := AttrPieces(attrs, params, escape, matches);
    if pieces == [] then "" else " " + Join(" ", pieces)
  }

  /** Null, false, the empty string and the empty array are dropped. */
  lemma EmptyValuesDropped(k: Key, v: Value, params: PArray, escape: string -> string, matches: (string, string) -> bool)
    requires v == Null || v == Bool(false) || v == Str("") || v == Arr([])
    ensures AttrPiece(Entry(k, v), params, escape, matches).None?
  {
    if v == Arr([]) {
      assert ExprPieces([], params, matches) == [];
    }
  }

  /** Zero, as a number or as the string "0", is kept. */
  lemma ZeroKept(s: string, v: Value, params: PArray, escape: string -> string, matches: (string, string) -> bool)
    requires !IsNumericText(s)
    requires v == Int(0) || v == Str("0")
    ensures AttrPiece(Entry(StrKey(s), v), params, escape, matches) == Some(s + "=\"" + escape("0") + "\"")
  {
    assert IsNumeric(v) by {
      if v == Str("0") {
        assert forall c :: c in "0" ==> IsDigit(c) || c == '.';
        assert DotCount("0") == 0;
      }
    }
    assert ToText(v) == "0";
  }

  /** `true` yields the bare key, and a numeric key the bare value. */
  lemma BareForms(s: string, i: int, v: Value, params: PArray, escape: string -> string, matches: (string, string) -> bool)
    requires !IsNumericText(s)
    requires !v.Arr? && (Truthy(v) || IsNumeric(v))
    ensures AttrPiece(Entry(StrKey(s), Bool(true)), params, escape, matches) == Some(s)
    ensures AttrPiece(Entry(IntKey(i), v), params, escape, matches) == Some(ToText(v))
  {
  }

  /** `attrs` is empty exactly when no attribute yields a piece, and otherwise
      begins with one space. */
  lemma {:induction false} AttrsEmpty(attrs: PArray, params: PArray, escape: string -> string, matches: (string, string) -> bool)
    ensures AttrsText(attrs, params, escape, matches) == "" <==>
              forall i :: 0 <= i < |attrs| ==> AttrPiece(attrs[i], params, escape, matches).None?
    ensures AttrsText(attrs, params, escape, matches) != "" ==> AttrsText(attrs, params, escape, matches)[0] == ' '
  {
    AttrPiecesEmpty(attrs, params, escape, matches);
  }

  lemma AttrPiecesStep(attrs: PArray, i: nat, params: PArray, escape: string -> string, matches: (string, string) -> bool)
    requires i < |attrs|
    ensures AttrPieces(attrs[i..], params, escape, matches)
            == (match AttrPiece(attrs[i], params, escape, matches) case Some(p) => [p] case None => [])
               + AttrPieces(attrs[i + 1..], params, escape, matches)
  {
    SuffixStep(attrs, i);
  }

  lemma AttrStep(output: seq<string>, attrs: PArray, i: nat, params: PArray, escape: string -> string,
                  matches: (string, string) -> bool, piece: Option<string>)
    requires i < |attrs|
    requires output + AttrPieces(attrs[i..], params, escape, matches) == AttrPieces(attrs, params, escape, matches)
    requires piece == AttrPiece(attrs[i], params, escape, matches)
    ensures (if piece.Some? then output + [piece.value] else output) + AttrPieces(attrs[i + 1..], params, escape, matches)
            == AttrPieces(attrs, params, escape, matches)
  {
    AttrPiecesStep(attrs, i, params, escape, matches);
    var tail := AttrPieces(attrs[i + 1..], params, escape, matches);
    Regroup(output, if piece.Some? then [piece.value] else [], tail);
  }

  lemma {:induction false} AttrPiecesEmpty(attrs: PArray, params: PArray, escape: string -> string, matches: (string, string) -> bool)
    ensures AttrPieces(attrs, params, escape, matches) == [] <==>
              forall i :: 0 <= i < |attrs| ==> AttrPiece(attrs[i], params, escape, matches).None?
  {
    if attrs != [] {
      AttrPiecesEmpty(attrs[1..], params, escape, matches);
      assert forall i :: 1 <= i < |attrs| ==> attrs[i] == attrs[1..][i - 1];
    }
  }

  // ---------------------------------------------------------------------------
  // tag

  /** Array contents joined without separator; anything else as text. */
  function ContentsText(contents: Value): string
  {
    if contents.Arr? then JoinAll(Values(contents.entries)) else ToText(contents)
  }

  function JoinAll(vs: seq<Value>): string
  {
    if vs == [] then "" else ToText(vs[0]) + JoinAll(vs[1..])
  }

  /** The attribute text of a tag: rendered from an array, else the value as text. */
  function TagAttrs(attrs: Value, params: PArray, escape: string -> string, matches: (string, string) -> bool): string
  {
    if attrs.Arr? then AttrsText(attrs.entries, params, escape, matches) else ToText(attrs)
  }

  /** `tag($name, $attrs, $contents, $params)`: the opening tag alone for
      `false` contents or a void element, else opening tag, contents and
      closing tag. */
  function TagText(name: string, attrs: Value, contents: Value, params: PArray,
                   escape: string -> string, matches: (string, string) -> bool): string
  {
    TagOf(name, TagAttrs(attrs, params, escape, matches), !(contents == Bool(false) || IsSelfClosing(name)), contents)
  }

  /** The tag for a given attribute text, closed or not. */
  function TagOf(name: string, attrText: string, closes: bool, contents: Value): string
  {
    var open := "<" + name + attrText + ">";
    if closes then open + ContentsText(contents) + "</" + name + ">" else open
  }

  /** The opening tag, with whatever attribute text, always comes first; the
      tag is just that when it does not close, and otherwise ends with the
      closing tag of the same name. */
  lemma TagCloses(name: string, attrText: string, closes: bool, contents: Value)
    ensures var t := TagOf(name, attrText, closes, contents);
            var open := "<" + name + attrText + ">";
            open <= t
            && (!closes <==> t == open)
            && (closes ==> t[|t| - |name| - 3..] == "</" + name + ">")
  {
    var open := "<" + name + attrText + ">";
    var close := "</" + name + ">";
    assert |close| == |name| + 3;
    if closes {
      var body := open + ContentsText(contents);
      assert TagOf(name, attrText, closes, contents) == body + close;
      Parts(open, ContentsText(contents));
      Parts(body, close);
      assert |body + close| > |open|;
    }
  }

  // ---------------------------------------------------------------------------
  // The imperative loops, against the expression engine's memo

  /** One pass of the loop of `expr`. */
  method ExprEntry(engine: ExpressionEngine, e: Entry, params: PArray, matches: (string, string) -> bool)
    returns (piece: Option<string>)
    requires engine.Valid()
    modifies engine
    ensures engine.Valid()
    ensures piece == ExprPiece(e, params, matches)
  {
    piece := None;
    if Truthy(e.val) {
      var expression := ExpressionOf(e);
      var result := engine.EvaluateExpression(expression, Replace(params, Arr.Wrap(e.val)), matches);
      if Truthy(Str(result)) {
        piece := Some(result);
      }
    }
  }

  /** `expr`: the extra parameter arrays replace into `params`, then the
      loop over the expressions. */
  method Expr(engine: ExpressionEngine, expressions: Value, params: PArray, extra: seq<PArray>,
              matches: (string, string) -> bool) returns (r: Option<string>)
    requires engine.Valid()
    modifies engine
    ensures engine.Valid()
    ensures r == ExprSpec(expressions, params, extra, matches)
  {
    var ps := params;
    if |extra| > 0 {
      ps := ReplaceAll(params, extra);
    }
    assert ps == ReplaceAll(params, extra);
    var output := ExprLoop(engine, Arr.Wrap(expressions), ps, matches);
    if output == [] {
      return None;
    }
    return Some(Join(" ", output));
  }

  /** The loop of `expr`: the non-empty results, in order. */
  method ExprLoop(engine: ExpressionEngine, entries: PArray, ps: PArray, matches: (string, string) -> bool)
    returns (output: seq<string>)
    requires engine.Valid()
    modifies engine
    ensures engine.Valid()
    ensures output == ExprPieces(entries, ps, matches)
  {
    output := [];
    var i := 0;
    assert entries[i..] == entries;
    while i < |entries|
      invariant 0 <= i <= |entries|
      invariant engine.Valid()
      invariant output + ExprPieces(entries[i..], ps, matches) == ExprPieces(entries, ps, matches)
    {
      var piece := ExprEntry(engine, entries[i], ps, matches);
      ExprStep(output, entries, i, ps, matches, piece);
      if piece.Some? {
        output := output + [piece.value];
      }
      i := i + 1;
    }
    assert entries[i..] == [];
    Regroup(output, [], []);
  }

  /** The loop of `attrs`. */
  method Attrs(engine: ExpressionEngine, attrs: PArray, params: PArray,
               escape: string -> string, matches: (string, string) -> bool) returns (r: string)
    requires engine.Valid()
    modifies engine
    ensures engine.Valid()
    ensures r == AttrsText(attrs, params, escape, matches)
  {
    var output: seq<string> := [];
    var i := 0;
    assert attrs[i..] == attrs;
    while i < |attrs|
      invariant 0 <= i <= |attrs|
      invariant engine.Valid()
      invariant output + AttrPieces(attrs[i..], params, escape, matches) == AttrPieces(attrs, params, escape, matches)
    {
      var key, value := attrs[i].key, attrs[i].val;
      if value.Arr? {
        var x := Expr(engine, value, params, [], matches);
        value := if x.Some? then Str(x.value) else Null;
      }
      var piece: Option<string> := None;
      if !Truthy(value) && !IsNumeric(value) {
      } else if IsNumericKey(key) {
        piece := Some(ToText(value));
      } else if value == Bool(true) {
        piece := Some(key.s);
      } else if value != Str("") {
        piece := Some(key.s + "=\"" + escape(ToText(value)) + "\"");
      }
      AttrStep(output, attrs, i, params, escape, matches, piece);
      if piece.Some? {
        output := output + [piece.value];
      }
      i := i + 1;
    }
    assert attrs[i..] == [];
    assert output == AttrPieces(attrs, params, escape, matches);
    if output == [] {
      return "";
    }
    return " " + Join(" ", output);
  }

  /** `tag`, rendering array attributes through `attrs`. */
  method Tag(engine: ExpressionEngine, name: string, attrs: Value, contents: Value, params: PArray,
             escape: string -> string, matches: (string, string) -> bool) returns (r: string)
    requires engine.Valid()
    modifies engine
    ensures engine.Valid()
    ensures r == TagText(name, attrs, contents, params, escape, matches)
  {
    var a := ToText(attrs);
    if attrs.Arr? {
      a := Attrs(engine, attrs.entries, params, escape, matches);
    }
    var c := ContentsText(contents);
    if contents == Bool(false) || IsSelfClosing(name) {
      return "<" + name + a + ">";
    }
    return "<" + name + a + ">" + c + "</" + name + ">";
  }

  // ---------------------------------------------------------------------------
  // The element object

  /** The arguments of `attr`: a whole attribute array, or one name and value. */
  function AttrArgs(name: Value, value: Value): PArray
  {
    if name.Arr? then name.entries else [Entry(NormKey(ToText(name)), value)]
  }

  class Element {
    var name: string
    var attrs: PArray
    var contents: Value

    constructor (name: string, attrs: PArray, contents: Value)
      ensures this.name == name && this.attrs == attrs && this.contents == contents
    {
      this.name := name;
      this.attrs := attrs;
      this.contents := contents;
    }

    /** `end()`: the closing tag, empty exactly for a void element. */
    function End(): (r: string)
      reads this
      ensures r == "" <==> IsSelfClosing(name)
      ensures r != "" ==> r == "</" + name + ">"
    {
      if IsSelfClosing(name) then "" else "</" + name + ">"
    }

    /** `attr($name, $value)`: the attributes merged in with `Arr::merge`. */
    method Attr(name: Value, value: Value)
      modifies this
      ensures attrs == Arr.MergeSpec(old(attrs), AttrArgs(name, value))
      ensures this.name == old(this.name) && contents == old(contents)
    {
      var merged := Arr.Merge(attrs, AttrArgs(name, value));
      attrs := merged;
    }

    /** `copy($attrs, $contents, $name)`: a clone, with array attributes merged
        in, a non-array non-null first argument taken as the contents, and the
        name and contents replaced when given. */
    method Copy(attrs: Value, contents: Value, name: Option<string>) returns (clone: Element)
      ensures fresh(clone)
      ensures clone.attrs == CopiedAttrs(this.attrs, attrs)
      ensures clone.contents == CopiedContents(this.contents, attrs, contents)
      ensures clone.name == if name.Some? then name.value else this.name
    {
      clone := new Element(this.name, this.attrs, this.contents);
      var newContents := contents;
      if attrs.Arr? {
        clone.Attr(attrs, Null);
      } else if attrs != Null {
        newContents := attrs;
      }
      if name.Some? {
        clone.name := name.value;
      }
      if newContents != Null {
        clone.contents := newContents;
      }
    }

    /** `render($params, $attrs, $contents, $name)`: the tag of this element,
        or of a copy when attributes are given (when they are not, the
        contents and name arguments are ignored). */
    method Render(engine: ExpressionEngine, params: PArray, attrs: Value, contents: Value, name: Option<string>,
                  escape: string -> string, matches: (string, string) -> bool) returns (r: string)
      requires engine.Valid()
      modifies engine
      ensures engine.Valid()
      ensures attrs == Null ==> r == TagText(old(this.name), Arr(old(this.attrs)), old(this.contents), params, escape, matches)
      ensures attrs != Null ==>
                r == TagText(if name.Some? then name.value else old(this.name),
                             Arr(CopiedAttrs(old(this.attrs), attrs)),
                             CopiedContents(old(this.contents), attrs, contents), params, escape, matches)
    {
      var element := this;
      if attrs != Null {
        element := Copy(attrs, contents, name);
      }
      r := Tag(engine, element.name, Arr(element.attrs), element.contents, params, escape, matches);
    }
  }

  /** The attributes of a copy: array arguments merged in. */
  function CopiedAttrs(attrs: PArray, arg: Value): PArray
  {
    if arg.Arr? then Arr.MergeSpec(attrs, AttrArgs(arg, Null)) else attrs
  }

  /** The contents of a copy: a non-array first argument, else the contents
      argument, when not null; otherwise unchanged. */
  function CopiedContents(contents: Value, attrsArg: Value, contentsArg: Value): Value
  {
    var c := if !attrsArg.Arr? && attrsArg != Null then attrsArg else contentsArg;
    if c != Null then c else contents
  }
}
