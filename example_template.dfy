/** The example component's default template: it adds UIkit heading and
    text classes to `attrs['class']`, one for each truthy style parameter,
    and writes the heading tag with the attributes and the content. */
module ExampleTemplate {
  import opened Php
  import FunctionsApi
  import opened ExampleComponent

  /** The parameter behind each of the eight optional classes, in order. */
  function RuleKey(i: nat): string
    requires i < 8
  {
    if i == 0 then "size"
    else if i == 1 then "divider"
    else if i == 2 then "bullet"
    else if i == 3 then "line"
    else if i == 4 then "decoration"
    else if i == 5 then "transform"
    else if i == 6 then "color"
    else "align"
  }

  /** The class a truthy parameter adds: `uk-heading-{size}`, the fixed
      heading styles, and `uk-text-{value}` for the text styles. */
  function RuleClass(params: PArray, i: nat): string
    requires i < 8
  {
    if i == 0 then "uk-heading-" + ToText(Param(params, "size"))
    else if i == 1 then "uk-heading-divider"
    else if i == 2 then "uk-heading-bullet"
    else if i == 3 then "uk-heading-line"
    else "uk-text-" + ToText(Param(params, RuleKey(i)))
  }

  /** The classes the first `n` conditions add, in order. */
  function Classes(params: PArray, n: nat): seq<string>
    requires n <= 8
  {
    if n == 0 then []
    else Classes(params, n - 1) + (if Truthy(Param(params, RuleKey(n - 1))) then [RuleClass(params, n - 1)] else [])
  }

  /** All the classes the template adds. */
  function Wanted(params: PArray): seq<string>
  {
    Classes(params, 8)
  }

  /** `$attrs['class'][] = $cls`: a missing, null or false class becomes a
      new list, a list grows by one, and a string or other scalar cannot be
      appended to. */
  function AddClass(attrs: PArray, cls: string): Outcome<PArray>
  {
    var c := LookupOr(attrs, StrKey("class"), Null);
    if c == Null || c == Bool(false) then Done(Put(attrs, StrKey("class"), Arr(Append([], Str(cls)))))
    else if c.Arr? then Done(Put(attrs, StrKey("class"), Arr(Append(c.entries, Str(cls)))))
    else Thrown("Error")
  }

  /** One more append, after the earlier ones succeeded. */
  function Add(o: Outcome<PArray>, cls: string): Outcome<PArray>
  {
    match o
    case Thrown(e) => Thrown(e)
    case Done(attrs) => AddClass(attrs, cls)
  }

  /** The classes appended one after another. */
  function AddAll(attrs: PArray, cs: seq<string>): Outcome<PArray>
  {
    if cs == [] then Done(attrs) else Add(AddAll(attrs, cs[..|cs| - 1]), cs[|cs| - 1])
  }

  /** The attributes after the first `n` conditions of the template. */
  function Added(params: PArray, attrs: PArray, n: nat): Outcome<PArray>
    requires n <= 8
  {
    if n == 0 then Done(attrs)
    else if Truthy(Param(params, RuleKey(n - 1))) then Add(Added(params, attrs, n - 1), RuleClass(params, n - 1))
    else Added(params, attrs, n - 1)
  }

  /** The classes as PHP strings. */
  function Strs(cs: seq<string>): seq<Value>
  {
    if cs == [] then [] else Strs(cs[..|cs| - 1]) + [Str(cs[|cs| - 1])]
  }

  /** What `default-template.php` writes: the heading tag with the
      attributes as `componentAttrs` writes them and the content inside. */
  function TemplateSpec(params: PArray, attrs: PArray, escape: string -> string): Outcome<string>
  {
    match Added(params, attrs, 8)
    case Thrown(e) => Thrown(e)
    case Done(a) =>
      match FunctionsApi.AttrsSpec(a, escape)
      case Thrown(e) => Thrown(e)
      case Done(text) => Done(Heading(ToText(Param(params, "tag")), text, ToText(Param(params, "content"))))
  }

  /** The line the template echoes: the tag with its attributes, the
      content, and the closing tag. */
  function Heading(tag: string, attrs: string, content: string): string
  {
    "<" + tag + attrs + ">" + content + "</" + tag + ">"
  }

  /** The heading opens and closes the same tag, with the content just
      before the closing tag. */
  lemma HeadingTags(tag: string, attrs: string, content: string)
    ensures var out := Heading(tag, attrs, content);
            var close := content + "</" + tag + ">";
            && |out| >= 1 + |tag| + |close|
            && out[..1 + |tag|] == "<" + tag
            && out[|out| - |close|..] == close
  {
    var out := Heading(tag, attrs, content);
    var close := content + "</" + tag + ">";
    assert out == ("<" + tag) + (attrs + ">") + close;
  }

  lemma AddAllSnoc(attrs: PArray, cs: seq<string>, c: string)
    ensures AddAll(attrs, cs + [c]) == Add(AddAll(attrs, cs), c)
  {
    assert (cs + [c])[..|cs|] == cs;
  }

  /** Running the conditions appends exactly the wanted classes, in order. */
  lemma {:induction false} AddedIsAddAll(params: PArray, attrs: PArray, n: nat)
    requires n <= 8
    ensures Added(params, attrs, n) == AddAll(attrs, Classes(params, n))
  {
    if n > 0 {
      AddedIsAddAll(params, attrs, n - 1);
      if Truthy(Param(params, RuleKey(n - 1))) {
        assert Classes(params, n) == Classes(params, n - 1) + [RuleClass(params, n - 1)];
        AddAllSnoc(attrs, Classes(params, n - 1), RuleClass(params, n - 1));
      } else {
        assert Classes(params, n) == Classes(params, n - 1) + [];
        assert Classes(params, n - 1) + [] == Classes(params, n - 1);
      }
    }
  }

  /** `default-template.php`. */
  method TemplateDefault(params: PArray, attrs: PArray, escape: string -> string) returns (out: Outcome<string>)
    ensures out == TemplateSpec(params, attrs, escape)
  {
    var current := Done(attrs);
    if Truthy(Param(params, "size")) {
      current := Add(current, "uk-heading-" + ToText(Param(params, "size")));
    }
    assert current == Added(params, attrs, 1);
    if Truthy(Param(params, "divider")) {
      current := Add(current, "uk-heading-divider");
    }
    assert current == Added(params, attrs, 2);
    if Truthy(Param(params, "bullet")) {
      current := Add(current, "uk-heading-bullet");
    }
    assert current == Added(params, attrs, 3);
    if Truthy(Param(params, "line")) {
      current := Add(current, "uk-heading-line");
    }
    assert current == Added(params, attrs, 4);
    if Truthy(Param(params, "decoration")) {
      current := Add(current, "uk-text-" + ToText(Param(params, "decoration")));
    }
    assert current == Added(params, attrs, 5);
    if Truthy(Param(params, "transform")) {
      current := Add(current, "uk-text-" + ToText(Param(params, "transform")));
    }
    assert current == Added(params, attrs, 6);
    if Truthy(Param(params, "color")) {
      current := Add(current, "uk-text-" + ToText(Param(params, "color")));
    }
    assert current == Added(params, attrs, 7);
    if Truthy(Param(params, "align")) {
      current := Add(current, "uk-text-" + ToText(Param(params, "align")));
    }
    assert current == Added(params, attrs, 8);
    if current.Thrown? {
      return Thrown(current.error);
    }
    var text := FunctionsApi.ComponentAttrs(current.value, escape);
    if text.Thrown? {
      return Thrown(text.error);
    }
    out := Done(Heading(ToText(Param(params, "tag")), text.value, ToText(Param(params, "content"))));
  }

  // ---------------------------------------------------------------------------
  // Properties of the template

  /** On a class list the appends keep the classes already there, add the
      new ones after them in order, and touch no other attribute. */
  lemma {:induction false} AddAllToList(attrs: PArray, es: PArray, cs: seq<string>)
    requires Lookup(attrs, StrKey("class")) == Some(Arr(es))
    ensures AddAll(attrs, cs).Done?
    ensures var r := AddAll(attrs, cs).value;
            && Lookup(r, StrKey("class")).Some? && Lookup(r, StrKey("class")).value.Arr?
            && Values(Lookup(r, StrKey("class")).value.entries) == Values(es) + Strs(cs)
            && forall k :: k != StrKey("class") ==> Lookup(r, k) == Lookup(attrs, k)
  {
    if cs == [] {
      assert Values(es) + Strs(cs) == Values(es);
    } else {
      var init := cs[..|cs| - 1];
      var c := cs[|cs| - 1];
      AddAllToList(attrs, es, init);
      var r0 := AddAll(attrs, init).value;
      var es0 := Lookup(r0, StrKey("class")).value.entries;
      AddToList(r0, es0, c);
      assert AddAll(attrs, cs) == AddClass(r0, c);
      assert Strs(cs) == Strs(init) + [Str(c)];
      Regroup(Values(es), Strs(init), [Str(c)]);
    }
  }

  /** One append to a class list. */
  lemma AddToList(attrs: PArray, es: PArray, c: string)
    requires Lookup(attrs, StrKey("class")) == Some(Arr(es))
    ensures AddClass(attrs, c) == Done(Put(attrs, StrKey("class"), Arr(Append(es, Str(c)))))
    ensures Values(Append(es, Str(c))) == Values(es) + [Str(c)]
  {
  }

  /** With the eight style parameters all falsy no class is added. */
  lemma NothingWanted(params: PArray)
    requires !Truthy(Param(params, "size")) && !Truthy(Param(params, "divider"))
    requires !Truthy(Param(params, "bullet")) && !Truthy(Param(params, "line"))
    requires !Truthy(Param(params, "decoration")) && !Truthy(Param(params, "transform"))
    requires !Truthy(Param(params, "color")) && !Truthy(Param(params, "align"))
    ensures Wanted(params) == []
  {
    ClassesOff(params, 1);
    ClassesOff(params, 2);
    ClassesOff(params, 3);
    ClassesOff(params, 4);
    ClassesOff(params, 5);
    ClassesOff(params, 6);
    ClassesOff(params, 7);
    ClassesOff(params, 8);
  }

  /** With the defaults no class is added. */
  lemma DefaultsAddNothing()
    ensures Wanted(Defaults()) == []
  {
    DefaultsTable();
    NothingWanted(Defaults());
  }

  /** No class is added exactly when all eight parameters are falsy. */
  lemma {:induction false} NothingAddedIff(params: PArray, n: nat)
    requires n <= 8
    ensures Classes(params, n) == [] <==> forall i :: 0 <= i < n ==> !Truthy(Param(params, RuleKey(i)))
  {
    if n > 0 {
      NothingAddedIff(params, n - 1);
    }
  }

  /** Every truthy parameter adds its class, and every added class belongs
      to a truthy parameter. */
  lemma {:induction false} ClassesAre(params: PArray, n: nat)
    requires n <= 8
    ensures forall i :: 0 <= i < n && Truthy(Param(params, RuleKey(i))) ==> RuleClass(params, i) in Classes(params, n)
    ensures forall c :: c in Classes(params, n) ==>
              exists i :: 0 <= i < n && Truthy(Param(params, RuleKey(i))) && c == RuleClass(params, i)
    ensures |Classes(params, n)| <= n
  {
    if n > 0 {
      ClassesAre(params, n - 1);
      var last := if Truthy(Param(params, RuleKey(n - 1))) then [RuleClass(params, n - 1)] else [];
      assert Classes(params, n) == Classes(params, n - 1) + last;
      forall c | c in Classes(params, n)
        ensures exists i :: 0 <= i < n && Truthy(Param(params, RuleKey(i))) && c == RuleClass(params, i)
      {
        if c !in Classes(params, n - 1) {
          assert c in last;
        }
      }
    }
  }

  /** Every style on, all eight classes are added once each, in the
      template's fixed order: size, divider, bullet, line, then the text
      decoration, transform, color and alignment. */
  lemma AllStylesOrder(params: PArray)
    requires forall i :: 0 <= i < 8 ==> Truthy(Param(params, RuleKey(i)))
    ensures |Wanted(params)| == 8
    ensures forall i :: 0 <= i < 8 ==> Wanted(params)[i] == RuleClass(params, i)
  {
    var c := seq(8, i requires 0 <= i < 8 => RuleClass(params, i));
    ClassesPrefix(params, c, 8);
    assert c[..8] == c;
  }

  lemma {:induction false} ClassesPrefix(params: PArray, c: seq<string>, n: nat)
    requires n <= 8 && |c| == 8
    requires forall i :: 0 <= i < 8 ==> Truthy(Param(params, RuleKey(i))) && c[i] == RuleClass(params, i)
    ensures Classes(params, n) == c[..n]
  {
    if n > 0 {
      ClassesPrefix(params, c, n - 1);
      assert Truthy(Param(params, RuleKey(n - 1))) && c[n - 1] == RuleClass(params, n - 1);
      ClassesOn(params, n);
      PrefixStep(c, n);
    }
  }

  /** A falsy parameter appends nothing. */
  lemma ClassesOff(params: PArray, n: nat)
    requires 0 < n <= 8 && !Truthy(Param(params, RuleKey(n - 1)))
    ensures Classes(params, n) == Classes(params, n - 1)
  {
    assert Classes(params, n - 1) + [] == Classes(params, n - 1);
  }

  /** A truthy parameter appends its class. */
  lemma ClassesOn(params: PArray, n: nat)
    requires 0 < n <= 8 && Truthy(Param(params, RuleKey(n - 1)))
    ensures Classes(params, n) == Classes(params, n - 1) + [RuleClass(params, n - 1)]
  {
  }

  /** The output opens and closes the same tag, `params['tag']`, with the
      content just before the closing tag. */
  lemma TemplateTags(params: PArray, attrs: PArray, escape: string -> string)
    requires TemplateSpec(params, attrs, escape).Done?
    ensures var out := TemplateSpec(params, attrs, escape).value;
            var tag := ToText(Param(params, "tag"));
            var close := ToText(Param(params, "content")) + "</" + tag + ">";
            && |out| >= 1 + |tag| + |close|
            && out[..1 + |tag|] == "<" + tag
            && out[|out| - |close|..] == close
  {
    var a := Added(params, attrs, 8).value;
    var text := FunctionsApi.AttrsSpec(a, escape).value;
    HeadingTags(ToText(Param(params, "tag")), text, ToText(Param(params, "content")));
  }
}
