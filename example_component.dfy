/** The example component's definition file: a defaults table, a
    `transform` closure that wraps the content in a `<span>` for the `line`
    style, and a `render` guard that needs content.

    The two closures are the runtime `Closures()`: closure 0 is the
    transform, closure 1 the guard. */
module ExampleComponent {
  import opened Php
  import opened Registry
  import ComponentModule

  // ---------------------------------------------------------------------------
  // The definition file

  /** The `params` defaults. */
  function Defaults(): PArray
  {
    [Entry(StrKey("theme"), Str("default")),
     Entry(StrKey("content"), Str("")),
     Entry(StrKey("tag"), Str("h1")),
     Entry(StrKey("size"), Str("")),
     Entry(StrKey("divider"), Bool(false)),
     Entry(StrKey("bullet"), Bool(false)),
     Entry(StrKey("line"), Bool(false)),
     Entry(StrKey("decoration"), Str("")),
     Entry(StrKey("transform"), Str("")),
     Entry(StrKey("color"), Str("")),
     Entry(StrKey("align"), Str(""))]
  }

  /** The array the definition file returns. */
  function Definition(): PArray
  {
    [Entry(StrKey("params"), Arr(Defaults())),
     Entry(StrKey("transform"), Closure(0, 2)),
     Entry(StrKey("render"), Closure(1, 1))]
  }

  /** `$params[$key]`, null when missing. */
  function Param(params: PArray, key: string): Value
  {
    LookupOr(params, StrKey(key), Null)
  }

  /** The body of the `transform` closure. */
  function TransformParams(params: PArray): PArray
  {
    if Truthy(Param(params, "content")) && Truthy(Param(params, "line")) then
      Put(params, StrKey("content"), Str("<span>" + ToText(Param(params, "content")) + "</span>"))
    else params
  }

  /** The body of the `render` closure. */
  predicate Shows(params: PArray)
  {
    Truthy(Param(params, "content"))
  }

  /** The two closures of the definition file; an argument that is not an
      array cannot reach them (their parameters are declared `array`). */
  function Apply(id: nat, args: seq<Value>): Value
  {
    if |args| == 0 || !args[0].Arr? then Null
    else if id == 0 then Arr(TransformParams(args[0].entries))
    else if id == 1 then Bool(Shows(args[0].entries))
    else Null
  }

  function Closures(): Runtime
  {
    Runtime(Apply)
  }

  /** The defaults: theme `default`, tag `h1`, empty content, and every
      style parameter falsy. */
  lemma DefaultsTable()
    ensures Param(Defaults(), "theme") == Str("default") && Param(Defaults(), "tag") == Str("h1")
    ensures Param(Defaults(), "content") == Str("")
    ensures !Truthy(Param(Defaults(), "size")) && !Truthy(Param(Defaults(), "divider"))
    ensures !Truthy(Param(Defaults(), "bullet")) && !Truthy(Param(Defaults(), "line"))
    ensures !Truthy(Param(Defaults(), "decoration")) && !Truthy(Param(Defaults(), "transform"))
    ensures !Truthy(Param(Defaults(), "color")) && !Truthy(Param(Defaults(), "align"))
  {
    DefaultsBasics(Defaults());
    DefaultsHeading(Defaults());
    DefaultsText(Defaults());
  }

  lemma DefaultsBasics(d: PArray)
    requires d == Defaults()
    ensures Param(d, "theme") == Str("default") && Param(d, "tag") == Str("h1") && Param(d, "content") == Str("")
  {
    assert LookupFrom(Defaults(), StrKey("theme"), 0) == Some(Str("default"));
    assert LookupFrom(Defaults(), StrKey("tag"), 0) == Some(Str("h1"));
    assert LookupFrom(Defaults(), StrKey("content"), 0) == Some(Str(""));
    LookupByIndex(d, StrKey("theme"));
    LookupByIndex(d, StrKey("tag"));
    LookupByIndex(d, StrKey("content"));
  }

  lemma DefaultsHeading(d: PArray)
    requires d == Defaults()
    ensures Param(d, "size") == Str("") && Param(d, "divider") == Bool(false)
    ensures Param(d, "bullet") == Bool(false) && Param(d, "line") == Bool(false)
  {
    assert LookupFrom(Defaults(), StrKey("size"), 0) == Some(Str(""));
    assert LookupFrom(Defaults(), StrKey("divider"), 0) == Some(Bool(false));
    assert LookupFrom(Defaults(), StrKey("bullet"), 0) == Some(Bool(false));
    assert LookupFrom(Defaults(), StrKey("line"), 0) == Some(Bool(false));
    LookupByIndex(d, StrKey("size"));
    LookupByIndex(d, StrKey("divider"));
    LookupByIndex(d, StrKey("bullet"));
    LookupByIndex(d, StrKey("line"));
  }

  lemma DefaultsText(d: PArray)
    requires d == Defaults()
    ensures Param(d, "decoration") == Str("") && Param(d, "transform") == Str("")
    ensures Param(d, "color") == Str("") && Param(d, "align") == Str("")
  {
    assert LookupFrom(Defaults(), StrKey("decoration"), 0) == Some(Str(""));
    assert LookupFrom(Defaults(), StrKey("transform"), 0) == Some(Str(""));
    assert LookupFrom(Defaults(), StrKey("color"), 0) == Some(Str(""));
    assert LookupFrom(Defaults(), StrKey("align"), 0) == Some(Str(""));
    LookupByIndex(d, StrKey("decoration"));
    LookupByIndex(d, StrKey("transform"));
    LookupByIndex(d, StrKey("color"));
    LookupByIndex(d, StrKey("align"));
  }

  /** The transform wraps the content exactly when both the content and
      `line` are truthy, and changes no other key. */
  lemma TransformWraps(params: PArray)
    ensures var r := TransformParams(params);
            && (Truthy(Param(params, "content")) && Truthy(Param(params, "line")) ==>
                  Param(r, "content") == Str("<span>" + ToText(Param(params, "content")) + "</span>"))
            && (!(Truthy(Param(params, "content")) && Truthy(Param(params, "line"))) ==> r == params)
            && forall k :: k != StrKey("content") ==> Lookup(r, k) == Lookup(params, k)
  {
  }

  /** The transform never changes the guard's decision: content is truthy
      after it exactly when it was before. */
  lemma TransformKeepsDecision(params: PArray)
    ensures Shows(TransformParams(params)) <==> Shows(params)
  {
    if Truthy(Param(params, "content")) && Truthy(Param(params, "line")) {
      var wrapped := "<span>" + ToText(Param(params, "content")) + "</span>";
      assert wrapped[0] == '<';
    }
  }

  /** The module's guard, applied to the example's `render` closure, renders
      exactly when the content is truthy. */
  lemma GuardIsContent(c: PArray, params: PArray)
    requires Lookup(c, StrKey("render")) == Some(Closure(1, 1))
    ensures ComponentModule.Guard(Closures(), c, params) == Done(Shows(params))
  {
  }

  /** The definition file's entries: the defaults, the two closures, and
      no name of its own. */
  lemma DefinitionTable(d: PArray)
    requires d == Definition()
    ensures Lookup(d, StrKey("params")) == Some(Arr(Defaults()))
    ensures Lookup(d, StrKey("transform")) == Some(Closure(0, 2))
    ensures Lookup(d, StrKey("render")) == Some(Closure(1, 1))
    ensures Lookup(d, StrKey("name")) == None
  {
    assert LookupFrom(Definition(), StrKey("params"), 0) == Some(Arr(Defaults()));
    assert LookupFrom(Definition(), StrKey("transform"), 0) == Some(Closure(0, 2));
    assert LookupFrom(Definition(), StrKey("render"), 0) == Some(Closure(1, 1));
    assert LookupFrom(Definition(), StrKey("name"), 0) == None;
    LookupByIndex(d, StrKey("params"));
    LookupByIndex(d, StrKey("transform"));
    LookupByIndex(d, StrKey("render"));
    LookupByIndex(d, StrKey("name"));
  }

  /** The descriptor the registry loads for the example: the defaults as its
      parameters, both closures, and the registered name. */
  lemma Loaded(components: map<string, string>, definitions: map<string, Definition>, name: string)
    requires name in components
    requires DefinitionPath(components[name]) in definitions
    requires definitions[DefinitionPath(components[name])] == Literal(Definition())
    ensures var c := Descriptor(components, definitions, name);
            && c != []
            && ParamsOf(c) == Defaults()
            && Lookup(c, StrKey("transform")) == Some(Closure(0, 2))
            && Lookup(c, StrKey("render")) == Some(Closure(1, 1))
            && Lookup(c, StrKey("name")) == Some(Str(name))
  {
    var data := Required(definitions[DefinitionPath(components[name])]);
    DefinitionTable(data);
    LoadShape(components, definitions, name);
    var c := Load(components, definitions, name);
    assert ParamsOf(data) == Defaults();
    assert Lookup(c, StrKey("params")) == Some(Arr(Defaults()));
    assert Lookup(c, StrKey("template")).Some?;
  }

  /** As written, the module calls the two-parameter `transform` closure
      with one argument, so rendering the example fails whatever the caller
      passes. */
  lemma AsWrittenTransformFails(components: map<string, string>, definitions: map<string, Definition>, name: string,
                                params: PArray, attrs: PArray, cacheName: string, expire: Value,
                                host: ComponentModule.Host)
    requires name in components
    requires DefinitionPath(components[name]) in definitions
    requires definitions[DefinitionPath(components[name])] == Literal(Definition())
    ensures ComponentModule.RenderSpec(Descriptor(components, definitions, name), params, attrs, cacheName, expire, host,
                                       ComponentModule.Transform)
            == Thrown("ArgumentCountError")
  {
    Loaded(components, definitions, name);
    TransformFails(Descriptor(components, definitions, name), params, attrs, cacheName, expire, host);
  }

  lemma TransformFails(c: PArray, params: PArray, attrs: PArray, cacheName: string, expire: Value,
                       host: ComponentModule.Host)
    requires c != [] && Lookup(c, StrKey("transform")) == Some(Closure(0, 2))
    ensures ComponentModule.RenderSpec(c, params, attrs, cacheName, expire, host, ComponentModule.Transform)
            == Thrown("ArgumentCountError")
  {
    var merged := Put(c, StrKey("params"), Arr(ArrayMerge(ParamsOf(c), params)));
    assert Lookup(merged, StrKey("transform")) == Some(Closure(0, 2)) by {
      assert |"transform"| != |"params"|;
    }
    ComponentModule.TransformCases(host.rt, merged);
    assert Truthy(Arr(c));
  }

  /** Called as declared, the transform runs on the defaults merged with the
      caller's parameters. */
  lemma IntendedTransformRuns(components: map<string, string>, definitions: map<string, Definition>, name: string,
                              params: PArray)
    requires name in components
    requires DefinitionPath(components[name]) in definitions
    requires definitions[DefinitionPath(components[name])] == Literal(Definition())
    ensures var c := Descriptor(components, definitions, name);
            var merged := Put(c, StrKey("params"), Arr(ArrayMerge(ParamsOf(c), params)));
            && ParamsOf(c) == Defaults()
            && ComponentModule.TransformIntended(Closures(), merged) == Done(TransformParams(ArrayMerge(ParamsOf(c), params)))
  {
    Loaded(components, definitions, name);
    TransformRuns(Descriptor(components, definitions, name), params);
  }

  lemma TransformRuns(c: PArray, params: PArray)
    requires Lookup(c, StrKey("transform")) == Some(Closure(0, 2))
    ensures var merged := Put(c, StrKey("params"), Arr(ArrayMerge(ParamsOf(c), params)));
            ComponentModule.TransformIntended(Closures(), merged) == Done(TransformParams(ArrayMerge(ParamsOf(c), params)))
  {
    var p := ArrayMerge(ParamsOf(c), params);
    var merged := Put(c, StrKey("params"), Arr(p));
    assert Lookup(merged, StrKey("transform")) == Some(Closure(0, 2)) by {
      assert |"transform"| != |"params"|;
    }
    assert ParamsOf(merged) == p by {
      assert Lookup(merged, StrKey("params")) == Some(Arr(p));
    }
    ComponentModule.TransformIntendedCases(Closures(), merged);
    assert Closures().apply(0, [Arr(p), Arr(merged)]) == Arr(TransformParams(p));
  }

  /** The transform step as the example's closure declares it. */
  const intended: ComponentModule.TransformStep := ComponentModule.TransformIntended

  /** With the transform called as declared, the example renders exactly
      when the merged parameters have content: then the template receives
      the transformed parameters, and otherwise the output is empty. */
  lemma ExampleRenders(components: map<string, string>, definitions: map<string, Definition>, name: string,
                       params: PArray, attrs: PArray, cacheName: string, expire: Value, host: ComponentModule.Host)
    requires name in components
    requires DefinitionPath(components[name]) in definitions
    requires definitions[DefinitionPath(components[name])] == Literal(Definition())
    requires host.rt == Closures()
    ensures var c := Descriptor(components, definitions, name);
            var p := ArrayMerge(Defaults(), params);
            var merged := Put(c, StrKey("params"), Arr(p));
            var vars := ComponentModule.Finish(Put(merged, StrKey("params"), Arr(TransformParams(p))), attrs);
            && (!Shows(p) ==> ComponentModule.RenderSpec(c, params, attrs, cacheName, expire, host, intended) == Done(""))
            && (Shows(p) ==> ComponentModule.RenderSpec(c, params, attrs, cacheName, expire, host, intended)
                             == Done(ComponentModule.Output(vars, cacheName, expire, host)))
  {
    Loaded(components, definitions, name);
    RendersOnContent(Descriptor(components, definitions, name), params, attrs, cacheName, expire, host);
  }

  lemma RendersOnContent(c: PArray, params: PArray, attrs: PArray, cacheName: string, expire: Value, host: ComponentModule.Host)
    requires c != [] && host.rt == Closures()
    requires Lookup(c, StrKey("transform")) == Some(Closure(0, 2))
    requires Lookup(c, StrKey("render")) == Some(Closure(1, 1))
    ensures var p := ArrayMerge(ParamsOf(c), params);
            var merged := Put(c, StrKey("params"), Arr(p));
            var vars := ComponentModule.Finish(Put(merged, StrKey("params"), Arr(TransformParams(p))), attrs);
            && (!Shows(p) ==> ComponentModule.RenderSpec(c, params, attrs, cacheName, expire, host, intended) == Done(""))
            && (Shows(p) ==> ComponentModule.RenderSpec(c, params, attrs, cacheName, expire, host, intended)
                             == Done(ComponentModule.Output(vars, cacheName, expire, host)))
  {
    var p := ArrayMerge(ParamsOf(c), params);
    var merged := Put(c, StrKey("params"), Arr(p));
    var tp := TransformParams(p);
    var transformed := Put(merged, StrKey("params"), Arr(tp));
    TransformRuns(c, params);
    assert Lookup(transformed, StrKey("render")) == Some(Closure(1, 1)) by {
      assert "render"[0] != "params"[0];
      assert Lookup(merged, StrKey("render")) == Some(Closure(1, 1));
    }
    GuardIsContent(transformed, tp);
    TransformKeepsDecision(p);
    if Shows(p) {
      ComponentModule.RenderPrepared(c, params, attrs, cacheName, expire, host, intended, tp, ComponentModule.Finish(transformed, attrs));
    } else {
      ComponentModule.PrepareRejects(c, params, attrs, host.rt, intended, tp);
      ComponentModule.GuardVetoes(c, params, attrs, cacheName, expire, host, intended);
    }
  }
}
