/** The stand-alone library class `Component`: the same discovery and
    loading as the ProcessWire module, with a simpler `render` that has no
    transform, attributes or cache, applies the `render` guard closure to the
    caller's parameters alone, and merges the descriptor's functions over
    `getFunctions()`.

    The closure runtime and the file renderer `files->render` are
    parameters. */
module ComponentLibrary {
  import opened Php
  import opened Registry

  /** `getFunctions`: the library contributes no template functions. */
  function GetFunctions(): PArray
  {
    []
  }

  /** The `render` guard, applied to the caller's parameters: true when
      unset, a closure's answer, or else the literal itself. */
  function Guard(rt: Runtime, component: PArray, params: PArray): Outcome<bool>
  {
    if !IsSet(component, StrKey("render")) then Done(true)
    else
      var g := Lookup(component, StrKey("render")).value;
      if g.Closure? then
        match Invoke(rt, g, [Arr(params)])
        case Thrown(e) => Thrown(e)
        case Done(v) => Done(Truthy(v))
      else Done(Truthy(g))
  }

  /** The `fn` entry: the descriptor's array merged over `getFunctions()`,
      else `getFunctions()` itself. */
  function Functions(component: PArray): PArray
  {
    var f := Lookup(component, StrKey("fn"));
    if f.Some? && f.value.Arr? then ArrayMerge(GetFunctions(), f.value.entries) else GetFunctions()
  }

  /** The descriptor handed to the template: merged parameters and functions. */
  function Vars(c: PArray, params: PArray): PArray
  {
    var merged := Put(c, StrKey("params"), Arr(ArrayMerge(ParamsOf(c), params)));
    Put(merged, StrKey("fn"), Arr(Functions(merged)))
  }

  function TemplateOf(c: PArray): string
  {
    ToText(LookupOr(c, StrKey("template"), Null))
  }

  /** `render` on a loaded descriptor. */
  function RenderSpec(c: PArray, params: PArray, rt: Runtime, files: (string, PArray) -> string): Outcome<string>
  {
    if !Truthy(Arr(c)) then Done("")
    else
      match Guard(rt, c, params)
      case Thrown(e) => Thrown(e)
      case Done(render) =>
        if render then Done(files(TemplateOf(Vars(c, params)), Vars(c, params))) else Done("")
  }

  class Library {
    /** The `components` and `loaded` fields. */
    const registry: Registry

    /** The constructor discovers the components. */
    constructor (files: seq<string>, definitions: map<string, Definition>)
      ensures fresh(registry) && registry.Valid()
      ensures registry.components == Register(map[], files) && registry.loaded == map[]
      ensures registry.definitions == definitions
    {
      registry := new Registry(files, definitions);
    }

    /** `render($component, $params)`. */
    method Render(name: string, params: PArray, rt: Runtime, files: (string, PArray) -> string)
      returns (r: Outcome<string>)
      requires registry.Valid()
      modifies registry
      ensures registry.Valid()
      ensures r == RenderSpec(Descriptor(registry.components, registry.definitions, name), params, rt, files)
      ensures registry.components == old(registry.components)
      ensures registry.loaded == if name in registry.components
                                 then old(registry.loaded)[name := Descriptor(registry.components, registry.definitions, name)]
                                 else old(registry.loaded)
    {
      var loaded := registry.GetComponent(name);
      r := RenderDescriptor(loaded, params, rt, files);
    }
  }

  /** The body of `render` after the descriptor is loaded. */
  method RenderDescriptor(loaded: PArray, params: PArray, rt: Runtime, files: (string, PArray) -> string)
    returns (r: Outcome<string>)
    ensures r == RenderSpec(loaded, params, rt, files)
  {
    var component := loaded;
    if !Truthy(Arr(component)) {
      return Done("");
    }
    component := Put(component, StrKey("params"), Arr(ArrayMerge(ParamsOf(component), params)));
    var render := Guard(rt, component, params);
    assert render == Guard(rt, loaded, params) by {
      assert Lookup(component, StrKey("render")) == Lookup(loaded, StrKey("render"));
    }
    if render.Thrown? {
      return Thrown(render.error);
    }
    component := Put(component, StrKey("fn"), Arr(Functions(component)));
    assert component == Vars(loaded, params);
    if render.value {
      return Done(files(TemplateOf(component), component));
    }
    return Done("");
  }

  // ---------------------------------------------------------------------------
  // Properties

  /** The guard closure sees the caller's parameters only: a guard that
      rejects them renders nothing, whatever the defaults say. */
  lemma GuardSeesCallerParams(c: PArray, params: PArray, rt: Runtime, files: (string, PArray) -> string)
    requires Truthy(Arr(c))
    requires Lookup(c, StrKey("render")).Some? && Lookup(c, StrKey("render")).value.Closure?
    requires Lookup(c, StrKey("render")).value.arity <= 1
    requires !Truthy(rt.apply(Lookup(c, StrKey("render")).value.id, [Arr(params)]))
    ensures RenderSpec(c, params, rt, files) == Done("")
  {
  }

  /** The result is empty when the guard says no, and otherwise what the
      renderer makes of the merged descriptor. */
  lemma RenderResult(c: PArray, params: PArray, rt: Runtime, files: (string, PArray) -> string)
    requires Truthy(Arr(c)) && Guard(rt, c, params).Done?
    ensures Guard(rt, c, params).value ==> RenderSpec(c, params, rt, files) == Done(files(TemplateOf(Vars(c, params)), Vars(c, params)))
    ensures !Guard(rt, c, params).value ==> RenderSpec(c, params, rt, files) == Done("")
  {
  }

  /** The template receives the merged parameters (the caller winning on
      string keys), the descriptor's functions renumbered by `array_merge`
      when it has an array of them and none otherwise, and the descriptor's
      template. */
  lemma VarsShape(c: PArray, params: PArray, s: string)
    requires Distinct(ParamsOf(c)) && Distinct(params)
    ensures var vars := Vars(c, params);
            && Lookup(vars, StrKey("params")) == Some(Arr(ArrayMerge(ParamsOf(c), params)))
            && Lookup(ArrayMerge(ParamsOf(c), params), StrKey(s)) ==
                 (if StrKey(s) in Keys(params) then Lookup(params, StrKey(s)) else Lookup(ParamsOf(c), StrKey(s)))
            && Lookup(vars, StrKey("fn")) ==
                 (match Lookup(c, StrKey("fn"))
                  case Some(Arr(f)) => Some(Arr(ArrayMerge([], f)))
                  case _ => Some(Arr([])))
            && Lookup(vars, StrKey("template")) == Lookup(c, StrKey("template"))
  {
    ArrayMergeStrKey(ParamsOf(c), params, s);
    var merged := Put(c, StrKey("params"), Arr(ArrayMerge(ParamsOf(c), params)));
    assert Lookup(merged, StrKey("fn")) == Lookup(c, StrKey("fn"));
  }

  /** An unknown component renders nothing. */
  lemma UnknownRendersNothing(components: map<string, string>, definitions: map<string, Definition>, name: string,
                              params: PArray, rt: Runtime, files: (string, PArray) -> string)
    requires name !in components
    ensures RenderSpec(Descriptor(components, definitions, name), params, rt, files) == Done("")
  {
  }
}
