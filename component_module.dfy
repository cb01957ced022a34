/** The ProcessWire module `Component`: discovery at `init`, and `render`,
    which loads a descriptor, merges the caller's parameters into its
    defaults, applies the descriptor's `transform`, consults its `render`
    guard, normalises the attributes and renders the template directly or
    through the cache.

    The host is a parameter: the closure runtime, the `debug` setting, whether
    the current user is a superuser, the file renderer `files->render` and
    the cache renderer `cache->renderFile`. */
module ComponentModule {
  import opened Php
  import opened Registry

  datatype Host = Host(
    rt: Runtime,
    debug: bool,
    superuser: bool,
    files: (string, PArray) -> string,
    cache: (string, Value, string, PArray) -> string)

  // ---------------------------------------------------------------------------
  // The hookable steps

  /** `___transform`: a closure `transform` is called with the parameters
      alone and its array result replaces them; without one the parameters
      stay. A non-array result violates the declared return type. */
  function Transform(rt: Runtime, component: PArray): Outcome<PArray>
  {
    var t := Lookup(component, StrKey("transform"));
    if t.Some? && t.value.Closure? then
      match Invoke(rt, t.value, [Arr(ParamsOf(component))])
      case Thrown(e) => Thrown(e)
      case Done(v) => if v.Arr? then Done(v.entries) else Thrown("TypeError")
    else Done(ParamsOf(component))
  }

  /** The transform as the descriptors declare it, `function (array $params,
      array $component): array`: the closure is called with the parameters
      and the descriptor. */
  function TransformIntended(rt: Runtime, component: PArray): Outcome<PArray>
  {
    var t := Lookup(component, StrKey("transform"));
    if t.Some? && t.value.Closure? then
      match Invoke(rt, t.value, [Arr(ParamsOf(component)), Arr(component)])
      case Thrown(e) => Thrown(e)
      case Done(v) => if v.Arr? then Done(v.entries) else Thrown("TypeError")
    else Done(ParamsOf(component))
  }

  /** `___getAttrs`: `id` defaults to the empty string, `class` to an empty
      list, and a string class becomes a one-element list. */
  function GetAttrs(attrs: PArray, component: PArray): PArray
  {
    var withId := if IsSet(attrs, StrKey("id")) then attrs else Put(attrs, StrKey("id"), Str(""));
    if !IsSet(withId, StrKey("class")) then Put(withId, StrKey("class"), Arr([]))
    else
      var c := Lookup(withId, StrKey("class")).value;
      if c.Str? then Put(withId, StrKey("class"), Arr([Entry(IntKey(0), c)])) else withId
  }

  /** `___renderReady`: the descriptor as it is. */
  function RenderReady(component: PArray): PArray
  {
    component
  }

  /** The `render` guard: true when unset, a closure's result on the given
      parameters, or else the literal itself. */
  function Guard(rt: Runtime, component: PArray, args: PArray): Outcome<bool>
  {
    if !IsSet(component, StrKey("render")) then Done(true)
    else
      var g := Lookup(component, StrKey("render")).value;
      if g.Closure? then
        match Invoke(rt, g, [Arr(args)])
        case Thrown(e) => Thrown(e)
        case Done(v) => Done(Truthy(v))
      else Done(Truthy(g))
  }

  /** The transform step of the pipeline. `___transform` is hookable, so the
      step is a parameter: the module as written uses `Transform`. */
  type TransformStep = (Runtime, PArray) -> Outcome<PArray>

  /** The descriptor after the merge, transform, guard, `fn` and attribute
      steps: nothing when the guard says no. The module stores the (void)
      result of `applyFunctions` into `fn`, which is therefore null. */
  function Prepare(c: PArray, params: PArray, attrs: PArray, rt: Runtime, step: TransformStep): Outcome<Option<PArray>>
  {
    var merged := Put(c, StrKey("params"), Arr(ArrayMerge(ParamsOf(c), params)));
    match step(rt, merged)
    case Thrown(e) => Thrown(e)
    case Done(p) =>
      var transformed := Put(merged, StrKey("params"), Arr(p));
      match Guard(rt, transformed, p)
      case Thrown(e) => Thrown(e)
      case Done(render) =>
        if !render then Done(None) else Done(Some(Finish(transformed, attrs)))
  }

  /** The `fn`, attribute and `renderReady` steps. */
  function Finish(transformed: PArray, attrs: PArray): PArray
  {
    var withFn := Put(transformed, StrKey("fn"), Null);
    RenderReady(Put(withFn, StrKey("attrs"), Arr(GetAttrs(attrs, withFn))))
  }

  function TemplateOf(c: PArray): string
  {
    ToText(LookupOr(c, StrKey("template"), Null))
  }

  /** The cache is used when a cache name and an expiry are given, unless
      debug mode is on or the user is a superuser. */
  predicate CacheTaken(cacheName: string, expire: Value, host: Host)
  {
    Truthy(Str(cacheName)) && Truthy(expire) && !(host.debug || host.superuser)
  }

  function Output(vars: PArray, cacheName: string, expire: Value, host: Host): string
  {
    if CacheTaken(cacheName, expire, host) then
      host.cache(TemplateOf(vars), expire, ToText(LookupOr(vars, StrKey("name"), Null)) + "-" + cacheName, vars)
    else host.files(TemplateOf(vars), vars)
  }

  /** `___render` on a loaded descriptor, with the given transform step. */
  function RenderSpec(c: PArray, params: PArray, attrs: PArray, cacheName: string, expire: Value, host: Host,
                      step: TransformStep): Outcome<string>
  {
    if !Truthy(Arr(c)) then Done("")
    else
      match Prepare(c, params, attrs, host.rt, step)
      case Thrown(e) => Thrown(e)
      case Done(None) => Done("")
      case Done(Some(vars)) => Done(Output(vars, cacheName, expire, host))
  }

  // ---------------------------------------------------------------------------
  // The module object

  class Module {
    /** The `components` and `loaded` fields. */
    const registry: Registry

    /** Construction followed by `init`, which discovers the components. */
    constructor (files: seq<string>, definitions: map<string, Definition>)
      ensures fresh(registry) && registry.Valid()
      ensures registry.components == Register(map[], files) && registry.loaded == map[]
      ensures registry.definitions == definitions
    {
      registry := new Registry(files, definitions);
    }

    /** `___render($component, $params, $attrs, $cacheName, $expire)`. */
    method Render(name: string, params: PArray, attrs: PArray, cacheName: string, expire: Value, host: Host)
      returns (r: Outcome<string>)
      requires registry.Valid()
      modifies registry
      ensures registry.Valid()
      ensures r == RenderSpec(Descriptor(registry.components, registry.definitions, name),
                              params, attrs, cacheName, expire, host, Transform)
      ensures registry.components == old(registry.components)
      ensures registry.loaded == if name in registry.components
                                 then old(registry.loaded)[name := Descriptor(registry.components, registry.definitions, name)]
                                 else old(registry.loaded)
    {
      var loaded := registry.GetComponent(name);
      r := RenderDescriptor(loaded, params, attrs, cacheName, expire, host);
    }
  }

  /** The body of `___render` after the descriptor is loaded. */
  method RenderDescriptor(loaded: PArray, params: PArray, attrs: PArray, cacheName: string, expire: Value, host: Host)
    returns (r: Outcome<string>)
    ensures r == RenderSpec(loaded, params, attrs, cacheName, expire, host, Transform)
  {
    var component := loaded;
    if !Truthy(Arr(component)) {
      return Done("");
    }
    component := Put(component, StrKey("params"), Arr(ArrayMerge(ParamsOf(component), params)));
    var transformed := Transform(host.rt, component);
    if transformed.Thrown? {
      assert Prepare(loaded, params, attrs, host.rt, Transform) == Thrown(transformed.error);
      return Thrown(transformed.error);
    }
    component := Put(component, StrKey("params"), Arr(transformed.value));
    var render := Guard(host.rt, component, transformed.value);
    if render.Thrown? {
      assert Prepare(loaded, params, attrs, host.rt, Transform) == Thrown(render.error);
      return Thrown(render.error);
    }
    if !render.value {
      PrepareRejects(loaded, params, attrs, host.rt, Transform, transformed.value);
      return Done("");
    }
    ghost var before := component;
    component := Put(component, StrKey("fn"), Null);
    component := Put(component, StrKey("attrs"), Arr(GetAttrs(attrs, component)));
    component := RenderReady(component);
    assert component == Finish(before, attrs);
    RenderPrepared(loaded, params, attrs, cacheName, expire, host, Transform, transformed.value, component);
    var expiry := expire;
    if Truthy(Str(cacheName)) && Truthy(expiry) && (host.debug || host.superuser) {
      expiry := Int(0);
    }
    var output: string;
    if Truthy(Str(cacheName)) && Truthy(expiry) {
      var cacheKey := ToText(LookupOr(component, StrKey("name"), Null)) + "-" + cacheName;
      output := host.cache(TemplateOf(component), expiry, cacheKey, component);
    } else {
      output := host.files(TemplateOf(component), component);
    }
    assert output == Output(component, cacheName, expire, host);
    return Done(output);
  }

  // ---------------------------------------------------------------------------
  // Properties of the pipeline

  /** A prepared descriptor is rendered, directly or through the cache. */
  lemma RenderPrepared(c: PArray, params: PArray, attrs: PArray, cacheName: string, expire: Value, host: Host,
                        step: TransformStep, p: PArray, vars: PArray)
    requires Truthy(Arr(c))
    requires var merged := Put(c, StrKey("params"), Arr(ArrayMerge(ParamsOf(c), params)));
             && step(host.rt, merged) == Done(p)
             && Guard(host.rt, Put(merged, StrKey("params"), Arr(p)), p) == Done(true)
             && vars == Finish(Put(merged, StrKey("params"), Arr(p)), attrs)
    ensures RenderSpec(c, params, attrs, cacheName, expire, host, step) == Done(Output(vars, cacheName, expire, host))
  {
  }

  /** The parameters the transform sees: the caller's value wins on a string
      key, and a key only the defaults have survives. */
  lemma CallerParamsWin(c: PArray, params: PArray, s: string)
    requires Distinct(ParamsOf(c)) && Distinct(params)
    ensures var merged := Put(c, StrKey("params"), Arr(ArrayMerge(ParamsOf(c), params)));
            Lookup(ParamsOf(merged), StrKey(s)) ==
              if StrKey(s) in Keys(params) then Lookup(params, StrKey(s)) else Lookup(ParamsOf(c), StrKey(s))
  {
    ArrayMergeStrKey(ParamsOf(c), params, s);
  }

  /** Without a transform closure the parameters pass unchanged; a transform
      closure declaring two or more parameters is called with too few. */
  lemma TransformCases(rt: Runtime, component: PArray)
    ensures var t := Lookup(component, StrKey("transform"));
            && (!(t.Some? && t.value.Closure?) ==> Transform(rt, component) == Done(ParamsOf(component)))
            && (t.Some? && t.value.Closure? && t.value.arity >= 2 ==> Transform(rt, component) == Thrown("ArgumentCountError"))
            && (t.Some? && t.value.Closure? && t.value.arity <= 1 && rt.apply(t.value.id, [Arr(ParamsOf(component))]).Arr? ==>
                  Transform(rt, component) == Done(rt.apply(t.value.id, [Arr(ParamsOf(component))]).entries))
  {
  }

  /** Called as declared, a two-parameter transform closure runs, and its
      array result replaces the parameters; without one nothing changes. */
  lemma TransformIntendedCases(rt: Runtime, component: PArray)
    ensures var t := Lookup(component, StrKey("transform"));
            && (!(t.Some? && t.value.Closure?) ==> TransformIntended(rt, component) == Done(ParamsOf(component)))
            && (t.Some? && t.value.Closure? && t.value.arity >= 3 ==> TransformIntended(rt, component) == Thrown("ArgumentCountError"))
            && (t.Some? && t.value.Closure? && t.value.arity <= 2
                && rt.apply(t.value.id, [Arr(ParamsOf(component)), Arr(component)]).Arr? ==>
                  TransformIntended(rt, component) == Done(rt.apply(t.value.id, [Arr(ParamsOf(component)), Arr(component)]).entries))
  {
  }

  /** `___getAttrs` sets `id` and `class` when absent, wraps a string class
      in a list, and leaves every other key as it was. */
  lemma GetAttrsShape(attrs: PArray, component: PArray)
    ensures var r := GetAttrs(attrs, component);
            && Lookup(r, StrKey("id")) == (if IsSet(attrs, StrKey("id")) then Lookup(attrs, StrKey("id")) else Some(Str("")))
            && Lookup(r, StrKey("class")) ==
                 (if !IsSet(attrs, StrKey("class")) then Some(Arr([]))
                  else if Lookup(attrs, StrKey("class")).value.Str? then Some(Arr([Entry(IntKey(0), Lookup(attrs, StrKey("class")).value)]))
                  else Lookup(attrs, StrKey("class")))
            && forall k :: k != StrKey("id") && k != StrKey("class") ==> Lookup(r, k) == Lookup(attrs, k)
  {
    var withId := if IsSet(attrs, StrKey("id")) then attrs else Put(attrs, StrKey("id"), Str(""));
    assert Lookup(withId, StrKey("class")) == Lookup(attrs, StrKey("class"));
  }

  /** An empty descriptor, or a guard that says no, renders nothing, before
      attributes, functions or the cache are looked at: the result is the
      same for all attributes, cache settings and renderers. */
  lemma GuardVetoes(c: PArray, params: PArray, attrs: PArray, cacheName: string, expire: Value, host: Host,
                     step: TransformStep)
    requires c != [] ==> Prepare(c, params, attrs, host.rt, step) == Done(None)
    ensures RenderSpec(c, params, attrs, cacheName, expire, host, step) == Done("")
  {
    if c != [] {
      assert Truthy(Arr(c));
      match Prepare(c, params, attrs, host.rt, step)
      case Thrown(_) =>
      case Done(o) =>
    }
  }

  /** The guard decides on the merged (and transformed) parameters: with no
      transform, a guard closure is applied to the defaults merged with the
      caller's parameters, and a falsy answer renders nothing. */
  lemma GuardSeesMergedParams(c: PArray, params: PArray, attrs: PArray, rt: Runtime)
    requires Lookup(c, StrKey("transform")).None?
    requires Lookup(c, StrKey("render")).Some? && Lookup(c, StrKey("render")).value.Closure?
    requires Lookup(c, StrKey("render")).value.arity <= 1
    requires !Truthy(rt.apply(Lookup(c, StrKey("render")).value.id, [Arr(ArrayMerge(ParamsOf(c), params))]))
    ensures Prepare(c, params, attrs, rt, Transform) == Done(None)
  {
    var p := ArrayMerge(ParamsOf(c), params);
    NoTransform(rt, c, p);
    GuardOnParams(rt, c, p);
    PrepareRejects(c, params, attrs, rt, Transform, p);
  }

  /** Storing parameters keeps the absence of a transform. */
  lemma NoTransform(rt: Runtime, c: PArray, p: PArray)
    requires Lookup(c, StrKey("transform")).None?
    ensures Transform(rt, Put(c, StrKey("params"), Arr(p))) == Done(p)
  {
    var merged := Put(c, StrKey("params"), Arr(p));
    assert |"transform"| != |"params"|;
    assert Lookup(merged, StrKey("transform")) == Lookup(c, StrKey("transform"));
    assert Lookup(merged, StrKey("params")) == Some(Arr(p));
  }

  /** Storing parameters twice keeps the guard closure, which decides on them. */
  lemma GuardOnParams(rt: Runtime, c: PArray, p: PArray)
    requires Lookup(c, StrKey("render")).Some? && Lookup(c, StrKey("render")).value.Closure?
    requires Lookup(c, StrKey("render")).value.arity <= 1
    ensures var twice := Put(Put(c, StrKey("params"), Arr(p)), StrKey("params"), Arr(p));
            Guard(rt, twice, p) == Done(Truthy(rt.apply(Lookup(c, StrKey("render")).value.id, [Arr(p)])))
  {
    var merged := Put(c, StrKey("params"), Arr(p));
    var twice := Put(merged, StrKey("params"), Arr(p));
    assert "render"[0] != "params"[0];
    assert Lookup(twice, StrKey("render")) == Lookup(merged, StrKey("render"));
    assert Lookup(merged, StrKey("render")) == Lookup(c, StrKey("render"));
  }

  lemma PrepareRejects(c: PArray, params: PArray, attrs: PArray, rt: Runtime, step: TransformStep, p: PArray)
    requires var merged := Put(c, StrKey("params"), Arr(ArrayMerge(ParamsOf(c), params)));
             && step(rt, merged) == Done(p)
             && Guard(rt, Put(merged, StrKey("params"), Arr(p)), p) == Done(false)
    ensures Prepare(c, params, attrs, rt, step) == Done(None)
  {
  }

  lemma FinishLookups(transformed: PArray, attrs: PArray)
    ensures var vars := Finish(transformed, attrs);
            && Lookup(vars, StrKey("fn")) == Some(Null)
            && Lookup(vars, StrKey("attrs")).Some? && Lookup(vars, StrKey("attrs")).value.Arr?
            && forall k :: k != StrKey("fn") && k != StrKey("attrs") ==> Lookup(vars, k) == Lookup(transformed, k)
  {
  }

  /** The descriptor a successful preparation hands on: the merged
      parameters, transformed, and the `fn`, attribute and `renderReady`
      steps applied. */
  lemma PreparedIs(c: PArray, params: PArray, attrs: PArray, rt: Runtime, step: TransformStep, vars: PArray)
    requires Prepare(c, params, attrs, rt, step) == Done(Some(vars))
    ensures var merged := Put(c, StrKey("params"), Arr(ArrayMerge(ParamsOf(c), params)));
            && step(rt, merged).Done?
            && vars == Finish(Put(merged, StrKey("params"), Arr(step(rt, merged).value)), attrs)
  {
    var merged := Put(c, StrKey("params"), Arr(ArrayMerge(ParamsOf(c), params)));
    match step(rt, merged)
    case Thrown(_) =>
    case Done(p) =>
      var transformed := Put(merged, StrKey("params"), Arr(p));
      match Guard(rt, transformed, p)
      case Thrown(_) =>
      case Done(render) =>
  }

  /** What the template receives: the transformed parameters, null `fn`, the
      normalised attributes, and the descriptor's name and template. */
  lemma PreparedVars(c: PArray, params: PArray, attrs: PArray, rt: Runtime, step: TransformStep, vars: PArray)
    requires Prepare(c, params, attrs, rt, step) == Done(Some(vars))
    ensures var merged := Put(c, StrKey("params"), Arr(ArrayMerge(ParamsOf(c), params)));
            && step(rt, merged).Done?
            && Lookup(vars, StrKey("params")) == Some(Arr(step(rt, merged).value))
            && Lookup(vars, StrKey("fn")) == Some(Null)
            && Lookup(vars, StrKey("attrs")).Some? && Lookup(vars, StrKey("attrs")).value.Arr?
            && Lookup(vars, StrKey("template")) == Lookup(c, StrKey("template"))
            && Lookup(vars, StrKey("name")) == Lookup(c, StrKey("name"))
  {
    PreparedIs(c, params, attrs, rt, step, vars);
    var merged := Put(c, StrKey("params"), Arr(ArrayMerge(ParamsOf(c), params)));
    var p := step(rt, merged).value;
    KeepsOthers(c, merged, p, attrs, vars);
  }

  lemma KeepsOthers(c: PArray, merged: PArray, p: PArray, attrs: PArray, vars: PArray)
    requires forall k :: k != StrKey("params") ==> Lookup(merged, k) == Lookup(c, k)
    requires vars == Finish(Put(merged, StrKey("params"), Arr(p)), attrs)
    ensures Lookup(vars, StrKey("params")) == Some(Arr(p))
    ensures Lookup(vars, StrKey("fn")) == Some(Null)
    ensures Lookup(vars, StrKey("attrs")).Some? && Lookup(vars, StrKey("attrs")).value.Arr?
    ensures Lookup(vars, StrKey("template")) == Lookup(c, StrKey("template"))
    ensures Lookup(vars, StrKey("name")) == Lookup(c, StrKey("name"))
  {
    FinishLookups(Put(merged, StrKey("params"), Arr(p)), attrs);
  }

  /** Outside the cache gate the cache renderer is never consulted: the
      result is the same whatever it does. */
  lemma CacheGate(c: PArray, params: PArray, attrs: PArray, cacheName: string, expire: Value, host: Host,
                  step: TransformStep, other: (string, Value, string, PArray) -> string)
    requires !CacheTaken(cacheName, expire, host)
    ensures RenderSpec(c, params, attrs, cacheName, expire, host, step) ==
            RenderSpec(c, params, attrs, cacheName, expire, host.(cache := other), step)
  {
  }

  /** Debug mode or a superuser always renders directly, under any cache
      name and expiry. */
  lemma DebugBypassesCache(vars: PArray, cacheName: string, expire: Value, host: Host)
    requires host.debug || host.superuser
    ensures Output(vars, cacheName, expire, host) == host.files(TemplateOf(vars), vars)
  {
  }

  /** Inside the gate the cache renderer is used, under `name-cacheName`. */
  lemma CacheName(vars: PArray, cacheName: string, expire: Value, host: Host)
    requires cacheName != "" && cacheName != "0" && Truthy(expire) && !host.debug && !host.superuser
    ensures Output(vars, cacheName, expire, host) ==
            host.cache(TemplateOf(vars), expire, ToText(LookupOr(vars, StrKey("name"), Null)) + "-" + cacheName, vars)
  {
  }
}
