/** Component discovery and descriptor loading, shared word for word by the
    ProcessWire module and the stand-alone library class: the `components`
    registry (name to template path) and the `loaded` memo of normalised
    descriptors.

    The two `glob` results are the input list of discovered template paths
    (site modules first, then site templates), and the definition files are
    the map `definitions` from a `component.php` path to what requiring it
    yields; a path absent from the map is a file that does not exist. */
module Registry {
  import opened Php

  // ---------------------------------------------------------------------------
  // Paths

  /** The index of the last `/`, or -1 when there is none. */
  function LastSlash(p: string): (i: int)
    ensures -1 <= i < |p|
    ensures i >= 0 ==> p[i] == '/' && '/' !in p[i + 1..]
    ensures i < 0 ==> '/' !in p
  {
    if p == [] then -1
    else if p[|p| - 1] == '/' then |p| - 1
    else
      var i := LastSlash(p[..|p| - 1]);
      assert i >= 0 ==> p[i + 1..] == p[..|p| - 1][i + 1..] + [p[|p| - 1]];
      assert i < 0 ==> p == p[..|p| - 1] + [p[|p| - 1]];
      i
  }

  /** `dirname` on a `/`-separated path: everything before the last
      separator, `/` for a path directly under the root, `.` without any
      separator. */
  function Dirname(p: string): string
  {
    var i := LastSlash(p);
    if i < 0 then "." else if i == 0 then "/" else p[..i]
  }

  /** `end(explode('/', $p))`: the text after the last separator. */
  function LastSegment(p: string): string
  {
    p[LastSlash(p) + 1..]
  }

  /** The name a template path is registered under: the last segment of the
      directory two levels up. */
  function ComponentName(path: string): string
  {
    LastSegment(Dirname(Dirname(path)))
  }

  /** The path `component.php` next to the `templates` directory. */
  function DefinitionPath(template: string): string
  {
    Dirname(Dirname(template)) + "/component.php"
  }

  /** The last separator of `a/b` is the one before `b` when `b` has none. */
  lemma {:induction false} LastSlashBefore(a: string, b: string)
    requires '/' !in b
    ensures LastSlash(a + "/" + b) == |a|
    decreases |b|
  {
    var p := a + "/" + b;
    if b != [] {
      assert p[|p| - 1] == b[|b| - 1];
      assert p[..|p| - 1] == a + "/" + b[..|b| - 1];
      assert '/' !in b[..|b| - 1] by {
        assert forall c :: c in b[..|b| - 1] ==> c in b;
      }
      LastSlashBefore(a, b[..|b| - 1]);
    }
  }

  /** A template found at `<prefix>/<name>/templates/template.php`, with a
      non-empty prefix, is registered under `name`. */
  lemma ComponentNameOf(prefix: string, name: string)
    requires prefix != [] && '/' !in name
    ensures ComponentName(prefix + "/" + name + "/templates/template.php") == name
  {
    var path := prefix + "/" + name + "/templates/template.php";
    var d1 := prefix + "/" + name + "/templates";
    assert path == d1 + "/" + "template.php";
    LastSlashBefore(d1, "template.php");
    assert Dirname(path) == d1;
    var d2 := prefix + "/" + name;
    assert d1 == d2 + "/" + "templates";
    LastSlashBefore(d2, "templates");
    assert Dirname(d1) == d2;
    LastSlashBefore(prefix, name);
    assert LastSegment(d2) == d2[|prefix| + 1..];
  }

  // ---------------------------------------------------------------------------
  // Discovery

  /** The loop of `setComponents`: each path is written under its name, so a
      later path overwrites an earlier one with the same name. */
  function Register(components: map<string, string>, files: seq<string>): map<string, string>
    decreases |files|
  {
    if files == [] then components
    else Register(components[ComponentName(files[0]) := files[0]], files[1..])
  }

  /** The names of a list of template paths. */
  function Names(files: seq<string>): set<string>
  {
    if files == [] then {} else {ComponentName(files[0])} + Names(files[1..])
  }

  /** Every name of a discovered path is registered, and nothing else is added. */
  lemma {:induction false} RegisterKeys(components: map<string, string>, files: seq<string>)
    ensures Register(components, files).Keys == components.Keys + Names(files)
    decreases |files|
  {
    if files != [] {
      RegisterKeys(components[ComponentName(files[0]) := files[0]], files[1..]);
    }
  }

  /** A name maps to the last discovered path carrying it. */
  lemma {:induction false} RegisterLast(components: map<string, string>, files: seq<string>, i: nat)
    requires i < |files|
    requires forall j :: i < j < |files| ==> ComponentName(files[j]) != ComponentName(files[i])
    ensures ComponentName(files[i]) in Register(components, files)
    ensures Register(components, files)[ComponentName(files[i])] == files[i]
    decreases |files|
  {
    var m := components[ComponentName(files[0]) := files[0]];
    if i == 0 {
      RegisterUntouched(m, files[1..], ComponentName(files[0]));
    } else {
      forall j | i - 1 < j < |files[1..]|
        ensures ComponentName(files[1..][j]) != ComponentName(files[1..][i - 1])
      {
        assert files[1..][j] == files[j + 1];
      }
      RegisterLast(m, files[1..], i - 1);
    }
  }

  /** A name no path carries keeps its entry. */
  lemma {:induction false} RegisterUntouched(components: map<string, string>, files: seq<string>, n: string)
    requires forall j :: 0 <= j < |files| ==> ComponentName(files[j]) != n
    ensures n in components ==> n in Register(components, files) && Register(components, files)[n] == components[n]
    ensures n !in components ==> n !in Register(components, files)
    decreases |files|
  {
    if files != [] {
      forall j | 0 <= j < |files[1..]| ensures ComponentName(files[1..][j]) != n {
        assert files[1..][j] == files[j + 1];
      }
      RegisterUntouched(components[ComponentName(files[0]) := files[0]], files[1..], n);
    }
  }

  /** The site-templates glob comes second, so its paths override the
      site-modules paths registered under the same name. */
  lemma {:induction false} TemplatesOverrideModules(modules: seq<string>, templates: seq<string>, n: string)
    requires n in Register(map[], templates)
    ensures n in Register(map[], modules + templates)
    ensures Register(map[], modules + templates)[n] == Register(map[], templates)[n]
  {
    RegisterConcat(map[], modules, templates);
    RegisterOverride(Register(map[], modules), map[], templates, n);
  }

  lemma {:induction false} RegisterConcat(components: map<string, string>, a: seq<string>, b: seq<string>)
    ensures Register(components, a + b) == Register(Register(components, a), b)
    decreases |a|
  {
    if a == [] {
      assert a + b == b;
    } else {
      assert (a + b)[0] == a[0] && (a + b)[1..] == a[1..] + b;
      RegisterConcat(components[ComponentName(a[0]) := a[0]], a[1..], b);
    }
  }

  /** What `files` registers does not depend on the starting registry. */
  lemma {:induction false} RegisterOverride(m1: map<string, string>, m2: map<string, string>, files: seq<string>, n: string)
    requires n in Register(m2, files) && n !in m2
    ensures n in Register(m1, files) && Register(m1, files)[n] == Register(m2, files)[n]
    decreases |files|
  {
    if files == [] {
    } else {
      var k := ComponentName(files[0]);
      if k == n {
        RegisterOverrideHas(m1[k := files[0]], m2[k := files[0]], files[1..], n);
      } else {
        RegisterOverride(m1[k := files[0]], m2[k := files[0]], files[1..], n);
      }
    }
  }

  lemma {:induction false} RegisterOverrideHas(m1: map<string, string>, m2: map<string, string>, files: seq<string>, n: string)
    requires n in m1 && n in m2 && m1[n] == m2[n]
    ensures n in Register(m1, files) && n in Register(m2, files)
    ensures Register(m1, files)[n] == Register(m2, files)[n]
    decreases |files|
  {
    if files != [] {
      var k := ComponentName(files[0]);
      RegisterOverrideHas(m1[k := files[0]], m2[k := files[0]], files[1..], n);
    }
  }

  // ---------------------------------------------------------------------------
  // Loading

  /** What requiring a definition file yields: an array, or a closure that
      returns one when called without arguments. */
  datatype Definition = Literal(data: PArray) | Factory(make: () -> PArray)

  function Required(d: Definition): PArray
  {
    match d
    case Literal(data) => data
    case Factory(make) => make()
  }

  /** `isset($data['params']) && is_array(...)`: the array parameters, else none. */
  function ParamsOf(c: PArray): PArray
  {
    match Lookup(c, StrKey("params"))
    case Some(Arr(e)) => e
    case _ => []
  }

  /** The normalisation `getComponent` applies to a non-empty descriptor. */
  function Normalise(data: PArray, component: string, template: string): PArray
  {
    var named := if IsSet(data, StrKey("name")) then data else Put(data, StrKey("name"), Str(component));
    var withParams := Put(named, StrKey("params"), Arr(ParamsOf(named)));
    Put(withParams, StrKey("template"), Str(template))
  }

  /** The descriptor `getComponent` computes for a registered name: empty
      without a definition file, otherwise the required array with `config`
      set to the definition path, then normalised. */
  function Load(components: map<string, string>, definitions: map<string, Definition>, component: string): PArray
    requires component in components
  {
    var template := components[component];
    var path := DefinitionPath(template);
    if path !in definitions then []
    else
      var data := Put(Required(definitions[path]), StrKey("config"), Str(path));
      Normalise(data, component, template)
  }

  /** Normalisation sets the name when it is not set, makes the parameters
      an array and writes the template; every other key is unchanged. */
  lemma NormaliseShape(data: PArray, component: string, template: string)
    ensures var c := Normalise(data, component, template);
            && Lookup(c, StrKey("name")) == (if IsSet(data, StrKey("name")) then Lookup(data, StrKey("name")) else Some(Str(component)))
            && Lookup(c, StrKey("params")) == Some(Arr(ParamsOf(data)))
            && Lookup(c, StrKey("template")) == Some(Str(template))
            && forall k :: k != StrKey("name") && k != StrKey("params") && k != StrKey("template") ==>
                 Lookup(c, k) == Lookup(data, k)
  {
    var named := if IsSet(data, StrKey("name")) then data else Put(data, StrKey("name"), Str(component));
    assert ParamsOf(named) == ParamsOf(data);
    var withParams := Put(named, StrKey("params"), Arr(ParamsOf(named)));
    assert Lookup(withParams, StrKey("name")) == Lookup(named, StrKey("name"));
  }

  /** A loaded descriptor with a definition file always carries its name
      (the definition's own when set), array parameters, the registered
      template and the definition path, whatever the definition says about
      `template` and `config`; every other key is the definition's. */
  lemma LoadShape(components: map<string, string>, definitions: map<string, Definition>, component: string)
    requires component in components && DefinitionPath(components[component]) in definitions
    ensures var c := Load(components, definitions, component);
            var data := Required(definitions[DefinitionPath(components[component])]);
            && Lookup(c, StrKey("name")) == (if IsSet(data, StrKey("name")) then Lookup(data, StrKey("name")) else Some(Str(component)))
            && Lookup(c, StrKey("params")) == Some(Arr(ParamsOf(data)))
            && Lookup(c, StrKey("template")) == Some(Str(components[component]))
            && Lookup(c, StrKey("config")) == Some(Str(DefinitionPath(components[component])))
            && forall k :: k != StrKey("name") && k != StrKey("params") && k != StrKey("template") && k != StrKey("config") ==>
                 Lookup(c, k) == Lookup(data, k)
  {
    var template := components[component];
    var path := DefinitionPath(template);
    var data := Required(definitions[path]);
    var withConfig := Put(data, StrKey("config"), Str(path));
    assert Lookup(withConfig, StrKey("name")) == Lookup(data, StrKey("name"));
    assert Lookup(withConfig, StrKey("params")) == Lookup(data, StrKey("params"));
    assert ParamsOf(withConfig) == ParamsOf(data);
    NormaliseShape(withConfig, component, template);
  }

  /** What `getComponent` returns for a name: its loaded descriptor when
      registered, else the empty array. */
  function Descriptor(components: map<string, string>, definitions: map<string, Definition>, component: string): PArray
  {
    if component in components then Load(components, definitions, component) else []
  }

  /** Without a definition file the descriptor is empty. */
  lemma LoadMissing(components: map<string, string>, definitions: map<string, Definition>, component: string)
    requires component in components && DefinitionPath(components[component]) !in definitions
    ensures Load(components, definitions, component) == []
  {
  }

  /** Only registered names are loaded, each to the descriptor `Load`
      computes. */
  ghost predicate Memo(components: map<string, string>, definitions: map<string, Definition>, loaded: map<string, PArray>)
  {
    loaded.Keys <= components.Keys
    && forall n :: n in loaded ==> loaded[n] == Load(components, definitions, n)
  }

  lemma MemoExtend(components: map<string, string>, definitions: map<string, Definition>,
                   loaded: map<string, PArray>, n: string, data: PArray)
    requires Memo(components, definitions, loaded)
    requires n in components && data == Load(components, definitions, n)
    ensures Memo(components, definitions, loaded[n := data])
  {
  }

  /** The loading steps of `getComponent` for a registered name. */
  method LoadComponent(components: map<string, string>, definitions: map<string, Definition>, component: string)
    returns (data: PArray)
    requires component in components
    ensures data == Load(components, definitions, component)
  {
    data := [];
    var template := components[component];
    var path := DefinitionPath(template);
    if path in definitions {
      data := Required(definitions[path]);
      data := Put(data, StrKey("config"), Str(path));
      assert Lookup(data, StrKey("config")).Some?;
    }
    ghost var required := data;
    if Truthy(Arr(data)) {
      data := NormaliseSteps(data, component, template);
    }
    assert data == Load(components, definitions, component) by {
      if path in definitions {
        assert Truthy(Arr(required));
        assert required == Put(Required(definitions[path]), StrKey("config"), Str(path));
      } else {
        assert required == [];
      }
    }
  }

  /** The normalisation steps of `getComponent`. */
  method NormaliseSteps(required: PArray, component: string, template: string) returns (data: PArray)
    ensures data == Normalise(required, component, template)
  {
    data := required;
    if !IsSet(data, StrKey("name")) {
      data := Put(data, StrKey("name"), Str(component));
    }
    data := Put(data, StrKey("params"), Arr(ParamsOf(data)));
    data := Put(data, StrKey("template"), Str(template));
  }

  // ---------------------------------------------------------------------------
  // The registry object

  class Registry {
    /** Name to template path. */
    var components: map<string, string>
    /** Name to the descriptor loaded for it. */
    var loaded: map<string, PArray>
    /** The definition files on disk. */
    const definitions: map<string, Definition>

    /** The memo never disagrees with a fresh load. */
    ghost predicate Valid()
      reads this
    {
      Memo(components, definitions, loaded)
    }

    /** Construction followed by `setComponents` over the discovered paths. */
    constructor (files: seq<string>, definitions: map<string, Definition>)
      ensures Valid()
      ensures components == Register(map[], files) && loaded == map[]
      ensures this.definitions == definitions
    {
      components := map[];
      loaded := map[];
      this.definitions := definitions;
      new;
      SetComponents(files);
    }

    /** `setComponents`: registers every discovered path in turn. */
    method SetComponents(files: seq<string>)
      requires loaded == map[]
      modifies this
      ensures components == Register(old(components), files)
      ensures loaded == map[] && Valid()
    {
      var i := 0;
      while i < |files|
        invariant 0 <= i <= |files|
        invariant Register(components, files[i..]) == Register(old(components), files)
        invariant loaded == map[]
      {
        SuffixStep(files, i);
        components := components[ComponentName(files[i]) := files[i]];
        i := i + 1;
      }
      assert files[i..] == [];
    }

    /** `getComponent`: the memoised descriptor of a registered name, loaded
        and remembered on first use; `[]` for an unregistered name, which is
        not remembered. */
    method GetComponent(component: string) returns (data: PArray)
      requires Valid()
      modifies this
      ensures Valid()
      ensures data == Descriptor(components, definitions, component)
      ensures components == old(components)
      ensures loaded == if component in components then old(loaded)[component := data] else old(loaded)
    {
      if component in loaded {
        return loaded[component];
      }
      data := [];
      if component in components {
        data := LoadComponent(components, definitions, component);
        MemoExtend(components, definitions, loaded, component, data);
        loaded := loaded[component := data];
      }
    }
  }
}
