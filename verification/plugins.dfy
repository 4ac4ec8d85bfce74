/** The plugin list of Library/Plugins/PluginManager.cs: every plugin DLL in the Quest
    directory contributes the first QPlugin subclass it defines, which is constructed,
    loaded, appended and announced; Unload takes a plugin out again by name. */
module Plugins {

  /** A constructed QPlugin. Each construction makes a new object; instance tells two
      objects of the same class apart. */
  datatype Plugin = Plugin(name: string, instance: nat)

  /** What constructing the plugin type gives: an object whose Load throws or not, or an
      exception from its constructor. */
  datatype Construction = Constructed(loadThrows: bool) | ConstructorThrows

  /** What loading one DLL yields: Assembly.LoadFrom failing, no QPlugin subclass among its
      defined types, or the first such subclass. */
  datatype FileLoad = LoadFails | NoPluginType | PluginType(name: string, construction: Construction)

  datatype PluginFile = PluginFile(path: string, load: FileLoad)

  /** What the manager does, in order: calls into a plugin, list changes and events. */
  datatype Step =
    | LoadCalled(plugin: Plugin)
    | Added(plugin: Plugin)
    | LoadedEvent(plugin: Plugin)
    | UnloadCalled(plugin: Plugin)
    | Removed(plugin: Plugin)
    | UnloadedEvent(plugin: Plugin)

  datatype State = State(plugins: seq<Plugin>, trace: seq<Step>, created: nat)

  /** The state after a registration pass, and whether it ran to the end (false when an
      exception ended it and was logged). */
  datatype Pass = Pass(state: State, completed: bool)

  /** RegisterAllPlugins over the files in the order Directory.GetFiles gives them. The
      whole loop sits in one try, so the first exception ends the pass. */
  function Register(s: State, files: seq<PluginFile>): (r: Pass)
    ensures r.completed <==> forall i | 0 <= i < |files| :: !Throws(files[i])
    decreases |files|
  {
    if files == [] then Pass(s, true)
    else match files[0].load
      case LoadFails => Pass(s, false)
      case NoPluginType => Register(s, files[1..])
      case PluginType(name, ConstructorThrows) => Pass(s, false)
      case PluginType(name, Constructed(loadThrows)) =>
        var p := Plugin(name, s.created);
        if loadThrows then
          Pass(State(s.plugins, s.trace + [LoadCalled(p)], s.created + 1), false)
        else
          Register(State(s.plugins + [p], s.trace + [LoadCalled(p), Added(p), LoadedEvent(p)], s.created + 1), files[1..])
  }

  /** Whether registering this file throws. */
  predicate Throws(f: PluginFile) {
    f.load.LoadFails? || (f.load.PluginType? && (f.load.construction.ConstructorThrows? || f.load.construction.loadThrows))
  }

  /** A pass over two runs of files is a pass over the first, then, if that completed, a
      pass over the second from where it left off. */
  lemma {:induction false} RegisterConcat(s: State, first: seq<PluginFile>, second: seq<PluginFile>)
    ensures Register(s, first + second) ==
      (if Register(s, first).completed then Register(Register(s, first).state, second) else Register(s, first))
    decreases |first|
  {
    if first == [] {
      assert first + second == second;
    } else {
      assert (first + second)[0] == first[0];
      assert (first + second)[1..] == first[1..] + second;
      match first[0].load
        case LoadFails =>
        case NoPluginType =>
          RegisterConcat(s, first[1..], second);
        case PluginType(name, construction) =>
          if construction.Constructed? && !construction.loadThrows {
            var p := Plugin(name, s.created);
            RegisterConcat(State(s.plugins + [p], s.trace + [LoadCalled(p), Added(p), LoadedEvent(p)], s.created + 1), first[1..], second);
          }
    }
  }

  /** No fault isolation: once a file throws, the files after it contribute nothing, and
      the pass reports that it did not complete. */
  lemma FaultAbortsRest(s: State, before: seq<PluginFile>, bad: PluginFile, after: seq<PluginFile>)
    requires Register(s, before).completed
    requires Throws(bad)
    ensures !Register(s, before + [bad] + after).completed
    ensures Register(s, before + [bad] + after).state.plugins == Register(s, before).state.plugins
  {
    RegisterConcat(s, before + [bad], after);
    RegisterConcat(s, before, [bad]);
  }

  /** A file without a QPlugin subclass changes nothing. */
  lemma NoPluginTypeSkipped(s: State, f: PluginFile, rest: seq<PluginFile>)
    requires f.load == NoPluginType
    ensures Register(s, [f] + rest) == Register(s, rest)
  {
    assert ([f] + rest)[1..] == rest;
  }

  /** The plugins a pass appends: none is removed or reordered, each file adds at most
      one, and they are new objects created in file order. */
  lemma {:induction false} RegisterAppends(s: State, files: seq<PluginFile>)
    ensures var r := Register(s, files).state;
      && |s.plugins| <= |r.plugins| <= |s.plugins| + |files|
      && r.plugins[..|s.plugins|] == s.plugins
      && s.created <= r.created
      && (forall i | |s.plugins| <= i < |r.plugins| :: s.created <= r.plugins[i].instance < r.created)
      && (forall i, j | |s.plugins| <= i < j < |r.plugins| :: r.plugins[i].instance < r.plugins[j].instance)
    decreases |files|
  {
    if files != [] {
      match files[0].load
        case LoadFails =>
        case NoPluginType =>
          RegisterAppends(s, files[1..]);
        case PluginType(name, construction) =>
          if construction.Constructed? && !construction.loadThrows {
            var p := Plugin(name, s.created);
            var t := State(s.plugins + [p], s.trace + [LoadCalled(p), Added(p), LoadedEvent(p)], s.created + 1);
            RegisterAppends(t, files[1..]);
            var r := Register(s, files).state;
            assert r == Register(t, files[1..]).state;
            assert r.plugins[..|t.plugins|] == t.plugins;
            assert r.plugins[..|s.plugins|] == t.plugins[..|s.plugins|];
            assert r.plugins[|s.plugins|] == p;
          }
    }
  }

  /** Load runs before the plugin joins the list and before PluginLoaded fires: every
      Added step directly follows the LoadCalled step for the same plugin and directly
      precedes its PluginLoaded event. */
  ghost predicate LoadsFirst(trace: seq<Step>) {
    forall k | 0 <= k < |trace| && trace[k].Added? ::
      0 < k < |trace| - 1 && trace[k - 1] == LoadCalled(trace[k].plugin) && trace[k + 1] == LoadedEvent(trace[k].plugin)
  }

  lemma LoadsFirstExtend(trace: seq<Step>, more: seq<Step>)
    requires LoadsFirst(trace)
    requires LoadsFirst(more)
    requires more == [] || !more[0].Added?
    ensures LoadsFirst(trace + more)
  {
    var t := trace + more;
    forall k | 0 <= k < |t| && t[k].Added?
      ensures 0 < k < |t| - 1 && t[k - 1] == LoadCalled(t[k].plugin) && t[k + 1] == LoadedEvent(t[k].plugin)
    {
      if k < |trace| {
        assert trace[k] == t[k];
      } else {
        assert more[k - |trace|] == t[k];
      }
    }
  }

  /** A pass keeps LoadsFirst. */
  lemma {:induction false} RegisterLoadsFirst(s: State, files: seq<PluginFile>)
    requires LoadsFirst(s.trace)
    ensures LoadsFirst(Register(s, files).state.trace)
    decreases |files|
  {
    if files != [] {
      match files[0].load
        case LoadFails =>
        case NoPluginType =>
          RegisterLoadsFirst(s, files[1..]);
        case PluginType(name, construction) =>
          if construction.Constructed? {
            var p := Plugin(name, s.created);
            if construction.loadThrows {
              LoadsFirstExtend(s.trace, [LoadCalled(p)]);
            } else {
              var more := [LoadCalled(p), Added(p), LoadedEvent(p)];
              assert LoadsFirst(more) by {
                forall k | 0 <= k < |more| && more[k].Added?
                  ensures k == 1
                {
                }
              }
              LoadsFirstExtend(s.trace, more);
              RegisterLoadsFirst(State(s.plugins + [p], s.trace + more, s.created + 1), files[1..]);
            }
          }
    }
  }

  /** The position of the first plugin with the given name, or |plugins| when none has it
      (FirstOrDefault with the name comparison). */
  function FirstNamed(plugins: seq<Plugin>, name: string): (i: nat)
    ensures i <= |plugins|
    ensures i < |plugins| ==> plugins[i].name == name
    ensures forall j | 0 <= j < i :: plugins[j].name != name
  {
    if plugins == [] || plugins[0].name == name then 0 else 1 + FirstNamed(plugins[1..], name)
  }

  /** The list without its i-th plugin (List.Remove of that object). */
  function RemoveAt(plugins: seq<Plugin>, i: nat): (r: seq<Plugin>)
    requires i < |plugins|
    ensures |r| == |plugins| - 1
    ensures forall j | 0 <= j < |r| :: r[j] == plugins[if j < i then j else j + 1]
    ensures multiset(r) == multiset(plugins) - multiset{plugins[i]}
  {
    assert plugins == plugins[..i] + [plugins[i]] + plugins[i + 1..];
    plugins[..i] + plugins[i + 1..]
  }

  /** No two list entries are the same object. */
  ghost predicate DistinctObjects(plugins: seq<Plugin>) {
    forall i, j | 0 <= i < j < |plugins| :: plugins[i].instance != plugins[j].instance
  }

  /** Removing an entry keeps the entries distinct objects constructed before created. */
  lemma RemoveAtKeepsObjects(plugins: seq<Plugin>, i: nat, created: nat)
    requires i < |plugins|
    requires DistinctObjects(plugins)
    requires forall p | p in plugins :: p.instance < created
    ensures DistinctObjects(RemoveAt(plugins, i))
    ensures forall p | p in RemoveAt(plugins, i) :: p.instance < created
  {
    var r := RemoveAt(plugins, i);
    forall q | q in r
      ensures q.instance < created
    {
      assert multiset(r)[q] <= multiset(plugins)[q];
    }
    forall j, k | 0 <= j < k < |r|
      ensures r[j].instance != r[k].instance
    {
      assert r[j] == plugins[if j < i then j else j + 1];
      assert r[k] == plugins[if k < i then k else k + 1];
    }
  }

  /** Unloading a name no plugin has changes nothing; otherwise exactly the first plugin
      with that name leaves the list and every other plugin stays. */
  lemma UnloadRemovesFirstNamed(plugins: seq<Plugin>, name: string)
    requires DistinctObjects(plugins)
    ensures FirstNamed(plugins, name) == |plugins| <==> forall p | p in plugins :: p.name != name
    ensures FirstNamed(plugins, name) < |plugins| ==>
      var r := RemoveAt(plugins, FirstNamed(plugins, name));
      && plugins[FirstNamed(plugins, name)] !in r
      && (forall p | p in plugins && p != plugins[FirstNamed(plugins, name)] :: p in r)
  {
    var i := FirstNamed(plugins, name);
    if i < |plugins| {
      var r := RemoveAt(plugins, i);
      forall p | p in plugins && p != plugins[i]
        ensures p in r
      {
        assert multiset(r)[p] == multiset(plugins)[p];
      }
    }
  }

  /** Registering a plugin whose name no listed plugin has, then unloading that name,
      gives back the list as it was. */
  lemma RegisterThenUnload(s: State, f: PluginFile)
    requires f.load.PluginType? && f.load.construction == Constructed(false)
    requires forall p | p in s.plugins :: p.name != f.load.name
    ensures var r := Register(s, [f]).state.plugins;
      FirstNamed(r, f.load.name) == |s.plugins| < |r| && RemoveAt(r, FirstNamed(r, f.load.name)) == s.plugins
  {
    var p := Plugin(f.load.name, s.created);
    assert [f][0] == f && [f][1..] == [];
    assert Register(s, [f]) == Register(State(s.plugins + [p], s.trace + [LoadCalled(p), Added(p), LoadedEvent(p)], s.created + 1), []);
    var r := Register(s, [f]).state.plugins;
    assert r == s.plugins + [p];
    FirstNamedAbsent(s.plugins, p);
    assert r[..|s.plugins|] == s.plugins;
  }

  lemma {:induction false} FirstNamedAbsent(plugins: seq<Plugin>, p: Plugin)
    requires forall q | q in plugins :: q.name != p.name
    ensures FirstNamed(plugins + [p], p.name) == |plugins|
    decreases |plugins|
  {
    if plugins != [] {
      assert (plugins + [p])[1..] == plugins[1..] + [p];
      FirstNamedAbsent(plugins[1..], p);
    }
  }

  class PluginManager {
    /** _plugins */
    var plugins: seq<Plugin>
    /** Calls into plugins, list changes and events, in order. */
    var trace: seq<Step>
    /** How many plugin objects have been constructed. */
    var created: nat

    ghost predicate Valid()
      reads this
    {
      && DistinctObjects(plugins)
      && (forall p | p in plugins :: p.instance < created)
      && LoadsFirst(trace)
    }

    constructor()
      ensures Valid()
      ensures plugins == [] && trace == [] && created == 0
    {
      plugins := [];
      trace := [];
      created := 0;
    }

    function Current(): State
      reads this
    {
      State(plugins, trace, created)
    }

    /** RegisterAllPlugins: the state after a pass over the files; completed is false when
        an exception ended the pass (it is caught and logged). */
    method RegisterAllPlugins(files: seq<PluginFile>) returns (completed: bool)
      requires Valid()
      modifies this
      ensures Valid()
      ensures Pass(Current(), completed) == Register(old(Current()), files)
    {
      var i := 0;
      while i < |files|
        invariant 0 <= i <= |files|
        invariant Register(Current(), files[i..]) == Register(old(Current()), files)
        invariant Valid()
        decreases |files| - i
      {
        var f := files[i];
        assert files[i..][0] == f && files[i..][1..] == files[i + 1..];
        ghost var before := Current();
        match f.load {
          case LoadFails =>
            completed := false;
            break;
          case NoPluginType =>
          case PluginType(name, construction) =>
            if construction.ConstructorThrows? {
              completed := false;
              break;
            }
            var p := Plugin(name, created);
            created := created + 1;
            trace := trace + [LoadCalled(p)];
            if construction.loadThrows {
              completed := false;
              break;
            }
            plugins := plugins + [p];
            trace := trace + [Added(p), LoadedEvent(p)];
            assert Current() == State(before.plugins + [p], before.trace + [LoadCalled(p), Added(p), LoadedEvent(p)], before.created + 1);
            RegisterLoadsFirst(before, [f]);
            assert [f][1..] == [];
        }
        i := i + 1;
      }
      if i == |files| {
        completed := true;
      }
    }

    /** Unload: the first plugin with the name has its Unload called once; when that
        returns, exactly that plugin leaves the list and PluginUnloaded fires. A name no
        plugin has changes nothing. An exception from the plugin's Unload is not caught
        (threw), and the plugin stays listed. */
    method Unload(name: string, unloadThrows: bool) returns (threw: bool)
      requires Valid()
      modifies this
      ensures Valid()
      ensures created == old(created)
      ensures var i := FirstNamed(old(plugins), name);
        if i == |old(plugins)| then
          plugins == old(plugins) && trace == old(trace) && !threw
        else
          && threw == unloadThrows
          && (unloadThrows ==> plugins == old(plugins) && trace == old(trace) + [UnloadCalled(old(plugins)[i])])
          && (!unloadThrows ==>
                && plugins == RemoveAt(old(plugins), i)
                && trace == old(trace) + [UnloadCalled(old(plugins)[i]), Removed(old(plugins)[i]), UnloadedEvent(old(plugins)[i])])
    {
      var i := FirstNamed(plugins, name);
      if i == |plugins| {
        return false;
      }
      var p := plugins[i];
      trace := trace + [UnloadCalled(p)];
      LoadsFirstExtend(old(trace), [UnloadCalled(p)]);
      if unloadThrows {
        return true;
      }
      var rest := RemoveAt(plugins, i);
      RemoveAtKeepsObjects(plugins, i, created);
      plugins := rest;
      var more := [Removed(p), UnloadedEvent(p)];
      LoadsFirstExtend(trace, more);
      trace := trace + more;
      return false;
    }
  }
}
