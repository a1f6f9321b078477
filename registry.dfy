/**
 * `ExtensionRegistry` (extension_system/registry.py) as a class: the
 * extension dict (with its insertion order), the dict of live objects, the
 * filesystem it installs into and the global hook table it registers
 * callbacks in. Every method is proved to leave exactly the state, and to
 * return exactly the reply, of the corresponding function of
 * `RegistryModel`, where the properties of the operations are proved.
 */
module Registry {
  import opened Wrappers
  import opened Values
  import opened Strings
  import opened Paths
  import opened Base
  import opened FileSystem
  import Hooks
  import Utils
  import opened RegistryInfo
  import opened RegistryMessages
  import Enabling
  import opened RegistryModel

  /** The first loop of `update_extension_settings`: `settings[key]["value"] = value`
      for each known key. */
  method AssignValues(settings: map<string, Value>, updates: seq<(string, Value)>)
    returns (r: map<string, Value>, raised: Option<string>)
    ensures (r, raised) == SetValues(settings, updates)
  {
    r, raised := settings, None;
    var i := 0;
    while i < |updates|
      invariant 0 <= i <= |updates|
      invariant SetValues(r, updates[i..]) == SetValues(settings, updates)
    {
      assert updates[i..][1..] == updates[i + 1..];
      var (key, v) := updates[i];
      if key in r {
        if !r[key].VDict? {
          raised := Some(ItemAssignmentError(r[key]));
          return;
        }
        r := r[key := VDict(r[key].entries["value" := v])];
      }
      i := i + 1;
    }
  }

  /** The second loop of `update_extension_settings`: `setattr` for each key
      the object has. */
  method AssignAttributes(inst: Instance, updates: seq<(string, Value)>) returns (r: Instance, failed: Option<string>)
    ensures (r, failed) == SetAttributes(inst, updates)
  {
    r, failed := inst, None;
    var i := 0;
    while i < |updates|
      invariant 0 <= i <= |updates|
      invariant SetAttributes(r, updates[i..]) == SetAttributes(inst, updates)
    {
      assert updates[i..][1..] == updates[i + 1..];
      var (key, v) := updates[i];
      if HasAttribute(r, key) {
        if ReadOnly(r, key) {
          failed := Some("can't set attribute");
          return;
        }
        r := r.(attributes := r.attributes[key := v], methods := r.methods - {key});
      }
      i := i + 1;
    }
  }

  /** The dependents check of `disable_extension`: the position in the
      insertion order of the first active extension whose live object lists
      `name` among its dependencies, `|s.order|` when there is none. */
  method FindDependent(s: RegState, name: string) returns (k: nat)
    ensures k == FirstDependent(s, name, 0)
  {
    k := 0;
    while k < |s.order|
      invariant k <= |s.order|
      invariant FirstDependent(s, name, k) == FirstDependent(s, name, 0)
    {
      var other := s.order[k];
      if other in s.extensions && s.extensions[other].active && other != name && other in s.instances &&
         name in s.instances[other].dependencies {
        return;
      }
      k := k + 1;
    }
  }

  /** The loop of `_load_registry()`: each record read by `from_dict` and
      stored under its name, until one cannot be read. */
  method StoreRecords(extensions: map<string, Info>, order: seq<string>, records: seq<Value>, now: string)
    returns (e: map<string, Info>, o: seq<string>)
    ensures (e, o) == Store(extensions, order, Readings(records, now))
  {
    ghost var readings := Readings(records, now);
    e, o := extensions, order;
    var i := 0;
    while i < |records|
      invariant 0 <= i <= |records|
      invariant Store(e, o, readings[i..]) == Store(extensions, order, readings)
    {
      var info := FromDict(records[i], now);
      assert readings[i..][0] == info;
      if info.None? {
        break;
      }
      assert readings[i..][1..] == readings[i + 1..];
      e, o := e[info.value.name := info.value], Insert(o, info.value.name);
      i := i + 1;
    }
    if i == |records| {
      assert readings[i..] == [];
    }
  }

  /** The loop of `discover()`: each path loaded and merged in turn. */
  method MergePaths(s: RegState, paths: seq<string>, now: string) returns (r: RegState)
    ensures r == MergeAll(s, paths, now)
  {
    r := s;
    var i := 0;
    while i < |paths|
      invariant 0 <= i <= |paths|
      invariant MergeAll(r, paths[i..], now) == MergeAll(s, paths, now)
    {
      assert paths[i..][1..] == paths[i + 1..];
      var loaded := Utils.LoadExtension(r.fs, paths[i]);
      if loaded.Some? {
        var ext := loaded.value;
        var info := MakeInfo(ext, Some(DirName(paths[i])), now);
        if ext.name in r.extensions {
          var existing := r.extensions[ext.name];
          info := info.(active := existing.active, settings := existing.settings, installDate := existing.installDate);
        }
        r := r.(extensions := r.extensions[ext.name := info], order := Insert(r.order, ext.name),
                instances := r.instances[ext.name := ext]);
      }
      i := i + 1;
    }
    assert paths[i..] == [];
  }

  lemma AppendOne(done: seq<InitResult>, r: InitResult, later: seq<InitResult>)
    ensures (done + [r]) + later == done + ([r] + later)
  {
  }

  class ExtensionRegistry {
    var dir: string
    var extensions: map<string, Info>
    var order: seq<string>
    var instances: map<string, Instance>
    const store: FileStore
    const hooks: Hooks.HookTable

    function State(): RegState
      reads this, store, hooks
    {
      RegState(dir, extensions, order, instances, store.State(), hooks.State())
    }

    ghost predicate Valid()
      reads this, store, hooks
    {
      RegistryModel.Valid(State())
    }

    /** `__init__(extensions_dir)`: set the directory up, start empty, load
        `records`, the entries stored under "extensions" in registry.json. */
    constructor (directory: string, store: FileStore, hooks: Hooks.HookTable, records: seq<Value>, now: string)
      requires Utils.Setup(store.State(), directory).Some? && Hooks.Valid(hooks.State())
      modifies store
      ensures this.store == store && this.hooks == hooks && Valid()
      ensures State() ==
        Load(RegState(directory, map[], [], map[], Utils.Setup(old(store.State()), directory).value, hooks.State()),
             records, now)
    {
      var ok := Utils.SetupExtensionsDirectory(store, directory);
      dir, extensions, order, instances := directory, map[], [], map[];
      this.store, this.hooks := store, hooks;
      new;
      LoadRegistry(records, now);
    }

    /** `_load_registry()`: each record is read by `from_dict` and stored
        under its name; the first unreadable one ends the loading. */
    method LoadRegistry(records: seq<Value>, now: string)
      requires Valid()
      modifies this
      ensures State() == Load(old(State()), records, now) && Valid()
    {
      var e, o := StoreRecords(extensions, order, records, now);
      extensions, order := e, o;
    }

    /** `discover()`: list the module paths, then load and merge each. */
    method Discover(now: string) returns (found: map<string, Info>)
      requires Valid()
      modifies this, store
      ensures State() == RegistryModel.Discover(old(State()), now) && Valid()
      ensures found == extensions
    {
      var paths := Utils.DiscoverExtensions(store, dir);
      var merged := MergePaths(State(), paths, now);
      extensions, order, instances := merged.extensions, merged.order, merged.instances;
      found := extensions;
    }

    /** `list_extensions()`. */
    method ListExtensions(now: string) returns (infos: seq<Info>)
      requires Valid()
      modifies this, store
      ensures (infos, State()) == RegistryModel.ListExtensions(old(State()), now) && Valid()
    {
      ghost var s0 := State();
      if extensions == map[] {
        var _ := Discover(now);
      }
      var e, o := extensions, order;
      assert forall k :: 0 <= k < |o| ==> o[k] in e;
      infos := seq(|o|, k requires 0 <= k < |o| => e[o[k]]);
      ghost var listed := RegistryModel.ListExtensions(s0, now);
      assert listed.1 == State();
      assert infos == listed.0;
    }

    /** `disable_extension(name)`. */
    method DisableExtension(name: string) returns (ok: bool, message: Message)
      requires Valid()
      modifies this
      ensures var r := Disable(old(State()), name); ok == r.ok && message == r.message && State() == r.state
      ensures Valid()
    {
      if name !in extensions {
        return false, NotFound(name);
      }
      if !extensions[name].active {
        return true, AlreadyInactive(name);
      }
      var k := FindDependent(State(), name);
      if k < |order| {
        return false, DependedOn(order[k], name);
      }
      ok, message := Deactivate(name);
    }

    /** `deactivate()` and the entry update of `disable_extension`, once no
        active extension depends on `name`. */
    method Deactivate(name: string) returns (ok: bool, message: Message)
      requires Valid() && name in extensions && extensions[name].active
      requires FirstDependent(State(), name, 0) == |order|
      modifies this
      ensures var r := Deactivated(old(State()), name); ok == r.ok && message == r.message && State() == r.state
      ensures Valid()
    {
      var info := extensions[name];
      var outcome := if name in instances then instances[name].onDeactivate else Succeeds;
      match outcome {
        case Fails =>
          return false, DeactivateFailed(name);
        case Raises(m) =>
          SetEntry(name, info.(active := false, error := Some(m)));
        case Succeeds =>
          SetEntry(name, info.(active := false));
      }
      return true, Disabled(name);
    }

    /** `uninstall_extension(name)`. */
    method UninstallExtension(name: string) returns (ok: bool, message: Message)
      requires Valid()
      modifies this, store
      ensures var r := Uninstall(old(State()), name); ok == r.ok && message == r.message && State() == r.state
      ensures Valid()
    {
      ghost var s0 := State();
      if name !in extensions {
        return false, NotFound(name);
      }
      var info := extensions[name];
      ghost var d := Reply(true, Done, s0);
      if info.active && name in instances {
        var disabled, why := DisableExtension(name);
        d := Disable(s0, name);
        if !disabled {
          return false, DisableFailed(why);
        }
      }
      assert State() == d.state && RegistryModel.Valid(d.state);
      ok, message := RemoveExtension(name, info.path);
    }

    /** The end of `uninstall_extension`: remove the directory, when there
        is one, then the entry. */
    method RemoveExtension(name: string, path: Option<string>) returns (ok: bool, message: Message)
      requires Valid()
      modifies this, store
      ensures var r := Removal(old(State()), name, path); ok == r.ok && message == r.message && State() == r.state
      ensures Valid()
    {
      if path.Some? && path.value != "" && Exists(store.State(), path.value) {
        var removed := store.DeleteTree(path.value);
        if !removed {
          return false, UninstallError(NotADirectory(path.value));
        }
      }
      ghost var u := State();
      extensions, order, instances := extensions - {name}, Remove(order, name), instances - {name};
      assert State() == Forget(u, name);
      return true, Uninstalled(name);
    }

    /** `update_extension_settings(name, settings)`, `updates` being the
        items of `settings` in order. */
    method UpdateExtensionSettings(name: string, updates: seq<(string, Value)>) returns (ok: bool, message: Message)
      requires Valid()
      modifies this
      ensures var r := UpdateSettings(old(State()), name, updates);
        ok == r.ok && message == r.message && State() == r.state
      ensures Valid()
    {
      if name !in extensions {
        return false, NotFound(name);
      }
      ghost var s0 := State();
      var info := extensions[name];
      var settings, raised := AssignValues(info.settings, updates);
      ghost var t := s0.(extensions := s0.extensions[name := info.(settings := settings)]);
      assert RegistryModel.Valid(t);
      if raised.Some? || name !in instances {
        extensions := extensions[name := info.(settings := settings)];
        assert State() == t;
        if raised.Some? {
          return false, SettingsError(raised.value);
        }
        return true, SettingsUpdated(name);
      }
      var inst, failed := AssignAttributes(instances[name], updates);
      extensions, instances := extensions[name := info.(settings := settings)], instances[name := inst];
      assert State() == t.(instances := t.instances[name := inst]);
      if failed.Some? {
        return false, SettingsError(failed.value);
      }
      return true, SettingsUpdated(name);
    }

    /** The copy step of `install_extension` for a usable source. */
    method FetchSource(kind: SourceKind, source: string, download: Option<Content>) returns (installed: Option<string>)
      requires kind != Unusable
      modifies store
      ensures (installed, store.State()) == Fetch(old(store.State()), kind, source, dir, download)
    {
      ghost var fs := store.State();
      if kind == FromUrl {
        installed := Utils.InstallFromUrl(store, source, dir, download);
        assert Fetch(fs, kind, source, dir, download) == Utils.InstallUrl(fs, source, dir, download);
      } else if kind == FromDirectory {
        installed := Utils.InstallFromDirectory(store, source, dir);
        assert Fetch(fs, kind, source, dir, download) == Utils.InstallDirectory(fs, source, dir);
      } else {
        installed := Utils.InstallFromZip(store, source, dir);
        assert Fetch(fs, kind, source, dir, download) == Utils.InstallZip(fs, source, dir);
      }
    }

    /** Finding and loading the entry file of the installed directory. */
    method LoadInstalled(path: string) returns (placed: Placement)
      ensures placed == Loaded(store.State(), path)
    {
      var entry := Utils.EntryPoint(store.State(), path, Utils.FileOnly);
      if entry.None? {
        return NotPlaced(NoEntryPoint(path));
      }
      var loaded := Utils.LoadExtension(store.State(), entry.value);
      if loaded.None? {
        return NotPlaced(LoadFailed(entry.value));
      }
      return Placed(path, loaded.value);
    }

    /** The filesystem part of `install_extension`: copy the source into
        the extensions directory, then find and load its entry file. */
    method PlaceSource(source: string, download: Option<Content>) returns (placed: Placement)
      modifies store
      ensures (placed, store.State()) == Place(old(store.State()), source, dir, download)
    {
      var kind := Classify(store.State(), source);
      if kind == Unusable {
        return NotPlaced(InvalidSource(source));
      }
      var installed := FetchSource(kind, source, download);
      if installed.None? || installed.value == "" {
        return NotPlaced(InstallFailed(KindName(kind), source));
      }
      placed := LoadInstalled(installed.value);
    }

    /** Recording what the filesystem part yielded. */
    method RecordPlacement(placed: Placement, now: string) returns (ok: bool, name: Option<string>, message: Message)
      requires Valid()
      modifies this
      ensures var r := Record(old(State()), (placed, store.State()), now);
        ok == r.ok && name == r.name && message == r.message && State() == r.state
      ensures Valid()
    {
      ghost var r := Record(State(), (placed, store.State()), now);
      match placed
      case NotPlaced(m) =>
        return false, None, m;
      case Placed(path, ext) =>
        var info := MakeInfo(ext, Some(path), now);
        assert r.state == Register(State(), ext, info);
        extensions, order, instances := extensions[ext.name := info], Insert(order, ext.name), instances[ext.name := ext];
        assert State() == r.state;
        return true, Some(ext.name), Installed(ext.name);
    }

    /** `install_extension(source)`; `download` is what a URL source serves. */
    method InstallExtension(source: string, download: Option<Content>, now: string)
      returns (ok: bool, name: Option<string>, message: Message)
      requires Valid()
      modifies this, store
      ensures var r := Install(old(State()), source, download, now);
        ok == r.ok && name == r.name && message == r.message && State() == r.state
      ensures Valid()
    {
      ghost var s0 := State();
      var placed := PlaceSource(source, download);
      assert Valid();
      ok, name, message := RecordPlacement(placed, now);
    }

    /** `initialize({})`, hook registration and `activate()` for an entry
        whose dependencies are active. */
    method ActivateLoaded(name: string, ext: Instance) returns (ok: bool, message: Message)
      requires Valid() && name in extensions
      modifies this, hooks
      ensures var a := Enabling.Activate(TableOf(old(State())), name, ext);
        ok == a.ok && message == a.message && TableOf(State()) == a.table
      ensures dir == old(dir) && order == old(order) && store.State() == old(store.State()) && Valid()
    {
      var info := extensions[name];
      match ext.onInitialize
      case Fails =>
        return false, InitializeFailed(name);
      case Raises(m) =>
        SetEntry(name, info.(error := Some(m)));
        return false, EnableError(m);
      case Succeeds =>
        hooks.RegisterHooksFromInstance(ext);
        ok, message := RunActivate(name, ext);
    }

    /** Replace the entry of `name` by `info`, which keeps its name. */
    method SetEntry(name: string, info: Info)
      requires Valid() && name in extensions && info.name == name
      modifies this
      ensures extensions == old(extensions)[name := info]
      ensures dir == old(dir) && order == old(order) && instances == old(instances) && Valid()
    {
      extensions := extensions[name := info];
    }

    /** `activate()` once `initialize` has succeeded and the hooks are registered. */
    method RunActivate(name: string, ext: Instance) returns (ok: bool, message: Message)
      requires Valid() && name in extensions
      modifies this
      ensures var a := Enabling.Activated(TableOf(old(State())), name, ext);
        ok == a.ok && message == a.message && TableOf(State()) == a.table
      ensures dir == old(dir) && order == old(order) && Valid()
    {
      var info := extensions[name];
      match ext.onActivate
      case Fails =>
        return false, ActivateFailed(name);
      case Raises(m) =>
        SetEntry(name, info.(error := Some(m)));
        return false, EnableError(m);
      case Succeeds =>
        SetEntry(name, info.(active := true, error := None));
        return true, Enabled(name);
    }

    /** One dependency of the loop in `enable_extension`: it must be known,
        and it is enabled first when it is inactive. */
    method EnsureDependency(name: string, deps: seq<string>, i: nat, depth: nat) returns (ok: bool, message: Message)
      requires Valid() && i < |deps|
      modifies this, hooks
      decreases depth, 0, 1
      ensures dir == old(dir) && order == old(order) && store.State() == old(store.State()) && Valid()
      ensures var before, load := TableOf(old(State())), LoaderOf(old(store.State()));
        if ok then Enabling.EnableDeps(TableOf(State()), load, name, deps, i + 1, depth) ==
                   Enabling.EnableDeps(before, load, name, deps, i, depth)
        else Enabling.EnableDeps(before, load, name, deps, i, depth) == Enabling.Attempt(false, message, TableOf(State()))
    {
      var d := deps[i];
      if d !in extensions {
        return false, MissingDependency(d);
      }
      if extensions[d].active {
        return true, Done;
      }
      if depth == 0 {
        return false, EnableError(Enabling.RecursionLimit);
      }
      var k: nat := depth - 1;
      Enabling.DependencyStep(TableOf(State()), LoaderOf(store.State()), name, deps, i, depth, k);
      ok, message := EnableDependency(d, k);
    }

    /** An inactive dependency is enabled one call deeper, with `depth`
        nested calls left. */
    method EnableDependency(d: string, depth: nat) returns (ok: bool, message: Message)
      requires Valid()
      modifies this, hooks
      decreases depth, 6
      ensures dir == old(dir) && order == old(order) && store.State() == old(store.State()) && Valid()
      ensures var e := Enabling.Enable(TableOf(old(State())), LoaderOf(old(store.State())), d, depth);
        TableOf(State()) == e.table && ok == e.ok && message == if ok then Done else DependencyFailed(d, e.message)
    {
      var enabled, why := EnableExtension(d, depth);
      if !enabled {
        return false, DependencyFailed(d, why);
      }
      return true, Done;
    }

    /** The dependency loop of `enable_extension`. */
    method EnableDependencies(name: string, deps: seq<string>, depth: nat) returns (ok: bool, message: Message)
      requires Valid()
      modifies this, hooks
      decreases depth, 1
      ensures var a := Enabling.EnableDeps(TableOf(old(State())), LoaderOf(old(store.State())), name, deps, 0, depth);
        ok == a.ok && message == a.message && TableOf(State()) == a.table
      ensures dir == old(dir) && order == old(order) && store.State() == old(store.State()) && Valid()
    {
      ghost var t0 := TableOf(State());
      ghost var load := LoaderOf(store.State());
      var i := 0;
      while i < |deps|
        invariant 0 <= i <= |deps|
        invariant Valid() && dir == old(dir) && order == old(order) && store.State() == old(store.State())
        invariant Enabling.EnableDeps(TableOf(State()), load, name, deps, i, depth) ==
                  Enabling.EnableDeps(t0, load, name, deps, 0, depth)
      {
        ok, message := EnsureDependency(name, deps, i, depth);
        if !ok {
          return;
        }
        i := i + 1;
      }
      return true, Done;
    }

    /** `enable_extension` once the object is live: the dependencies, then
        the activation. */
    method EnableLive(name: string, depth: nat) returns (ok: bool, message: Message)
      requires Valid() && name in instances
      modifies this, hooks
      decreases depth, 2
      ensures var a := Enabling.EnableLoaded(TableOf(old(State())), LoaderOf(old(store.State())), name, depth);
        ok == a.ok && message == a.message && TableOf(State()) == a.table
      ensures dir == old(dir) && order == old(order) && store.State() == old(store.State()) && Valid()
    {
      var ext := instances[name];
      ok, message := EnableDependencies(name, ext.dependencies, depth);
      if ok {
        ok, message := ActivateLoaded(name, ext);
      }
    }

    /** `enable_extension(name)`; `depth` is the number of nested calls the
        interpreter still allows. */
    method EnableExtension(name: string, depth: nat) returns (ok: bool, message: Message)
      requires Valid()
      modifies this, hooks
      decreases depth, 5
      ensures dir == old(dir) && order == old(order) && store.State() == old(store.State()) && Valid()
      ensures var a := Enabling.Enable(TableOf(old(State())), LoaderOf(old(store.State())), name, depth);
        ok == a.ok && message == a.message && TableOf(State()) == a.table
    {
      if name !in extensions {
        return false, NotFound(name);
      }
      if extensions[name].active {
        return true, AlreadyActive(name);
      }
      ok, message := EnableInactive(name, depth);
    }

    /** `enable_extension` for a known, inactive entry. */
    method EnableInactive(name: string, depth: nat) returns (ok: bool, message: Message)
      requires Valid() && name in extensions && !extensions[name].active
      modifies this, hooks
      decreases depth, 4
      ensures dir == old(dir) && order == old(order) && store.State() == old(store.State()) && Valid()
      ensures var a := Enabling.EnableInactive(TableOf(old(State())), LoaderOf(old(store.State())), name, depth);
        ok == a.ok && message == a.message && TableOf(State()) == a.table
    {
      if name in instances {
        ghost var t := TableOf(State());
        assert t.(instances := t.instances[name := t.instances[name]]) == t;
        ok, message := EnableLive(name, depth);
      } else {
        ok, message := LoadAndEnable(name, depth);
      }
    }

    /** `enable_extension` for an entry with no live object: load it from
        the recorded path, then go on as for a live one. */
    method LoadAndEnable(name: string, depth: nat) returns (ok: bool, message: Message)
      requires Valid() && name in extensions && !extensions[name].active && name !in instances
      modifies this, hooks
      decreases depth, 3
      ensures dir == old(dir) && order == old(order) && store.State() == old(store.State()) && Valid()
      ensures var a := Enabling.EnableInactive(TableOf(old(State())), LoaderOf(old(store.State())), name, depth);
        ok == a.ok && message == a.message && TableOf(State()) == a.table
    {
      ghost var t, load := TableOf(State()), LoaderOf(store.State());
      var loading := LoadFrom(store.State(), extensions[name].path);
      assert loading == load(t.extensions[name].path);
      if !loading.Loads? {
        assert Enabling.Prepare(t, load, name).Refused?;
        if loading.Pathless? {
          return false, NoPath(name);
        } else if loading.NoEntry? {
          return false, NoEntryPoint(loading.dir);
        }
        return false, LoadFailed(loading.entry);
      }
      assert Enabling.Prepare(t, load, name) == Enabling.Ready(loading.instance);
      instances := instances[name := loading.instance];
      ok, message := EnableLive(name, depth);
    }

    /** `initialize_all()`: discover when the table is empty, then enable
        each name flagged active, in insertion order. */
    method InitializeAll(depth: nat, now: string) returns (results: seq<InitResult>)
      requires Valid()
      modifies this, store, hooks
      ensures Valid()
      ensures var r := RegistryModel.InitializeAll(old(State()), depth, now); results == r.0 && State() == r.1
    {
      if extensions == map[] {
        var _ := Discover(now);
      }
      var names := ActiveNames(order, extensions);
      results := EnableInOrder(names, depth);
    }

    /** The loop of `initialize_all`. */
    method EnableInOrder(names: seq<string>, depth: nat) returns (results: seq<InitResult>)
      requires Valid()
      modifies this, hooks
      ensures Valid() && (results, State()) == EnableEach(old(State()), names, 0, depth)
    {
      results := [];
      var i := 0;
      while i < |names|
        invariant 0 <= i <= |names| && Valid()
        invariant results + EnableEach(State(), names, i, depth).0 == EnableEach(old(State()), names, 0, depth).0
        invariant EnableEach(State(), names, i, depth).1 == EnableEach(old(State()), names, 0, depth).1
      {
        ghost var done := results;
        var result := EnableOne(names[i], depth);
        ghost var later := EnableEach(State(), names, i + 1, depth).0;
        results := results + [result];
        AppendOne(done, result, later);
        i := i + 1;
      }
      assert results + [] == results;
    }

    /** One name of `initialize_all`, with its entry of the result. */
    method EnableOne(name: string, depth: nat) returns (result: InitResult)
      requires Valid()
      modifies this, hooks
      ensures Valid()
      ensures var e := RegistryModel.Enable(old(State()), name, depth);
        result == InitResult(name, e.ok, e.message) && State() == e.state
    {
      ghost var before := State();
      var enabled, message := EnableExtension(name, depth);
      EnableTable(before, name, depth);
      result := InitResult(name, enabled, message);
    }
  }
}
