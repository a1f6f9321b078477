/**
 * The operations of `ExtensionRegistry` (extension_system/registry.py) as
 * functions on the registry's state: the extension table in insertion order,
 * the live objects, the filesystem and the global hook table. The class in
 * registry.dfy is proved to follow these functions step by step; the
 * persisted registry is the table itself (`Saved`, `Load`).
 */
module RegistryModel {
  import opened Wrappers
  import opened Values
  import opened Strings
  import opened Paths
  import opened Base
  import opened FileSystem
  import Hooks
  import Utils
  import opened RegistryInfo
  import opened RegistryMessages
  import Enabling

  /** Everything a registry method reads or changes. `order` is the
      insertion order of the `extensions` dict. */
  datatype RegState = RegState(
    dir: string,
    extensions: map<string, Info>,
    order: seq<string>,
    instances: map<string, Instance>,
    fs: Fs,
    hooks: Hooks.HookState)

  /** The shape every registry operation keeps: the order lists each known
      name once, an entry is stored under its own name, a live object belongs
      to a known name, and the hook table is consistent. */
  ghost predicate Valid(s: RegState) {
    Hooks.NoDuplicates(s.order) &&
    (forall n :: n in s.extensions <==> n in s.order) &&
    (forall n :: n in s.extensions ==> s.extensions[n].name == n) &&
    s.instances.Keys <= s.extensions.Keys &&
    Hooks.Valid(s.hooks)
  }

  /** The result of a registry method: success flag, message, new state. */
  datatype Reply = Reply(ok: bool, message: Message, state: RegState)

  /** Assigning a key of a dict: a new key goes last, an old one keeps its place. */
  function Insert(order: seq<string>, n: string): (r: seq<string>)
    ensures forall m :: m in r <==> m in order || m == n
    ensures Hooks.NoDuplicates(order) ==> Hooks.NoDuplicates(r)
    ensures n in order ==> r == order
  {
    if n in order then order else order + [n]
  }

  /** Deleting a key of a dict. */
  function Remove(order: seq<string>, n: string): (r: seq<string>)
    ensures forall m :: m in r <==> m in order && m != n
    ensures Hooks.NoDuplicates(order) ==> Hooks.NoDuplicates(r)
  {
    if order == [] then []
    else
      var rest := Remove(order[1..], n);
      if order[0] == n then rest
      else
        assert Hooks.NoDuplicates(order) ==> Hooks.NoDuplicates([order[0]] + rest) by {
          if Hooks.NoDuplicates(order) {
            assert order[0] !in order[1..];
            forall i, j | 0 <= i < j < |[order[0]] + rest| ensures ([order[0]] + rest)[i] != ([order[0]] + rest)[j] {
              if i > 0 { assert ([order[0]] + rest)[i] == rest[i - 1]; }
              assert ([order[0]] + rest)[j] == rest[j - 1];
              assert rest[j - 1] in rest;
            }
          }
        }
        [order[0]] + rest
  }

  /** Storing a freshly made entry and its object under the object's name. */
  function Register(s: RegState, ext: Instance, info: Info): (r: RegState)
    requires info.name == ext.name
    ensures Valid(s) ==> Valid(r)
    ensures r.extensions == s.extensions[ext.name := info] && r.instances == s.instances[ext.name := ext]
    ensures r.order == Insert(s.order, ext.name)
    ensures r.dir == s.dir && r.fs == s.fs && r.hooks == s.hooks
  {
    s.(extensions := s.extensions[ext.name := info], order := Insert(s.order, ext.name),
       instances := s.instances[ext.name := ext])
  }

  // ---------------------------------------------------------------- enable

  /** The loading part of `enable_extension` for an entry without a live
      object: a falsy path, no entry file (`isfile` probes), or
      `load_extension` giving nothing. */
  function LoadFrom(fs: Fs, p: Option<string>): (r: Enabling.Loading)
    ensures p.None? || p == Some("") <==> r.Pathless?
    ensures r.NoEntry? ==> r.dir == p.value && Utils.EntryPoint(fs, p.value, Utils.FileOnly).None?
    ensures r.Loads? ==> Utils.EntryPoint(fs, p.value, Utils.FileOnly).Some? &&
                         Utils.LoadExtension(fs, Utils.EntryPoint(fs, p.value, Utils.FileOnly).value) == Some(r.instance)
  {
    if p.None? || p.value == "" then Enabling.Pathless
    else match Utils.EntryPoint(fs, p.value, Utils.FileOnly)
      case None => Enabling.NoEntry(p.value)
      case Some(entry) =>
        match Utils.LoadExtension(fs, entry)
        case None => Enabling.Unloadable(entry)
        case Some(ext) => Enabling.Loads(ext)
  }

  function LoaderOf(fs: Fs): Enabling.Loader {
    p => LoadFrom(fs, p)
  }

  function TableOf(s: RegState): Enabling.Table {
    Enabling.Table(s.extensions, s.instances, s.hooks)
  }

  /** A state after an enable step keeps the registry's shape. */
  lemma ProgressKeepsValid(s: RegState, u: Enabling.Table, load: Enabling.Loader)
    requires Valid(s) && Hooks.Valid(u.hooks) && Enabling.Progress(TableOf(s), u, load)
    ensures Valid(s.(extensions := u.extensions, instances := u.instances, hooks := u.hooks))
  {
    forall n | n in u.extensions ensures u.extensions[n].name == n {
      assert u.extensions[n] == s.extensions[n].(active := u.extensions[n].active, error := u.extensions[n].error);
    }
  }

  /** `enable_extension(name)`, `depth` being the number of nested calls the
      interpreter still allows. */
  function Enable(s: RegState, name: string, depth: nat): (r: Reply)
    requires Valid(s)
    ensures Valid(r.state)
    ensures r.state.dir == s.dir && r.state.order == s.order && r.state.fs == s.fs
    ensures name !in s.extensions ==> r == Reply(false, NotFound(name), s)
    ensures name in s.extensions && s.extensions[name].active ==> r == Reply(true, AlreadyActive(name), s)
    ensures r.ok ==> name in r.state.extensions && r.state.extensions[name].active
  {
    var a := Enabling.Enable(TableOf(s), LoaderOf(s.fs), name, depth);
    ProgressKeepsValid(s, a.table, LoaderOf(s.fs));
    Reply(a.ok, a.message, s.(extensions := a.table.extensions, instances := a.table.instances, hooks := a.table.hooks))
  }

  /** `Enable` is an enable step on the table of the state. */
  lemma EnableTable(s: RegState, name: string, depth: nat)
    requires Valid(s)
    ensures var a, r := Enabling.Enable(TableOf(s), LoaderOf(s.fs), name, depth), Enable(s, name, depth);
      r.ok == a.ok && r.message == a.message && TableOf(r.state) == a.table
  {
  }

  /** An inactive extension whose object does not activate is refused, and
      its entry stays inactive: as it was, or with the error its object
      raised. */
  lemma EnableFailureKeepsEntry(s: RegState, name: string, depth: nat)
    requires Valid(s) && name in s.extensions && !s.extensions[name].active
    requires var ext := Enabling.Used(TableOf(s), LoaderOf(s.fs), name);
      ext.Some? && !Enabling.Activates(ext.value)
    ensures var r, ext := Enable(s, name, depth), Enabling.Used(TableOf(s), LoaderOf(s.fs), name).value;
      !r.ok && !r.state.extensions[name].active &&
      (r.state.extensions[name] == s.extensions[name] ||
       r.state.extensions[name] == s.extensions[name].(error := Enabling.RaisedBy(ext)))
  {
    Enabling.EnableFailsInactive(TableOf(s), LoaderOf(s.fs), name, depth);
  }

  // ---------------------------------------------------------------- disable

  /** `other` is an active extension whose live object lists `name` among its
      dependencies. */
  predicate DependsOn(s: RegState, name: string, other: string) {
    other in s.extensions && s.extensions[other].active && other != name &&
    other in s.instances && name in s.instances[other].dependencies
  }

  /** The position in `order` of the first extension depending on `name`,
      from position `i` on; `|order|` when there is none. */
  function FirstDependent(s: RegState, name: string, i: nat): (k: nat)
    requires i <= |s.order|
    ensures i <= k <= |s.order|
    ensures k < |s.order| ==> DependsOn(s, name, s.order[k])
    ensures forall j :: i <= j < k ==> !DependsOn(s, name, s.order[j])
    decreases |s.order| - i
  {
    if i == |s.order| then i
    else if DependsOn(s, name, s.order[i]) then i
    else FirstDependent(s, name, i + 1)
  }

  /** What `deactivate()` does for `name`: an extension without a live
      object is not asked. */
  function Deactivation(s: RegState, name: string): Outcome {
    if name in s.instances then s.instances[name].onDeactivate else Succeeds
  }

  /** `disable_extension(name)`. A refusal or a false `deactivate()` changes
      nothing; a raising `deactivate()` records the error and still disables.
      Hook callbacks stay registered. */
  function Disable(s: RegState, name: string): (r: Reply)
    ensures Valid(s) ==> Valid(r.state)
  {
    if name !in s.extensions then Reply(false, NotFound(name), s)
    else
      var info := s.extensions[name];
      if !info.active then Reply(true, AlreadyInactive(name), s)
      else
        var k := FirstDependent(s, name, 0);
        if k < |s.order| then Reply(false, DependedOn(s.order[k], name), s)
        else Deactivated(s, name)
  }

  /** `disable_extension` past its checks: `deactivate()`, then the entry is
      marked inactive; an exception is recorded but still counts as disabled. */
  function Deactivated(s: RegState, name: string): (r: Reply)
    requires name in s.extensions
    ensures Valid(s) ==> Valid(r.state)
    ensures r.state.order == s.order && r.state.instances == s.instances && r.state.hooks == s.hooks
    ensures r.ok == !Deactivation(s, name).Fails?
    ensures r.ok ==> r.state.extensions.Keys == s.extensions.Keys && !r.state.extensions[name].active
  {
    var info := s.extensions[name];
    match Deactivation(s, name)
    case Fails => Reply(false, DeactivateFailed(name), s)
    case Raises(m) =>
      Reply(true, Disabled(name), s.(extensions := s.extensions[name := info.(active := false, error := Some(m))]))
    case Succeeds => Reply(true, Disabled(name), s.(extensions := s.extensions[name := info.(active := false)]))
  }

  /** No active extension with a live object depends on `name`. */
  predicate Undepended(s: RegState, name: string) {
    forall o :: o in s.order ==> !DependsOn(s, name, o)
  }

  lemma FirstDependentNone(s: RegState, name: string)
    ensures FirstDependent(s, name, 0) == |s.order| <==> Undepended(s, name)
  {
    var k := FirstDependent(s, name, 0);
    if k == |s.order| {
      forall o | o in s.order ensures !DependsOn(s, name, o) {
        var j :| 0 <= j < |s.order| && s.order[j] == o;
      }
    }
  }

  /** When disabling succeeds and when it fails. */
  lemma DisableOutcome(s: RegState, name: string)
    ensures var r := Disable(s, name);
      r.ok <==> name in s.extensions &&
                (!s.extensions[name].active || (Undepended(s, name) && !Deactivation(s, name).Fails?))
    ensures !Disable(s, name).ok ==> Disable(s, name).state == s
  {
    FirstDependentNone(s, name);
  }

  /** A refusal names the first dependent in insertion order. */
  lemma DisableRefused(s: RegState, name: string, k: nat)
    requires name in s.extensions && s.extensions[name].active
    requires k < |s.order| && DependsOn(s, name, s.order[k])
    requires forall j :: 0 <= j < k ==> !DependsOn(s, name, s.order[j])
    ensures Disable(s, name) == Reply(false, DependedOn(s.order[k], name), s)
  {
  }

  /** A successful disable leaves the extension inactive, records a raised
      message, and changes nothing else. */
  lemma DisableSucceeds(s: RegState, name: string)
    requires Disable(s, name).ok && name in s.extensions && s.extensions[name].active
    ensures var t := Disable(s, name).state;
      t == s.(extensions := s.extensions[name := s.extensions[name].(
        active := false,
        error := if Deactivation(s, name).Raises? then Some(Deactivation(s, name).message)
                 else s.extensions[name].error)])
  {
  }

  /** Enabling an extension and disabling it again gives back its entry with
      the error cleared, when nothing depends on it and `deactivate()`
      returns a true value. */
  lemma EnableThenDisable(s: RegState, name: string, depth: nat)
    requires Valid(s) && name in s.extensions && !s.extensions[name].active
    requires Enable(s, name, depth).ok
    requires var e := Enable(s, name, depth).state; Undepended(e, name) && Deactivation(e, name).Succeeds?
    ensures var r := Disable(Enable(s, name, depth).state, name);
      r.ok && r.state.extensions[name] == s.extensions[name].(error := None)
  {
    var e := Enable(s, name, depth).state;
    Enabling.EnableSucceeds(TableOf(s), LoaderOf(s.fs), name, depth);
    DisableOutcome(e, name);
    DisableSucceeds(e, name);
  }

  // ---------------------------------------------------------------- uninstall

  /** The message of the `NotADirectoryError` `shutil.rmtree` raises on a file. */
  function NotADirectory(path: string): string {
    "[Errno 20] Not a directory: '" + path + "'"
  }

  /** Removing the entry, its position and its live object. */
  function Forget(s: RegState, name: string): (r: RegState)
    ensures Valid(s) ==> Valid(r)
  {
    s.(extensions := s.extensions - {name}, order := Remove(s.order, name), instances := s.instances - {name})
  }

  /** `uninstall_extension(name)`: an active extension with a live object is
      disabled first; its directory is removed, then its entry. */
  function Uninstall(s: RegState, name: string): (r: Reply)
    ensures Valid(s) ==> Valid(r.state)
  {
    if name !in s.extensions then Reply(false, NotFound(name), s)
    else
      var info := s.extensions[name];
      var d := if info.active && name in s.instances then Disable(s, name) else Reply(true, Done, s);
      if !d.ok then Reply(false, DisableFailed(d.message), d.state)
      else Removal(d.state, name, info.path)
  }

  /** `uninstall_extension` once the extension is inactive: its directory,
      when it has one that exists, is removed, then its entry. */
  function Removal(t: RegState, name: string, path: Option<string>): (r: Reply)
    ensures Valid(t) ==> Valid(r.state)
  {
    if path.Some? && path.value != "" && Exists(t.fs, path.value) then
      match RemoveTree(t.fs, path.value)
      case None => Reply(false, UninstallError(NotADirectory(path.value)), t)
      case Some(fs) => Reply(true, Uninstalled(name), Forget(t.(fs := fs), name))
    else Reply(true, Uninstalled(name), Forget(t, name))
  }

  /** An unknown name, or a disable that fails, changes nothing. */
  lemma UninstallRefused(s: RegState, name: string)
    ensures name !in s.extensions ==> Uninstall(s, name) == Reply(false, NotFound(name), s)
    ensures name in s.extensions && s.extensions[name].active && name in s.instances && !Disable(s, name).ok ==>
      Uninstall(s, name) == Reply(false, DisableFailed(Disable(s, name).message), s)
  {
    DisableOutcome(s, name);
  }

  /** A successful uninstall forgets the name in both maps and the order,
      leaves every other entry and object as it was, and removes the tree at
      the recorded path. */
  lemma UninstallSucceeds(s: RegState, name: string)
    requires Uninstall(s, name).ok
    ensures var t := Uninstall(s, name).state;
      name in s.extensions && name !in t.extensions && name !in t.instances && name !in t.order &&
      (forall n :: n in s.extensions && n != name ==> n in t.extensions && t.extensions[n] == s.extensions[n]) &&
      (forall n :: n in s.instances && n != name ==> n in t.instances && t.instances[n] == s.instances[n])
    ensures var p := s.extensions[name].path;
      p.Some? && p.value != "" ==> !Exists(Uninstall(s, name).state.fs, p.value)
  {
    var info := s.extensions[name];
    if info.active && name in s.instances {
      DisableSucceeds(s, name);
    }
  }

  // ---------------------------------------------------------------- settings

  /** The message of the `TypeError` `v[key] = value` raises when `v` is not a dict. */
  function ItemAssignmentError(v: Value): string {
    if v.VList? then "list indices must be integers or slices, not str"
    else "'" + TypeName(v) + "' object does not support item assignment"
  }

  /** The first loop of `update_extension_settings`: the `value` of every
      known setting is replaced; the first setting that is not a dict raises
      and the remaining updates are not made. */
  function SetValues(settings: map<string, Value>, updates: seq<(string, Value)>): (r: (map<string, Value>, Option<string>))
    ensures r.0.Keys == settings.Keys
    decreases |updates|
  {
    if updates == [] then (settings, None)
    else
      var (key, v) := updates[0];
      if key !in settings then SetValues(settings, updates[1..])
      else if !settings[key].VDict? then (settings, Some(ItemAssignmentError(settings[key])))
      else SetValues(settings[key := VDict(settings[key].entries["value" := v])], updates[1..])
  }

  /** The value the last update of `key` carries, if any. */
  function LastUpdate(updates: seq<(string, Value)>, key: string): Option<Value> {
    if updates == [] then None
    else if updates[|updates| - 1].0 == key then Some(updates[|updates| - 1].1)
    else LastUpdate(updates[..|updates| - 1], key)
  }

  /** Every update names an unknown setting or a dict-valued one. */
  predicate Assignable(settings: map<string, Value>, updates: seq<(string, Value)>) {
    forall k :: 0 <= k < |updates| && updates[k].0 in settings ==> settings[updates[k].0].VDict?
  }

  /** A setting after the updates: a dict with `value` set to the last
      update given for it, or unchanged. */
  function Updated(before: Value, last: Option<Value>): Value {
    if last.Some? && before.VDict? then VDict(before.entries["value" := last.value]) else before
  }

  lemma {:induction false} LastUpdateCons(updates: seq<(string, Value)>, key: string)
    requires updates != []
    ensures LastUpdate(updates, key) ==
      if LastUpdate(updates[1..], key).Some? then LastUpdate(updates[1..], key)
      else if updates[0].0 == key then Some(updates[0].1) else None
    decreases |updates|
  {
    if |updates| > 1 && updates[|updates| - 1].0 != key {
      var init := updates[..|updates| - 1];
      assert init[1..] == updates[1..][..|updates[1..]| - 1];
      LastUpdateCons(init, key);
    }
  }

  /** Without a raise, each known setting takes the last value given for it;
      the updates of unknown keys are dropped, and no key is added. A raise
      happens exactly when some update names a setting that is not a dict. */
  lemma SetValuesExact(settings: map<string, Value>, updates: seq<(string, Value)>)
    ensures SetValues(settings, updates).1.None? <==> Assignable(settings, updates)
    ensures Assignable(settings, updates) ==>
      forall k :: k in settings ==> SetValues(settings, updates).0[k] == Updated(settings[k], LastUpdate(updates, k))
  {
    SetValuesRaise(settings, updates);
    if Assignable(settings, updates) {
      SetValuesLast(settings, updates);
    }
  }

  lemma AssignableCons(settings: map<string, Value>, updates: seq<(string, Value)>)
    requires updates != []
    ensures Assignable(settings, updates) <==>
      (updates[0].0 in settings ==> settings[updates[0].0].VDict?) && Assignable(settings, updates[1..])
  {
    var rest := updates[1..];
    if (updates[0].0 in settings ==> settings[updates[0].0].VDict?) && Assignable(settings, rest) {
      forall k | 0 <= k < |updates| && updates[k].0 in settings ensures settings[updates[k].0].VDict? {
        if k > 0 { assert updates[k] == rest[k - 1]; }
      }
    }
    if Assignable(settings, updates) {
      forall k | 0 <= k < |rest| && rest[k].0 in settings ensures settings[rest[k].0].VDict? {
        assert rest[k] == updates[k + 1];
      }
    }
  }

  /** Setting a `value` keeps a dict a dict. */
  lemma AssignableAfterSet(settings: map<string, Value>, key: string, v: Value, updates: seq<(string, Value)>)
    requires key in settings && settings[key].VDict?
    ensures Assignable(settings[key := VDict(settings[key].entries["value" := v])], updates) <==>
            Assignable(settings, updates)
  {
  }

  lemma {:induction false} SetValuesRaise(settings: map<string, Value>, updates: seq<(string, Value)>)
    ensures SetValues(settings, updates).1.None? <==> Assignable(settings, updates)
    decreases |updates|
  {
    if updates != [] {
      var (key, v) := updates[0];
      AssignableCons(settings, updates);
      if key !in settings {
        SetValuesRaise(settings, updates[1..]);
      } else if settings[key].VDict? {
        SetValuesRaise(settings[key := VDict(settings[key].entries["value" := v])], updates[1..]);
        AssignableAfterSet(settings, key, v, updates[1..]);
      }
    }
  }

  lemma {:induction false} SetValuesLast(settings: map<string, Value>, updates: seq<(string, Value)>)
    requires Assignable(settings, updates)
    ensures forall k :: k in settings ==> SetValues(settings, updates).0[k] == Updated(settings[k], LastUpdate(updates, k))
    decreases |updates|
  {
    if updates != [] {
      var (key, v) := updates[0];
      var rest := updates[1..];
      AssignableCons(settings, updates);
      forall k | k in settings ensures LastUpdate(updates, k) ==
        if LastUpdate(rest, k).Some? then LastUpdate(rest, k) else if key == k then Some(v) else None {
        LastUpdateCons(updates, k);
      }
      if key !in settings {
        SetValuesLast(settings, rest);
      } else {
        var next := settings[key := VDict(settings[key].entries["value" := v])];
        AssignableAfterSet(settings, key, v, rest);
        SetValuesLast(next, rest);
        if LastUpdate(rest, key).Some? {
          var w := LastUpdate(rest, key).value;
          assert settings[key].entries["value" := v]["value" := w] == settings[key].entries["value" := w];
        }
      }
    }
  }

  /** The properties every extension object has and none can assign:
      `name`, `version`, `description`, `author`, `dependencies`, `type`,
      `settings` and `static_dir`, plus those of the typed base classes. */
  predicate ReadOnly(inst: Instance, key: string) {
    key in ["name", "version", "description", "author", "dependencies", "type", "settings", "static_dir"] ||
    (inst.kind == "ui" && key in ["components", "mount_points"]) ||
    (inst.kind == "api" && key == "routes") ||
    (inst.kind == "tool" && key == "tools") ||
    (inst.kind == "theme" && key in ["styles", "theme_name"])
  }

  /** `hasattr(extension, key)`. */
  predicate HasAttribute(inst: Instance, key: string) {
    key in inst.attributes || key in inst.methods || ReadOnly(inst, key)
  }

  /** The second loop of `update_extension_settings`: existing attributes
      are assigned (an assigned method name becomes a plain attribute); a
      read-only property raises and ends the loop. */
  function SetAttributes(inst: Instance, updates: seq<(string, Value)>): (r: (Instance, Option<string>))
    ensures r.0 == inst.(attributes := r.0.attributes, methods := r.0.methods)
    ensures r.0.attributes.Keys == inst.attributes.Keys + (inst.methods - r.0.methods)
    ensures r.0.methods <= inst.methods
    decreases |updates|
  {
    if updates == [] then (inst, None)
    else
      var (key, v) := updates[0];
      if !HasAttribute(inst, key) then SetAttributes(inst, updates[1..])
      else if ReadOnly(inst, key) then (inst, Some("can't set attribute"))
      else SetAttributes(inst.(attributes := inst.attributes[key := v], methods := inst.methods - {key}), updates[1..])
  }

  /** The position of the first update naming a read-only property, where
      the attribute loop stops; `|updates|` when there is none. */
  function FirstReadOnly(inst: Instance, updates: seq<(string, Value)>): (j: nat)
    ensures j <= |updates|
    ensures forall k :: 0 <= k < j ==> !ReadOnly(inst, updates[k].0)
    ensures j < |updates| ==> ReadOnly(inst, updates[j].0)
    decreases |updates|
  {
    if updates == [] then 0
    else if ReadOnly(inst, updates[0].0) then 0
    else 1 + FirstReadOnly(inst, updates[1..])
  }

  /** Which properties are read-only depends only on the object's type. */
  lemma {:induction false} FirstReadOnlyKind(a: Instance, b: Instance, updates: seq<(string, Value)>)
    requires a.kind == b.kind
    ensures FirstReadOnly(a, updates) == FirstReadOnly(b, updates)
    decreases |updates|
  {
    if updates != [] {
      FirstReadOnlyKind(a, b, updates[1..]);
    }
  }

  /** The method names among `names` that an update in `done` assigns. */
  function Overwritten(names: set<string>, done: seq<(string, Value)>): set<string> {
    set k | k in names && LastUpdate(done, k).Some?
  }

  /** The attribute loop raises exactly when some update names a read-only
      property. */
  lemma {:induction false} SetAttributesRaises(inst: Instance, updates: seq<(string, Value)>)
    ensures var r := SetAttributes(inst, updates);
      (r.1.Some? <==> FirstReadOnly(inst, updates) < |updates|) &&
      (r.1.Some? ==> r.1.value == "can't set attribute")
    decreases |updates|
  {
    if updates != [] {
      var (key, v) := updates[0];
      if !HasAttribute(inst, key) {
        SetAttributesRaises(inst, updates[1..]);
      } else if !ReadOnly(inst, key) {
        var next := inst.(attributes := inst.attributes[key := v], methods := inst.methods - {key});
        SetAttributesRaises(next, updates[1..]);
        FirstReadOnlyKind(inst, next, updates[1..]);
      }
    }
  }

  /** What the attribute loop leaves after the updates `done` it applies. */
  predicate AssignedFrom(inst: Instance, done: seq<(string, Value)>, r: Instance) {
    r.methods == inst.methods - Overwritten(inst.methods, done) &&
    r.attributes.Keys == inst.attributes.Keys + Overwritten(inst.methods, done) &&
    forall k :: k in r.attributes ==>
      r.attributes[k] == if LastUpdate(done, k).Some? then LastUpdate(done, k).value
                         else if k in inst.attributes then inst.attributes[k] else VNone
  }

  /** The attribute loop assigns, up to the first read-only property, the
      last value given for each existing attribute (a method so assigned
      becomes a plain attribute) and leaves every other attribute alone. */
  lemma {:induction false} SetAttributesExact(inst: Instance, updates: seq<(string, Value)>)
    ensures AssignedFrom(inst, updates[..FirstReadOnly(inst, updates)], SetAttributes(inst, updates).0)
    decreases |updates|
  {
    if updates != [] {
      var (key, v) := updates[0];
      var rest := updates[1..];
      var j := FirstReadOnly(inst, updates);
      if !HasAttribute(inst, key) {
        SetAttributesExact(inst, rest);
        AttributesDone(updates, j);
        SkippedAssigns(inst, updates, j, SetAttributes(inst, updates).0);
      } else if !ReadOnly(inst, key) {
        var next := inst.(attributes := inst.attributes[key := v], methods := inst.methods - {key});
        SetAttributesExact(next, rest);
        FirstReadOnlyKind(inst, next, rest);
        AttributesDone(updates, j);
        AssignedAssigns(inst, updates, j, SetAttributes(inst, updates).0);
      } else {
        assert updates[..j] == [];
      }
    }
  }

  /** An update naming no attribute changes nothing. */
  lemma SkippedAssigns(inst: Instance, updates: seq<(string, Value)>, j: nat, r: Instance)
    requires 0 < j <= |updates| && !HasAttribute(inst, updates[0].0)
    requires AssignedFrom(inst, updates[1..][..j - 1], r)
    requires LastOfApplied(updates, j)
    ensures AssignedFrom(inst, updates[..j], r)
  {
    assert Overwritten(inst.methods, updates[..j]) == Overwritten(inst.methods, updates[1..][..j - 1]);
  }

  /** An update naming an assignable attribute sets it, and the rest of
      the loop works on the object so changed. */
  lemma AssignedAssigns(inst: Instance, updates: seq<(string, Value)>, j: nat, r: Instance)
    requires 0 < j <= |updates| && HasAttribute(inst, updates[0].0) && !ReadOnly(inst, updates[0].0)
    requires var (key, v) := updates[0];
      AssignedFrom(inst.(attributes := inst.attributes[key := v], methods := inst.methods - {key}), updates[1..][..j - 1], r)
    requires LastOfApplied(updates, j)
    ensures AssignedFrom(inst, updates[..j], r)
  {
    var (key, v) := updates[0];
    var next := inst.(attributes := inst.attributes[key := v], methods := inst.methods - {key});
    assert Overwritten(inst.methods, updates[..j]) ==
           Overwritten(next.methods, updates[1..][..j - 1]) + (inst.methods * {key});
  }

  /** The last update of each key among the first `j` is its last among
      updates 1 to `j - 1`, else the first update when it names the key. */
  ghost predicate LastOfApplied(updates: seq<(string, Value)>, j: nat)
    requires 0 < j <= |updates|
  {
    forall k ::
      LastUpdate(updates[..j], k) ==
        if LastUpdate(updates[1..][..j - 1], k).Some? then LastUpdate(updates[1..][..j - 1], k)
        else if updates[0].0 == k then Some(updates[0].1) else None
  }

  /** The applied updates are the first one followed by the applied rest. */
  lemma AttributesDone(updates: seq<(string, Value)>, j: nat)
    requires 0 < j <= |updates|
    ensures LastOfApplied(updates, j)
  {
    assert updates[..j][1..] == updates[1..][..j - 1];
    forall k
      ensures LastUpdate(updates[..j], k) ==
                if LastUpdate(updates[1..][..j - 1], k).Some? then LastUpdate(updates[1..][..j - 1], k)
                else if updates[0].0 == k then Some(updates[0].1) else None
    {
      LastUpdateCons(updates[..j], k);
    }
  }

  /** `update_extension_settings(name, settings)`; `updates` are the items
      of the `settings` argument in order. */
  function UpdateSettings(s: RegState, name: string, updates: seq<(string, Value)>): (r: Reply)
  {
    if name !in s.extensions then Reply(false, NotFound(name), s)
    else
      var info := s.extensions[name];
      var (settings, raised) := SetValues(info.settings, updates);
      var t := s.(extensions := s.extensions[name := info.(settings := settings)]);
      if raised.Some? then Reply(false, SettingsError(raised.value), t)
      else if name !in s.instances then Reply(true, SettingsUpdated(name), t)
      else
        var (inst, failed) := SetAttributes(s.instances[name], updates);
        var u := t.(instances := t.instances[name := inst]);
        if failed.Some? then Reply(false, SettingsError(failed.value), u)
        else Reply(true, SettingsUpdated(name), u)
  }

  /** Updating settings changes only the `settings` of the one entry and
      never adds a key. */
  lemma UpdateSettingsShape(s: RegState, name: string, updates: seq<(string, Value)>)
    requires name in s.extensions
    ensures var t := UpdateSettings(s, name, updates).state;
      t.extensions.Keys == s.extensions.Keys &&
      t.extensions[name] == s.extensions[name].(settings := t.extensions[name].settings) &&
      t.extensions[name].settings.Keys == s.extensions[name].settings.Keys &&
      (forall n :: n in s.extensions && n != name ==> t.extensions[n] == s.extensions[n])
  {
    UpdateSettingsStates(s, name, updates);
  }

  /** Updating settings keeps the registry's shape and touches neither the
      order, the files, the hooks nor the set of live objects. */
  lemma UpdateSettingsKeepsValid(s: RegState, name: string, updates: seq<(string, Value)>)
    requires Valid(s) && name in s.extensions
    ensures var t := UpdateSettings(s, name, updates).state;
      Valid(t) && t.order == s.order && t.fs == s.fs && t.hooks == s.hooks && t.instances.Keys == s.instances.Keys
  {
    var info := s.extensions[name];
    var t := s.(extensions := s.extensions[name := info.(settings := SetValues(info.settings, updates).0)]);
    assert Valid(t) by {
      assert t.extensions[name].name == name;
    }
    UpdateSettingsStates(s, name, updates);
  }

  /** The state after the update: the new settings, and the updated object
      when there is one and the settings raised nothing. */
  lemma UpdateSettingsStates(s: RegState, name: string, updates: seq<(string, Value)>)
    requires name in s.extensions
    ensures var info := s.extensions[name];
      var t := s.(extensions := s.extensions[name := info.(settings := SetValues(info.settings, updates).0)]);
      var r := UpdateSettings(s, name, updates).state;
      r == t || (name in s.instances && r == t.(instances := t.instances[name := SetAttributes(s.instances[name], updates).0]))
  {
  }

  /** All updates assignable: every known setting carries the last value
      given for it; the reply fails only on a read-only attribute. */
  lemma UpdateSettingsValues(s: RegState, name: string, updates: seq<(string, Value)>)
    requires name in s.extensions && Assignable(s.extensions[name].settings, updates)
    ensures var r := UpdateSettings(s, name, updates);
      var before := s.extensions[name].settings;
      (forall k :: k in before ==> r.state.extensions[name].settings[k] == Updated(before[k], LastUpdate(updates, k))) &&
      (!r.ok ==> name in s.instances && SetAttributes(s.instances[name], updates).1.Some?)
  {
    SetValuesExact(s.extensions[name].settings, updates);
  }

  // ---------------------------------------------------------------- discover

  /** The entry `discover` makes for a loaded object found at `path`:
      made from the object, but an already known name keeps its `active`
      flag, its settings and its install date. */
  function Merged(s: RegState, ext: Instance, path: string, now: string): (info: Info)
    ensures info.name == ext.name
  {
    var made := FromExtension(ext, Some(DirName(path)), now);
    if ext.name in s.extensions then
      var existing := s.extensions[ext.name];
      made.(active := existing.active, settings := existing.settings, installDate := existing.installDate)
    else made
  }

  /** One iteration of `discover`'s loop. */
  function MergeOne(s: RegState, path: string, now: string): (r: RegState)
    ensures Valid(s) ==> Valid(r)
    ensures r.fs == s.fs && r.dir == s.dir && r.hooks == s.hooks
  {
    match Utils.LoadExtension(s.fs, path)
    case None => s
    case Some(ext) => Register(s, ext, Merged(s, ext, path, now))
  }

  function MergeAll(s: RegState, paths: seq<string>, now: string): (r: RegState)
    ensures Valid(s) ==> Valid(r)
    ensures r.fs == s.fs && r.dir == s.dir && r.hooks == s.hooks
    decreases |paths|
  {
    if paths == [] then s else MergeAll(MergeOne(s, paths[0], now), paths[1..], now)
  }

  /** `discover()`: the module paths `discover_extensions` reports, each
      loaded and merged in turn. */
  function Discover(s: RegState, now: string): (r: RegState)
    ensures Valid(s) ==> Valid(r)
    ensures r.dir == s.dir && r.hooks == s.hooks
  {
    var (fs, paths) := Utils.Discover(s.fs, s.dir);
    MergeAll(s.(fs := fs), paths, now)
  }

  /** The merge keeps `active`, settings and install date of a known name and
      takes every other field from the object; nothing else changes. */
  lemma MergeOneExact(s: RegState, path: string, now: string)
    requires Utils.LoadExtension(s.fs, path).Some?
    ensures var ext, r := Utils.LoadExtension(s.fs, path).value, MergeOne(s, path, now);
      var info := r.extensions[ext.name];
      var made := FromExtension(ext, Some(DirName(path)), now);
      r.instances == s.instances[ext.name := ext] &&
      (forall n :: n in s.extensions && n != ext.name ==> n in r.extensions && r.extensions[n] == s.extensions[n]) &&
      (ext.name in s.extensions ==>
         info == made.(active := s.extensions[ext.name].active, settings := s.extensions[ext.name].settings,
                        installDate := s.extensions[ext.name].installDate)) &&
      (ext.name !in s.extensions ==> info == made && !info.active)
  {
  }

  /** Some object at `paths` carries the name `n`. */
  ghost predicate Found(fs: Fs, paths: seq<string>, n: string) {
    exists k :: 0 <= k < |paths| && Utils.LoadExtension(fs, paths[k]).Some? && Utils.LoadExtension(fs, paths[k]).value.name == n
  }

  /** A name no discovered object carries keeps its entry and its object. */
  lemma {:induction false} MergeAllKeeps(s: RegState, paths: seq<string>, now: string, n: string)
    requires !Found(s.fs, paths, n)
    ensures var r := MergeAll(s, paths, now);
      (n in s.extensions <==> n in r.extensions) && (n in s.extensions ==> r.extensions[n] == s.extensions[n]) &&
      (n in s.instances <==> n in r.instances) && (n in s.instances ==> r.instances[n] == s.instances[n])
    decreases |paths|
  {
    if paths != [] {
      var next := MergeOne(s, paths[0], now);
      forall k | 0 <= k < |paths[1..]|
        ensures !(Utils.LoadExtension(s.fs, paths[1..][k]).Some? && Utils.LoadExtension(s.fs, paths[1..][k]).value.name == n)
      {
        assert paths[1..][k] == paths[k + 1];
      }
      assert Utils.LoadExtension(s.fs, paths[0]).Some? ==> Utils.LoadExtension(s.fs, paths[0]).value.name != n;
      MergeAllKeeps(next, paths[1..], now, n);
    }
  }

  lemma {:induction false} MergeAllStays(s: RegState, paths: seq<string>, now: string, n: string)
    requires n in s.extensions && n in s.instances
    ensures n in MergeAll(s, paths, now).extensions && n in MergeAll(s, paths, now).instances
    decreases |paths|
  {
    if paths != [] {
      MergeAllStays(MergeOne(s, paths[0], now), paths[1..], now, n);
    }
  }

  /** Over the whole loop, a name already known keeps its `active` flag, its
      settings and its install date, however often it is found again. */
  lemma {:induction false} MergeAllRemembers(s: RegState, paths: seq<string>, now: string, n: string)
    requires n in s.extensions
    ensures var r := MergeAll(s, paths, now);
      n in r.extensions && r.extensions[n].active == s.extensions[n].active &&
      r.extensions[n].settings == s.extensions[n].settings &&
      r.extensions[n].installDate == s.extensions[n].installDate
    decreases |paths|
  {
    if paths != [] {
      var next := MergeOne(s, paths[0], now);
      if Utils.LoadExtension(s.fs, paths[0]).Some? {
        MergeOneExact(s, paths[0], now);
      }
      assert n in next.extensions && next.extensions[n].active == s.extensions[n].active &&
        next.extensions[n].settings == s.extensions[n].settings &&
        next.extensions[n].installDate == s.extensions[n].installDate;
      MergeAllRemembers(next, paths[1..], now, n);
    }
  }

  /** Every discovered name ends up with an entry and a live object. */
  lemma {:induction false} MergeAllAdds(s: RegState, paths: seq<string>, now: string, n: string)
    requires Found(s.fs, paths, n)
    ensures n in MergeAll(s, paths, now).extensions && n in MergeAll(s, paths, now).instances
    decreases |paths|
  {
    var next := MergeOne(s, paths[0], now);
    var k :| 0 <= k < |paths| && Utils.LoadExtension(s.fs, paths[k]).Some? && Utils.LoadExtension(s.fs, paths[k]).value.name == n;
    if k == 0 {
      assert n in next.extensions && n in next.instances;
      MergeAllStays(next, paths[1..], now, n);
    } else {
      assert paths[1..][k - 1] == paths[k];
      MergeAllAdds(next, paths[1..], now, n);
    }
  }

  /** `list_extensions()`: discovers first when the table is empty, then the
      entries in insertion order. */
  function ListExtensions(s: RegState, now: string): (r: (seq<Info>, RegState))
    requires Valid(s)
    ensures Valid(r.1) && |r.0| == |r.1.order|
    ensures forall k :: 0 <= k < |r.0| ==> r.1.order[k] in r.1.extensions && r.0[k] == r.1.extensions[r.1.order[k]]
  {
    var t := if s.extensions == map[] then Discover(s, now) else s;
    (seq(|t.order|, k requires 0 <= k < |t.order| => t.extensions[t.order[k]]), t)
  }

  /** The listing holds each known entry exactly once. */
  lemma ListExtensionsComplete(s: RegState, now: string)
    requires Valid(s)
    ensures var (infos, t) := ListExtensions(s, now);
      (forall n :: n in t.extensions ==> t.extensions[n] in infos) &&
      (forall i, j :: 0 <= i < j < |infos| ==> infos[i].name != infos[j].name) &&
      (s.extensions != map[] ==> t == s)
  {
    var (infos, t) := ListExtensions(s, now);
    forall n | n in t.extensions ensures t.extensions[n] in infos {
      var k :| 0 <= k < |t.order| && t.order[k] == n;
      assert infos[k] == t.extensions[n];
    }
    forall i, j | 0 <= i < j < |infos| ensures infos[i].name != infos[j].name {
      assert infos[i].name == t.order[i] && infos[j].name == t.order[j];
    }
  }

  // ---------------------------------------------------------------- install

  /** How `install_extension` reads its source. */
  datatype SourceKind = FromUrl | FromDirectory | FromZip | Unusable

  function Classify(fs: Fs, source: string): (k: SourceKind)
    ensures k == FromUrl <==> StartsWith(source, "http://") || StartsWith(source, "https://")
    ensures k == FromDirectory <==> k != FromUrl && IsDir(fs, source)
    ensures k == FromZip <==> k != FromUrl && !IsDir(fs, source) && IsFile(fs, source) && EndsWith(source, ".zip")
  {
    if StartsWith(source, "http://") || StartsWith(source, "https://") then FromUrl
    else if IsDir(fs, source) then FromDirectory
    else if IsFile(fs, source) && EndsWith(source, ".zip") then FromZip
    else Unusable
  }

  /** The word the failure message uses for each kind of source. */
  function KindName(k: SourceKind): string {
    match k
    case FromUrl => "URL"
    case FromDirectory => "directory"
    case FromZip => "ZIP file"
    case Unusable => ""
  }

  /** The result of `install_extension`: also the installed name. */
  datatype Installation = Installation(ok: bool, name: Option<string>, message: Message, state: RegState)

  /** The copy step of each kind of source; `download` is what a URL serves. */
  function Fetch(fs: Fs, kind: SourceKind, source: string, target: string, download: Option<Content>): (Option<string>, Fs)
  {
    match kind
    case FromUrl => Utils.InstallUrl(fs, source, target, download)
    case FromDirectory => Utils.InstallDirectory(fs, source, target)
    case FromZip => Utils.InstallZip(fs, source, target)
    case Unusable => (None, fs)
  }

  /** What the filesystem part of `install_extension` yields: the installed
      path and its loaded object, or the failure message. */
  datatype Placement = Placed(path: string, instance: Instance) | NotPlaced(message: Message)

  /** Finding and loading the entry file of an installed directory. */
  function Loaded(fs: Fs, path: string): (r: Placement)
    ensures r.Placed? ==>
      r.path == path && Utils.EntryPoint(fs, path, Utils.FileOnly).Some? &&
      Utils.LoadExtension(fs, Utils.EntryPoint(fs, path, Utils.FileOnly).value) == Some(r.instance)
  {
    match Utils.EntryPoint(fs, path, Utils.FileOnly)
    case None => NotPlaced(NoEntryPoint(path))
    case Some(entry) =>
      match Utils.LoadExtension(fs, entry)
      case None => NotPlaced(LoadFailed(entry))
      case Some(ext) => Placed(path, ext)
  }

  function Place(fs: Fs, source: string, target: string, download: Option<Content>): (r: (Placement, Fs))
    ensures Classify(fs, source) == Unusable ==> r == (NotPlaced(InvalidSource(source)), fs)
    ensures r.0.Placed? ==>
      r.0.path != "" && Utils.EntryPoint(r.1, r.0.path, Utils.FileOnly).Some? &&
      Utils.LoadExtension(r.1, Utils.EntryPoint(r.1, r.0.path, Utils.FileOnly).value) == Some(r.0.instance)
  {
    var kind := Classify(fs, source);
    if kind == Unusable then (NotPlaced(InvalidSource(source)), fs)
    else
      var (installed, f) := Fetch(fs, kind, source, target, download);
      if installed.None? || installed.value == "" then (NotPlaced(InstallFailed(KindName(kind), source)), f)
      else (Loaded(f, installed.value), f)
  }

  /** Recording what the filesystem part yielded: a placed object gets a new
      inactive entry under its name, replacing any entry of that name. */
  function Record(s: RegState, placed: (Placement, Fs), now: string): (r: Installation)
    requires Valid(s)
    ensures Valid(r.state) && r.state.dir == s.dir && r.state.hooks == s.hooks && r.state.fs == placed.1
    ensures r.ok <==> r.name.Some?
    ensures r.ok <==> placed.0.Placed?
    ensures placed.0.NotPlaced? ==> r == Installation(false, None, placed.0.message, s.(fs := placed.1))
  {
    var t := s.(fs := placed.1);
    match placed.0
    case NotPlaced(m) => Installation(false, None, m, t)
    case Placed(path, ext) =>
      Installation(true, Some(ext.name), Installed(ext.name), Register(t, ext, FromExtension(ext, Some(path), now)))
  }

  /** `install_extension(source)`: copy the source into place, find and load
      its entry file, and record a new inactive entry under the object's
      name, replacing any entry of that name. */
  function Install(s: RegState, source: string, download: Option<Content>, now: string): (r: Installation)
    requires Valid(s)
    ensures Valid(r.state) && r.state.dir == s.dir && r.state.hooks == s.hooks
    ensures r.ok <==> r.name.Some?
    ensures Classify(s.fs, source) == Unusable ==> r == Installation(false, None, InvalidSource(source), s)
    ensures !r.ok ==> r.state == s.(fs := r.state.fs)
  {
    Record(s, Place(s.fs, source, s.dir, download), now)
  }

  /** A successful record stores the placed object under its name as a
      fresh, inactive entry for the placed path, and keeps every other entry
      and object. */
  lemma RecordSucceeds(s: RegState, placed: (Placement, Fs), now: string)
    requires Valid(s) && Record(s, placed, now).ok
    ensures var r := Record(s, placed, now);
      var n, t := r.name.value, r.state;
      placed.0.Placed? && n == placed.0.instance.name && t.fs == placed.1 && r.message == Installed(n) &&
      n in t.extensions && n in t.instances && t.instances[n] == placed.0.instance &&
      t.extensions[n] == FromExtension(placed.0.instance, Some(placed.0.path), now) && !t.extensions[n].active &&
      (forall m :: m in s.extensions && m != n ==> m in t.extensions && t.extensions[m] == s.extensions[m]) &&
      (forall m :: m in s.instances && m != n ==> m in t.instances && t.instances[m] == s.instances[m])
  {
    var ext := placed.0.instance;
    assert Record(s, placed, now).state == Register(s.(fs := placed.1), ext, FromExtension(ext, Some(placed.0.path), now));
  }

  /** A successful install records the object under its name as a fresh,
      inactive entry for the installed path, and keeps every other entry
      and object. */
  lemma InstallSucceeds(s: RegState, source: string, download: Option<Content>, now: string)
    requires Valid(s) && Install(s, source, download, now).ok
    ensures var r, placed := Install(s, source, download, now), Place(s.fs, source, s.dir, download);
      var n, t := r.name.value, r.state;
      placed.0.Placed? && n == placed.0.instance.name && t.fs == placed.1 && r.message == Installed(n) &&
      n in t.extensions && n in t.instances && t.instances[n] == placed.0.instance &&
      t.extensions[n] == FromExtension(placed.0.instance, Some(placed.0.path), now) && !t.extensions[n].active &&
      (forall m :: m in s.extensions && m != n ==> m in t.extensions && t.extensions[m] == s.extensions[m]) &&
      (forall m :: m in s.instances && m != n ==> m in t.instances && t.instances[m] == s.instances[m])
  {
    RecordSucceeds(s, Place(s.fs, source, s.dir, download), now);
  }

  /** A freshly recorded extension is uninstalled without a disable step;
      only removing its directory can fail. */
  lemma RecordThenUninstall(s: RegState, placed: (Placement, Fs), now: string)
    requires Valid(s) && Record(s, placed, now).ok
    ensures var r := Record(s, placed, now);
      var u := Uninstall(r.state, r.name.value);
      (u.ok || u.message.UninstallError?) &&
      (u.ok ==> r.name.value !in u.state.extensions && r.name.value !in u.state.instances)
  {
    RecordSucceeds(s, placed, now);
  }

  /** A freshly installed extension is uninstalled without a disable step;
      only removing its directory can fail. */
  lemma InstallThenUninstall(s: RegState, source: string, download: Option<Content>, now: string)
    requires Valid(s) && Install(s, source, download, now).ok
    ensures var r := Install(s, source, download, now);
      var u := Uninstall(r.state, r.name.value);
      (u.ok || u.message.UninstallError?) &&
      (u.ok ==> r.name.value !in u.state.extensions && r.name.value !in u.state.instances)
  {
    RecordThenUninstall(s, Place(s.fs, source, s.dir, download), now);
  }

  // ---------------------------------------------------------------- initialize_all

  /** The names flagged active, in insertion order. */
  function ActiveNames(order: seq<string>, extensions: map<string, Info>): (r: seq<string>)
    ensures forall n :: n in r <==> n in order && n in extensions && extensions[n].active
  {
    if order == [] then []
    else
      var rest := ActiveNames(order[1..], extensions);
      if order[0] in extensions && extensions[order[0]].active then [order[0]] + rest else rest
  }

  /** One entry of the dictionary `initialize_all` returns. */
  datatype InitResult = InitResult(name: string, ok: bool, message: Message)

  /** `enable_extension` on each name in turn, from position `i` on. */
  function EnableEach(s: RegState, names: seq<string>, i: nat, depth: nat): (r: (seq<InitResult>, RegState))
    requires Valid(s) && i <= |names|
    ensures Valid(r.1) && |r.0| == |names| - i
    decreases |names| - i
  {
    if i == |names| then ([], s)
    else
      var e := Enable(s, names[i], depth);
      var (rest, t) := EnableEach(e.state, names, i + 1, depth);
      ([InitResult(names[i], e.ok, e.message)] + rest, t)
  }

  /** `initialize_all()`. */
  function InitializeAll(s: RegState, depth: nat, now: string): (r: (seq<InitResult>, RegState))
    requires Valid(s)
    ensures Valid(r.1)
  {
    var t := if s.extensions == map[] then Discover(s, now) else s;
    EnableEach(t, ActiveNames(t.order, t.extensions), 0, depth)
  }

  /** The reply of `enable_extension` for each of `names[i..]` when all of
      them are active already. */
  function AlreadyActiveReplies(names: seq<string>, i: nat): (r: seq<InitResult>)
    requires i <= |names|
    ensures |r| == |names| - i
    decreases |names| - i
  {
    if i == |names| then [] else [InitResult(names[i], true, AlreadyActive(names[i]))] + AlreadyActiveReplies(names, i + 1)
  }

  lemma {:induction false} AlreadyActiveRepliesAt(names: seq<string>, i: nat, k: nat)
    requires i <= k < |names|
    ensures AlreadyActiveReplies(names, i)[k - i] == InitResult(names[k], true, AlreadyActive(names[k]))
    decreases k - i
  {
    if i < k {
      AlreadyActiveRepliesAt(names, i + 1, k);
    }
  }

  /** Enabling names that are all active changes nothing and answers
      "already active" for each. */
  lemma {:induction false} EnableEachActive(s: RegState, names: seq<string>, i: nat, depth: nat)
    requires Valid(s) && i <= |names| && forall n :: n in names ==> n in s.extensions && s.extensions[n].active
    ensures EnableEach(s, names, i, depth) == (AlreadyActiveReplies(names, i), s)
    decreases |names| - i
  {
    if i < |names| {
      var first := InitResult(names[i], true, AlreadyActive(names[i]));
      assert names[i] in names;
      EnableEachStep(s, names, i, depth);
      EnableEachActive(s, names, i + 1, depth);
      assert AlreadyActiveReplies(names, i) == [first] + AlreadyActiveReplies(names, i + 1);
    }
  }

  lemma EnableEachStep(s: RegState, names: seq<string>, i: nat, depth: nat)
    requires Valid(s) && i < |names| && names[i] in s.extensions && s.extensions[names[i]].active
    ensures EnableEach(s, names, i, depth) ==
      ([InitResult(names[i], true, AlreadyActive(names[i]))] + EnableEach(s, names, i + 1, depth).0,
       EnableEach(s, names, i + 1, depth).1)
  {
    assert Enable(s, names[i], depth) == Reply(true, AlreadyActive(names[i]), s);
  }

  /** The "already active" replies answer each name of the list, in order. */
  lemma AlreadyActiveRepliesNames(names: seq<string>)
    ensures var r := AlreadyActiveReplies(names, 0);
      (forall k :: 0 <= k < |r| ==> r[k] == InitResult(names[k], true, AlreadyActive(names[k]))) &&
      (forall n :: (exists k :: 0 <= k < |r| && r[k].name == n) <==> n in names)
  {
    var r := AlreadyActiveReplies(names, 0);
    forall k | 0 <= k < |r| ensures r[k] == InitResult(names[k], true, AlreadyActive(names[k])) {
      AlreadyActiveRepliesAt(names, 0, k);
    }
    forall n ensures (exists k :: 0 <= k < |r| && r[k].name == n) <==> n in names {
      if n in names {
        var k :| 0 <= k < |names| && names[k] == n;
        assert r[k].name == n;
      }
    }
  }

  /** Enabling the names flagged active reports each of them, in order, as
      already active, and changes nothing. */
  lemma EnableActiveReports(t: RegState, depth: nat)
    requires Valid(t)
    ensures var (results, u) := EnableEach(t, ActiveNames(t.order, t.extensions), 0, depth);
      u == t &&
      (forall k :: 0 <= k < |results| ==> results[k].ok && results[k].message == AlreadyActive(results[k].name)) &&
      (forall n :: (exists k :: 0 <= k < |results| && results[k].name == n) <==> n in t.extensions && t.extensions[n].active)
  {
    var names := ActiveNames(t.order, t.extensions);
    EnableEachActive(t, names, 0, depth);
    AlreadyActiveRepliesNames(names);
  }

  /** `initialize_all` reports exactly the names flagged active, each with
      the "already active" reply, and changes nothing beyond the discovery
      an empty table triggers. */
  lemma InitializeAllReports(s: RegState, depth: nat, now: string)
    requires Valid(s)
    ensures var (results, t) := InitializeAll(s, depth, now);
      t == (if s.extensions == map[] then Discover(s, now) else s) &&
      (forall k :: 0 <= k < |results| ==> results[k].ok && results[k].message == AlreadyActive(results[k].name)) &&
      (forall n :: (exists k :: 0 <= k < |results| && results[k].name == n) <==> n in t.extensions && t.extensions[n].active)
  {
    var t := if s.extensions == map[] then Discover(s, now) else s;
    EnableActiveReports(t, depth);
  }

  // ---------------------------------------------------------------- persistence

  /** The records `_save_registry` writes under "extensions", in order. */
  function Saved(extensions: map<string, Info>, names: seq<string>): (r: seq<Value>)
    requires forall n :: n in names ==> n in extensions
    ensures |r| == |names|
    ensures forall k :: 0 <= k < |names| ==> r[k] == ToDict(extensions[names[k]])
  {
    if names == [] then [] else [ToDict(extensions[names[0]])] + Saved(extensions, names[1..])
  }

  /** Each record as `from_dict` reads it. */
  function Readings(records: seq<Value>, now: string): (r: seq<Option<Info>>)
    ensures |r| == |records|
  {
    seq(|records|, k requires 0 <= k < |records| => FromDict(records[k], now))
  }

  /** The loop of `_load_registry` on what `from_dict` read, over the
      registry's dict and its key order: each entry is stored under its name;
      a record `from_dict` cannot read raises, which ends the loop and keeps
      what was stored so far. */
  function Store(extensions: map<string, Info>, order: seq<string>, readings: seq<Option<Info>>)
    : (r: (map<string, Info>, seq<string>))
    ensures extensions.Keys <= r.0.Keys
    ensures Hooks.NoDuplicates(order) ==> Hooks.NoDuplicates(r.1)
    ensures (forall n :: n in extensions <==> n in order) ==> forall n :: n in r.0 <==> n in r.1
    ensures (forall n :: n in extensions ==> extensions[n].name == n) ==> forall n :: n in r.0 ==> r.0[n].name == n
    decreases |readings|
  {
    if readings == [] || readings[0].None? then (extensions, order)
    else
      var info := readings[0].value;
      Store(extensions[info.name := info], Insert(order, info.name), readings[1..])
  }

  /** `_load_registry` given the records under "extensions", in file order. */
  function Load(s: RegState, records: seq<Value>, now: string): (r: RegState)
    ensures Valid(s) ==> Valid(r)
    ensures r.instances == s.instances && r.fs == s.fs && r.dir == s.dir && r.hooks == s.hooks
  {
    var stored := Store(s.extensions, s.order, Readings(records, now));
    s.(extensions := stored.0, order := stored.1)
  }

  /** The entries of `names`, as read back. */
  predicate Reads(extensions: map<string, Info>, names: seq<string>, readings: seq<Option<Info>>) {
    |readings| == |names| &&
    forall k :: 0 <= k < |names| ==>
      names[k] in extensions && readings[k] == Some(extensions[names[k]]) && extensions[names[k]].name == names[k]
  }

  lemma ReadsTail(extensions: map<string, Info>, names: seq<string>, readings: seq<Option<Info>>)
    requires names != [] && Reads(extensions, names, readings)
    ensures Reads(extensions, names[1..], readings[1..])
  {
    forall k | 0 <= k < |names| - 1 ensures readings[1..][k] == readings[k + 1] && names[1..][k] == names[k + 1] {
    }
  }

  /** Storing readings that are the entries of `names`, in that order,
      appends exactly `names` to the key order. */
  lemma {:induction false} StoreOrder(before: map<string, Info>, order: seq<string>,
                                      extensions: map<string, Info>, names: seq<string>,
                                      readings: seq<Option<Info>>)
    requires Reads(extensions, names, readings) && Hooks.NoDuplicates(order + names)
    ensures Store(before, order, readings).1 == order + names
    decreases |names|
  {
    if names == [] {
      assert order + names == order;
    } else {
      var n := names[0];
      var e, o := before[n := extensions[n]], order + [n];
      assert n !in order by {
        forall i | 0 <= i < |order| ensures order[i] != n {
          assert (order + names)[i] == order[i] && (order + names)[|order|] == n;
        }
      }
      assert Store(before, order, readings).1 == Store(e, o, readings[1..]).1;
      ReadsTail(extensions, names, readings);
      assert o + names[1..] == order + names;
      StoreOrder(e, o, extensions, names[1..], readings[1..]);
    }
  }

  /** Storing readings that are the entries of `names` adds exactly those
      entries to the dict and keeps every other entry. */
  lemma {:induction false} StoreContents(before: map<string, Info>, order: seq<string>,
                                         extensions: map<string, Info>, names: seq<string>,
                                         readings: seq<Option<Info>>)
    requires Reads(extensions, names, readings)
    ensures var r := Store(before, order, readings).0;
      (forall n :: n in r <==> n in before || n in names) &&
      (forall n :: n in r ==> r[n] == if n in names then extensions[n] else before[n])
    decreases |names|
  {
    if names != [] {
      var n := names[0];
      var e := before[n := extensions[n]];
      assert Store(before, order, readings).0 == Store(e, Insert(order, n), readings[1..]).0;
      ReadsTail(extensions, names, readings);
      StoreContents(e, Insert(order, n), extensions, names[1..], readings[1..]);
      var r := Store(e, Insert(order, n), readings[1..]).0;
      forall m ensures m in r <==> m in before || m in names {
        assert m in names <==> m == n || m in names[1..];
      }
      forall m | m in r
        ensures r[m] == if m in names then extensions[m] else before[m]
      {
        assert m in names <==> m == n || m in names[1..];
      }
    }
  }
  /** `from_dict` reads every saved record back as the entry it came from. */
  lemma ReadSaved(extensions: map<string, Info>, names: seq<string>, now: string)
    requires forall n :: n in names ==> n in extensions && extensions[n].name == n
    ensures Reads(extensions, names, Readings(Saved(extensions, names), now))
  {
    forall k | 0 <= k < |names|
      ensures Readings(Saved(extensions, names), now)[k] == Some(extensions[names[k]])
    {
      FromDictToDict(extensions[names[k]], now);
    }
  }

  /** Loading records that read back as the entries of `names`, none of them
      loaded yet, appends `names` to the key order and adds exactly those
      entries. */
  lemma LoadEntries(s: RegState, records: seq<Value>, now: string, extensions: map<string, Info>,
                    names: seq<string>)
    requires Reads(extensions, names, Readings(records, now)) && Hooks.NoDuplicates(s.order + names)
    ensures var r := Load(s, records, now);
      r.order == s.order + names &&
      (forall n :: n in r.extensions <==> n in s.extensions || n in names) &&
      (forall n :: n in r.extensions ==> r.extensions[n] == if n in names then extensions[n] else s.extensions[n])
  {
    var readings := Readings(records, now);
    StoreOrder(s.extensions, s.order, extensions, names, readings);
    StoreContents(s.extensions, s.order, extensions, names, readings);
  }

  /** Storing readings that are the entries of a table, in its key order,
      into an empty dict rebuilds exactly that table and order. */
  lemma StoreRestores(extensions: map<string, Info>, order: seq<string>, readings: seq<Option<Info>>)
    requires Reads(extensions, order, readings) && Hooks.NoDuplicates(order)
    requires forall n :: n in extensions <==> n in order
    ensures Store(map[], [], readings) == (extensions, order)
  {
    assert [] + order == order;
    StoreOrder(map[], [], extensions, order, readings);
    StoreContents(map[], [], extensions, order, readings);
    SameTable(Store(map[], [], readings).0, extensions, order);
  }

  lemma SameTable(r: map<string, Info>, extensions: map<string, Info>, order: seq<string>)
    requires forall n :: n in extensions <==> n in order
    requires forall n :: n in r <==> n in order
    requires forall n :: n in r ==> r[n] == extensions[n]
    ensures r == extensions
  {
    assert r.Keys == extensions.Keys;
  }

  /** Loading records that read back as the entries of a valid registry,
      in its order, into an empty one gives back that registry's table and
      order. */
  lemma LoadRestores(s: RegState, records: seq<Value>, now: string)
    requires Valid(s) && Reads(s.extensions, s.order, Readings(records, now))
    ensures var r := Load(s.(extensions := map[], order := []), records, now);
      r.extensions == s.extensions && r.order == s.order
  {
    StoreRestores(s.extensions, s.order, Readings(records, now));
  }

  /** Saving a valid registry and loading the file into an empty one gives
      back every entry in the same order. */
  lemma SaveThenLoad(s: RegState, now: string)
    requires Valid(s)
    ensures var empty := s.(extensions := map[], order := []);
      var r := Load(empty, Saved(s.extensions, s.order), now);
      r.extensions == s.extensions && r.order == s.order
  {
    ReadSaved(s.extensions, s.order, now);
    LoadRestores(s, Saved(s.extensions, s.order), now);
  }
}
