/**
 * `enable_extension` (extension_system/registry.py) on the part of the
 * registry it reads and changes: the extension entries, the live objects and
 * the hook table. How an object is obtained from an entry's recorded path is
 * a parameter; the registry model passes the filesystem lookup of its entry
 * file followed by `load_extension`.
 */
module Enabling {
  import opened Wrappers
  import opened Base
  import Hooks
  import opened RegistryInfo
  import opened RegistryMessages
  import opened Strings

  /** The state `enable_extension` works on. */
  datatype Table = Table(extensions: map<string, Info>, instances: map<string, Instance>, hooks: Hooks.HookState)

  /** What loading from a recorded path gives: no path, no entry file in the
      path, an entry file that does not load, or an object. */
  datatype Loading = Pathless | NoEntry(dir: string) | Unloadable(entry: string) | Loads(instance: Instance)

  type Loader = Option<string> -> Loading

  datatype Attempt = Attempt(ok: bool, message: Message, table: Table)

  /** The object `enable_extension` works with: the live one, else a loaded one. */
  function Used(t: Table, load: Loader, name: string): Option<Instance>
    requires name in t.extensions
  {
    if name in t.instances then Some(t.instances[name])
    else match load(t.extensions[name].path)
      case Loads(ext) => Some(ext)
      case _ => None
  }

  /** The dependencies `enable_extension` walks for `name`. */
  function Deps(t: Table, load: Loader, name: string): seq<string>
    requires name in t.extensions
  {
    match Used(t, load, name)
    case None => []
    case Some(ext) => ext.dependencies
  }

  /** `u` has the entries of `t` up to `active` (which only turns on) and `error`. */
  predicate StatusOnly(t: map<string, Info>, u: map<string, Info>) {
    u.Keys == t.Keys &&
    (forall n :: n in t ==> u[n] == t[n].(active := u[n].active, error := u[n].error)) &&
    (forall n :: n in t && t[n].active ==> u[n].active)
  }

  /** What enabling may leave of the entry `before` of an extension whose
      object, when one can be had, is `ext`: the entry as it was, the entry
      activated, or the entry with the error that object's `initialize` or
      `activate` raises. */
  predicate Settled(before: Info, after: Info, ext: Option<Instance>) {
    after == before ||
    (ext.Some? && Activates(ext.value) && after == before.(active := true, error := None)) ||
    (ext.Some? && RaisedBy(ext.value).Some? && after == before.(error := RaisedBy(ext.value)))
  }

  /** An object that activates does not raise, so a second step never
      leaves anything new. */
  lemma SettledTransitive(a: Info, b: Info, c: Info, ext: Option<Instance>)
    requires Settled(a, b, ext) && Settled(b, c, ext)
    ensures Settled(a, c, ext)
  {
  }

  /** What an enable step may do: turn entries active, record errors, each
      entry only through its own object, keep every live object and add ones
      `load` gives, register hooks. */
  predicate Progress(t: Table, u: Table, load: Loader) {
    StatusOnly(t.extensions, u.extensions) &&
    (forall n :: n in t.extensions ==> Settled(t.extensions[n], u.extensions[n], Used(t, load, n))) &&
    (forall n :: n in t.instances ==> n in u.instances && u.instances[n] == t.instances[n]) &&
    (forall n :: n in u.instances && n !in t.instances ==>
       n in t.extensions && load(t.extensions[n].path) == Loads(u.instances[n]))
  }

  lemma StatusOnlyTransitive(t: map<string, Info>, u: map<string, Info>, v: map<string, Info>)
    requires StatusOnly(t, u) && StatusOnly(u, v)
    ensures StatusOnly(t, v)
  {
  }

  lemma ProgressTransitive(t: Table, u: Table, v: Table, load: Loader)
    requires Progress(t, u, load) && Progress(u, v, load)
    ensures Progress(t, v, load)
  {
    StatusOnlyTransitive(t.extensions, u.extensions, v.extensions);
    forall n | n in t.extensions
      ensures Settled(t.extensions[n], v.extensions[n], Used(t, load, n))
    {
      ProgressKeepsUsed(t, u, load, n);
      SettledTransitive(t.extensions[n], u.extensions[n], v.extensions[n], Used(t, load, n));
    }
    forall n | n in v.instances && n !in t.instances
      ensures n in t.extensions && load(t.extensions[n].path) == Loads(v.instances[n])
    {
      if n !in u.instances {
        assert u.extensions[n].path == t.extensions[n].path;
      }
    }
  }

  /** Changing nothing is an enable step. */
  lemma ProgressRefl(t: Table, load: Loader)
    ensures Progress(t, t, load)
  {
  }

  /** A step keeps the object, hence the dependencies, of every name. */
  lemma ProgressKeepsUsed(t: Table, u: Table, load: Loader, n: string)
    requires Progress(t, u, load) && n in t.extensions
    ensures Used(u, load, n) == Used(t, load, n)
  {
    assert u.extensions[n].path == t.extensions[n].path;
  }

  /** An active extension stays active through a step. */
  lemma ActiveStays(t: Table, u: Table, load: Loader, n: string)
    requires Progress(t, u, load) && n in t.extensions && t.extensions[n].active
    ensures n in u.extensions && u.extensions[n].active
  {
  }

  // ---------------------------------------------------------------- the steps

  /** Loading the object when it is not live yet. */
  datatype Prepared = Ready(instance: Instance) | Refused(message: Message)

  function Prepare(t: Table, load: Loader, name: string): (r: Prepared)
    requires name in t.extensions
    ensures r.Refused? <==> Used(t, load, name).None?
    ensures r.Ready? ==> Used(t, load, name) == Some(r.instance)
  {
    if name in t.instances then Ready(t.instances[name])
    else match load(t.extensions[name].path)
      case Pathless => Refused(NoPath(name))
      case NoEntry(dir) => Refused(NoEntryPoint(dir))
      case Unloadable(entry) => Refused(LoadFailed(entry))
      case Loads(ext) => Ready(ext)
  }

  /** Keeping the object `Used` names live is an enable step. */
  lemma KeepUsed(t: Table, load: Loader, name: string)
    requires name in t.extensions && Used(t, load, name).Some?
    ensures Progress(t, t.(instances := t.instances[name := Used(t, load, name).value]), load)
  {
  }

  /** The message of the exception `initialize` or `activate` raises, if the
      enable step gets that far. */
  function RaisedBy(ext: Instance): Option<string> {
    if ext.onInitialize.Raises? then Some(ext.onInitialize.message)
    else if ext.onInitialize.Succeeds? && ext.onActivate.Raises? then Some(ext.onActivate.message)
    else None
  }

  /** Both lifecycle calls return a true value. */
  predicate Activates(ext: Instance) {
    ext.onInitialize.Succeeds? && ext.onActivate.Succeeds?
  }

  /** The entry after a failed activation: the raised message if there was one. */
  function AfterFailure(info: Info, ext: Instance): Info {
    if RaisedBy(ext).Some? then info.(error := RaisedBy(ext)) else info
  }

  /** The message of a failed activation. */
  function FailureMessage(name: string, ext: Instance): Message {
    if RaisedBy(ext).Some? then EnableError(RaisedBy(ext).value)
    else if ext.onInitialize.Fails? then InitializeFailed(name)
    else ActivateFailed(name)
  }

  /** The hook table after activation got as far as registering hooks. */
  function HooksAfter(h: Hooks.HookState, ext: Instance): (r: Hooks.HookState)
    requires Hooks.Valid(h)
    ensures Hooks.Valid(r)
  {
    if ext.onInitialize.Succeeds? then Hooks.RegisterFromInstance(h, ext) else h
  }

  /** `initialize({})`, hook registration, `activate()`. */
  function Activate(t: Table, name: string, ext: Instance): (r: Attempt)
    requires Hooks.Valid(t.hooks) && name in t.extensions
    ensures r.ok <==> Activates(ext)
    ensures r.message == if r.ok then Enabled(name) else FailureMessage(name, ext)
    ensures r.table.instances == t.instances
    ensures r.table.extensions ==
      t.extensions[name := if r.ok then t.extensions[name].(active := true, error := None)
                           else AfterFailure(t.extensions[name], ext)]
    ensures r.table.hooks == HooksAfter(t.hooks, ext)
  {
    var info := t.extensions[name];
    match ext.onInitialize
    case Fails => Attempt(false, InitializeFailed(name), t)
    case Raises(m) => Attempt(false, EnableError(m), t.(extensions := t.extensions[name := info.(error := Some(m))]))
    case Succeeds => Activated(t.(hooks := Hooks.RegisterFromInstance(t.hooks, ext)), name, ext)
  }

  /** `activate()`, once `initialize` has succeeded and the hooks are registered. */
  function Activated(t: Table, name: string, ext: Instance): Attempt
    requires name in t.extensions
  {
    var info := t.extensions[name];
    match ext.onActivate
    case Fails => Attempt(false, ActivateFailed(name), t)
    case Raises(m) => Attempt(false, EnableError(m), t.(extensions := t.extensions[name := info.(error := Some(m))]))
    case Succeeds => Attempt(true, Enabled(name), t.(extensions := t.extensions[name := info.(active := true, error := None)]))
  }

  /** Activation is an enable step that changes no other entry. */
  lemma ActivateSteps(t: Table, load: Loader, name: string, ext: Instance)
    requires Hooks.Valid(t.hooks) && name in t.extensions && Used(t, load, name) == Some(ext)
    ensures Progress(t, Activate(t, name, ext).table, load)
    ensures forall n :: n in t.extensions && n != name ==> Activate(t, name, ext).table.extensions[n] == t.extensions[n]
  {
    var u := Activate(t, name, ext).table;
    assert StatusOnly(t.extensions, u.extensions);
  }

  /** The text of the `RecursionError` Python raises when the call stack is exhausted. */
  const RecursionLimit: string := "maximum recursion depth exceeded"

  /** `enable_extension`. `depth` is the number of nested calls the Python
      stack still allows: a dependency that would need one more raises
      `RecursionError`, which the calling frame reports like any exception. */
  function Enable(t: Table, load: Loader, name: string, depth: nat): (r: Attempt)
    requires Hooks.Valid(t.hooks)
    decreases depth, 3, 0
    ensures Hooks.Valid(r.table.hooks) && Progress(t, r.table, load)
    ensures name !in t.extensions ==> r == Attempt(false, NotFound(name), t)
    ensures name in t.extensions && t.extensions[name].active ==> r == Attempt(true, AlreadyActive(name), t)
    ensures r.ok ==> name in r.table.extensions && r.table.extensions[name].active
  {
    if name !in t.extensions then Attempt(false, NotFound(name), t)
    else if t.extensions[name].active then Attempt(true, AlreadyActive(name), t)
    else EnableInactive(t, load, name, depth)
  }

  /** `enable_extension` past the two early returns: load, then go on. */
  function EnableInactive(t: Table, load: Loader, name: string, depth: nat): (r: Attempt)
    requires Hooks.Valid(t.hooks)
    requires name in t.extensions && !t.extensions[name].active
    decreases depth, 2, 0
    ensures Hooks.Valid(r.table.hooks) && Progress(t, r.table, load)
    ensures r.ok ==> r.table.extensions[name].active
  {
    match Prepare(t, load, name)
    case Refused(m) => Attempt(false, m, t)
    case Ready(ext) =>
      var loaded := t.(instances := t.instances[name := ext]);
      KeepUsed(t, load, name);
      var r := EnableLoaded(loaded, load, name, depth);
      ProgressTransitive(t, loaded, r.table, load);
      r
  }

  /** `enable_extension` once the object is live: dependencies, then activation. */
  function EnableLoaded(t: Table, load: Loader, name: string, depth: nat): (r: Attempt)
    requires Hooks.Valid(t.hooks)
    requires name in t.extensions && name in t.instances
    decreases depth, 1, 0
    ensures Hooks.Valid(r.table.hooks) && Progress(t, r.table, load)
    ensures r.ok ==> r.table.extensions[name].active
  {
    var ext := t.instances[name];
    var deps := EnableDeps(t, load, name, ext.dependencies, 0, depth);
    if !deps.ok then deps
    else
      var done := Activate(deps.table, name, ext);
      ActivateSteps(deps.table, load, name, ext);
      ProgressTransitive(t, deps.table, done.table, load);
      done
  }

  /** The dependency loop of `enable_extension`, from position `i` of the
      dependency list on: a dependency must be known, and an inactive one is
      enabled first. */
  function EnableDeps(t: Table, load: Loader, name: string, deps: seq<string>, i: nat, depth: nat): (r: Attempt)
    requires Hooks.Valid(t.hooks)
    requires i <= |deps|
    decreases depth, 0, |deps| - i, 1
    ensures Hooks.Valid(r.table.hooks) && Progress(t, r.table, load)
    ensures r.ok ==> forall k :: i <= k < |deps| ==> deps[k] in r.table.extensions && r.table.extensions[deps[k]].active
    ensures (forall k :: i <= k < |deps| ==> deps[k] in t.extensions && t.extensions[deps[k]].active) ==>
      r == Attempt(true, Done, t)
  {
    if i == |deps| then ProgressRefl(t, load); Attempt(true, Done, t)
    else if deps[i] !in t.extensions then ProgressRefl(t, load); Attempt(false, MissingDependency(deps[i]), t)
    else if t.extensions[deps[i]].active then EnableDeps(t, load, name, deps, i + 1, depth)
    else if depth == 0 then ProgressRefl(t, load); Attempt(false, EnableError(RecursionLimit), t)
    else EnableDep(t, load, name, deps, i, depth, Deeper(depth))
  }

  /** One turn of the loop for an inactive dependency `deps[i]`: enable it
      one level deeper (`k`, one less than `depth`), then go on with the rest. */
  function EnableDep(t: Table, load: Loader, name: string, deps: seq<string>, i: nat, depth: nat, k: nat): (r: Attempt)
    requires Hooks.Valid(t.hooks)
    requires i < |deps| && depth == k + 1
    decreases depth, 0, |deps| - i, 0
    ensures Hooks.Valid(r.table.hooks) && Progress(t, r.table, load)
    ensures r.ok ==> forall k :: i <= k < |deps| ==> deps[k] in r.table.extensions && r.table.extensions[deps[k]].active
  {
    var d := deps[i];
    var e := Enable(t, load, d, k);
    if !e.ok then Attempt(false, DependencyFailed(d, e.message), e.table)
    else
      var rest := EnableDeps(e.table, load, name, deps, i + 1, depth);
      ActiveStays(e.table, rest.table, load, d);
      ProgressTransitive(t, e.table, rest.table, load);
      rest
  }

  /** One turn of the dependency loop for an inactive dependency, with `k`
      the depth one level down. */
  lemma DependencyStep(t: Table, load: Loader, name: string, deps: seq<string>, i: nat, depth: nat, k: nat)
    requires Hooks.Valid(t.hooks) && i < |deps| && depth == k + 1
    requires deps[i] in t.extensions && !t.extensions[deps[i]].active
    ensures var e := Enable(t, load, deps[i], k);
      EnableDeps(t, load, name, deps, i, depth) ==
        if e.ok then EnableDeps(e.table, load, name, deps, i + 1, depth)
        else Attempt(false, DependencyFailed(deps[i], e.message), e.table)
  {
    assert EnableDeps(t, load, name, deps, i, depth) == EnableDep(t, load, name, deps, i, depth, Deeper(depth));
    SameDepth(t, load, name, deps, i, depth, k);
    DepUnfolds(t, load, name, deps, i, depth, k);
  }

  /** The depth one nested call down. */
  function Deeper(depth: nat): (k: nat)
    requires depth > 0
    ensures depth == k + 1
  {
    depth - 1
  }

  lemma DeeperIs(depth: nat, k: nat)
    requires depth == k + 1
    ensures Deeper(depth) == k
  {
  }

  lemma SameDepth(t: Table, load: Loader, name: string, deps: seq<string>, i: nat, depth: nat, k: nat)
    requires Hooks.Valid(t.hooks) && i < |deps| && depth == k + 1
    ensures EnableDep(t, load, name, deps, i, depth, Deeper(depth)) == EnableDep(t, load, name, deps, i, depth, k)
  {
    DeeperIs(depth, k);
  }

  lemma DepUnfolds(t: Table, load: Loader, name: string, deps: seq<string>, i: nat, depth: nat, k: nat)
    requires Hooks.Valid(t.hooks) && i < |deps| && depth == k + 1
    ensures var e := Enable(t, load, deps[i], k);
      EnableDep(t, load, name, deps, i, depth, k) ==
        if e.ok then EnableDeps(e.table, load, name, deps, i + 1, depth)
        else Attempt(false, DependencyFailed(deps[i], e.message), e.table)
  {
  }

  // ---------------------------------------------------------------- what enable does

  /** An element of a sequence sits at some index. */
  lemma IndexOf(xs: seq<string>, x: string) returns (k: nat)
    requires x in xs
    ensures k < |xs| && xs[k] == x
  {
    k :| 0 <= k < |xs| && xs[k] == x;
  }

  /** The enable of a known, inactive name whose object is at hand is the
      enable of the table with that object live. */
  lemma EnableUnfolds(t: Table, load: Loader, name: string, depth: nat)
    requires Hooks.Valid(t.hooks) && name in t.extensions && !t.extensions[name].active
    requires Used(t, load, name).Some?
    ensures Enable(t, load, name, depth) ==
            EnableLoaded(t.(instances := t.instances[name := Used(t, load, name).value]), load, name, depth)
  {
    assert Enable(t, load, name, depth) == EnableInactive(t, load, name, depth);
  }

  /** Once the dependency loop succeeds, enabling is the activation. */
  lemma LoadedUnfolds(t: Table, load: Loader, name: string, depth: nat)
    requires Hooks.Valid(t.hooks) && name in t.extensions && name in t.instances
    requires EnableDeps(t, load, name, t.instances[name].dependencies, 0, depth).ok
    ensures EnableLoaded(t, load, name, depth) ==
            Activate(EnableDeps(t, load, name, t.instances[name].dependencies, 0, depth).table, name, t.instances[name])
  {
  }

  /** A successful enable of an inactive extension activated the object it
      works with and left every dependency of that object active; its entry is
      marked active with the error cleared, and nothing else in it changes. */
  lemma EnableSucceeds(t: Table, load: Loader, name: string, depth: nat)
    requires Hooks.Valid(t.hooks) && name in t.extensions && !t.extensions[name].active
    requires Enable(t, load, name, depth).ok
    ensures var r := Enable(t, load, name, depth);
      Used(t, load, name).Some? && Activates(Used(t, load, name).value) && r.message == Enabled(name) &&
      r.table.extensions[name] == t.extensions[name].(active := true, error := None) &&
      forall d :: d in Deps(t, load, name) ==> d in r.table.extensions && r.table.extensions[d].active
  {
    var ext := Prepare(t, load, name).instance;
    var loaded := t.(instances := t.instances[name := ext]);
    EnableUnfolds(t, load, name, depth);
    var deps := EnableDeps(loaded, load, name, ext.dependencies, 0, depth);
    assert deps.ok;
    LoadedUnfolds(loaded, load, name, depth);
    var r := Activate(deps.table, name, ext);
    ActivateSteps(deps.table, load, name, ext);
    forall d | d in ext.dependencies
      ensures d in r.table.extensions && r.table.extensions[d].active
    {
      var k := IndexOf(ext.dependencies, d);
    }
  }

  /** When every dependency is already active, enabling an inactive extension
      is one activation of the object it works with: it succeeds iff both
      lifecycle calls do, and the entry, the live objects and the hooks change
      exactly as that activation says. */
  lemma EnableWithDependenciesActive(t: Table, load: Loader, name: string, depth: nat)
    requires Hooks.Valid(t.hooks) && name in t.extensions && !t.extensions[name].active
    requires Used(t, load, name).Some?
    requires forall d :: d in Deps(t, load, name) ==> d in t.extensions && t.extensions[d].active
    ensures var r, ext := Enable(t, load, name, depth), Used(t, load, name).value;
      (r.ok <==> Activates(ext)) &&
      r.message == (if Activates(ext) then Enabled(name) else FailureMessage(name, ext)) &&
      r.table.extensions == t.extensions[name := if Activates(ext) then t.extensions[name].(active := true, error := None)
                                                else AfterFailure(t.extensions[name], ext)] &&
      r.table.instances == t.instances[name := ext] &&
      r.table.hooks == HooksAfter(t.hooks, ext)
  {
    var ext := Used(t, load, name).value;
    var loaded := t.(instances := t.instances[name := ext]);
    EnableUnfolds(t, load, name, depth);
    assert EnableDeps(loaded, load, name, ext.dependencies, 0, depth) == Attempt(true, Done, loaded);
    LoadedUnfolds(loaded, load, name, depth);
  }

  /** An extension whose object cannot be had is refused with the message
      of the step that failed, and nothing changes. */
  lemma EnableRefused(t: Table, load: Loader, name: string, depth: nat)
    requires Hooks.Valid(t.hooks) && name in t.extensions && !t.extensions[name].active
    requires Used(t, load, name).None?
    ensures var r := Enable(t, load, name, depth);
      !r.ok && r.table == t &&
      r.message == match load(t.extensions[name].path)
        case Pathless => NoPath(name)
        case NoEntry(dir) => NoEntryPoint(dir)
        case Unloadable(entry) => LoadFailed(entry)
        case Loads(_) => Done
  {
    assert Enable(t, load, name, depth) == EnableInactive(t, load, name, depth);
  }

  lemma LoadedFailsUnfolds(t: Table, load: Loader, name: string, depth: nat)
    requires Hooks.Valid(t.hooks) && name in t.extensions && name in t.instances
    requires !EnableDeps(t, load, name, t.instances[name].dependencies, 0, depth).ok
    ensures EnableLoaded(t, load, name, depth) == EnableDeps(t, load, name, t.instances[name].dependencies, 0, depth)
  {
  }

  // ---------------------------------------------------------------- how enable fails

  /** The loop, with `depth` nested calls left, got past dependency `d`:
      it is installed, and active already or enabled one level deeper. */
  predicate Passed(t: Table, d: string, depth: nat) {
    d in t.extensions && (t.extensions[d].active || depth > 0)
  }

  /** The dependency loop, started at `i`, stopped at position `k` with
      message `m`: it got past every dependency before `k`, and `k` is
      either not installed (the missing-dependency message) or inactive,
      with the stack exhausted (the recursion error) or its enable failing
      (the wrapped message naming it). */
  predicate StopsAt(t: Table, deps: seq<string>, i: nat, k: nat, depth: nat, m: Message)
    requires i <= k < |deps|
  {
    (forall j :: i <= j < k ==> Passed(t, deps[j], depth)) &&
    ((deps[k] !in t.extensions && m == MissingDependency(deps[k])) ||
     (deps[k] in t.extensions && !t.extensions[deps[k]].active &&
      if depth == 0 then m == EnableError(RecursionLimit) else m.DependencyFailed? && m.dep == deps[k]))
  }

  /** A stop found after a step from `t` is a stop of the loop from `t`:
      a step adds no entry and deactivates none. */
  lemma StopsAtBefore(t: Table, u: Table, deps: seq<string>, i: nat, k: nat, depth: nat, m: Message)
    requires StatusOnly(t.extensions, u.extensions) && depth > 0
    requires i < k < |deps| && deps[i] in t.extensions && StopsAt(u, deps, i + 1, k, depth, m)
    ensures StopsAt(t, deps, i, k, depth, m)
  {
  }

  /** A failed dependency loop stopped at some dependency, as `StopsAt` says. */
  lemma {:induction false} DepsFailure(t: Table, load: Loader, name: string, deps: seq<string>, i: nat, depth: nat)
    requires Hooks.Valid(t.hooks) && i <= |deps|
    ensures var r := EnableDeps(t, load, name, deps, i, depth);
      !r.ok ==> exists k :: i <= k < |deps| && StopsAt(t, deps, i, k, depth, r.message)
    decreases |deps| - i
  {
    var r := EnableDeps(t, load, name, deps, i, depth);
    if i < |deps| && !r.ok {
      if deps[i] !in t.extensions || (!t.extensions[deps[i]].active && depth == 0) {
        assert StopsAt(t, deps, i, i, depth, r.message);
      } else if t.extensions[deps[i]].active {
        DepsFailure(t, load, name, deps, i + 1, depth);
        var k :| i + 1 <= k < |deps| && StopsAt(t, deps, i + 1, k, depth, r.message);
        assert StopsAt(t, deps, i, k, depth, r.message);
      } else {
        var k := Deeper(depth);
        DependencyStep(t, load, name, deps, i, depth, k);
        var e := Enable(t, load, deps[i], k);
        if e.ok {
          DepsFailure(e.table, load, name, deps, i + 1, depth);
          var k' :| i + 1 <= k' < |deps| && StopsAt(e.table, deps, i + 1, k', depth, r.message);
          StopsAtBefore(t, e.table, deps, i, k', depth, r.message);
        } else {
          assert StopsAt(t, deps, i, i, depth, r.message);
        }
      }
    }
  }

  /** With no nested call left, the loop succeeds only when every remaining
      dependency is already active. */
  lemma {:induction false} DepsAtZero(t: Table, load: Loader, name: string, deps: seq<string>, i: nat)
    requires Hooks.Valid(t.hooks) && i <= |deps|
    ensures EnableDeps(t, load, name, deps, i, 0).ok ==>
      forall k :: i <= k < |deps| ==> deps[k] in t.extensions && t.extensions[deps[k]].active
    decreases |deps| - i
  {
    if i < |deps| && deps[i] in t.extensions && t.extensions[deps[i]].active {
      DepsAtZero(t, load, name, deps, i + 1);
    }
  }

  /** The loop reaching a dependency that is not installed, past
      dependencies that are all active, fails with a message naming it. */
  lemma {:induction false} DepsMissingAt(t: Table, load: Loader, name: string, deps: seq<string>, i: nat, j: nat, depth: nat)
    requires Hooks.Valid(t.hooks) && i <= j < |deps| && deps[j] !in t.extensions
    requires forall k :: i <= k < j ==> deps[k] in t.extensions && t.extensions[deps[k]].active
    ensures var r := EnableDeps(t, load, name, deps, i, depth);
      !r.ok && r.message == MissingDependency(deps[j])
    decreases j - i
  {
    if i < j {
      assert deps[i] in t.extensions && t.extensions[deps[i]].active;
      DepsMissingAt(t, load, name, deps, i + 1, j, depth);
    } else {
      assert deps[i] !in t.extensions;
    }
  }

  /** The loop reaching an inactive dependency with no nested call left,
      past dependencies that are all active, fails with the recursion error. */
  lemma {:induction false} DepsLimitAt(t: Table, load: Loader, name: string, deps: seq<string>, i: nat, j: nat, depth: nat)
    requires Hooks.Valid(t.hooks) && i <= j < |deps| && deps[j] in t.extensions && !t.extensions[deps[j]].active
    requires forall k :: i <= k < j ==> deps[k] in t.extensions && t.extensions[deps[k]].active
    requires depth == 0
    ensures var r := EnableDeps(t, load, name, deps, i, depth);
      !r.ok && r.message == EnableError(RecursionLimit)
  {
    DepsAtZero(t, load, name, deps, i);
    DepsFailure(t, load, name, deps, i, depth);
    var r := EnableDeps(t, load, name, deps, i, depth);
    var k :| i <= k < |deps| && StopsAt(t, deps, i, k, depth, r.message);
    assert k == j;
  }

  /** A missing-dependency message of the loop names a dependency from
      position `i` on that is not installed. */
  lemma {:induction false} DepsMissingMeans(t: Table, load: Loader, name: string, deps: seq<string>, i: nat, depth: nat)
    requires Hooks.Valid(t.hooks) && i <= |deps|
    ensures var m := EnableDeps(t, load, name, deps, i, depth).message;
      m.MissingDependency? ==> m.dep in deps[i..] && m.dep !in t.extensions
    decreases |deps| - i
  {
    var r := EnableDeps(t, load, name, deps, i, depth);
    if i < |deps| && r.message.MissingDependency? {
      assert deps[i..] == [deps[i]] + deps[i + 1..];
      if deps[i] !in t.extensions {
        assert r.message.dep == deps[i];
      } else if t.extensions[deps[i]].active {
        DepsMissingMeans(t, load, name, deps, i + 1, depth);
      } else if depth > 0 {
        var k := Deeper(depth);
        DependencyStep(t, load, name, deps, i, depth, k);
        var e := Enable(t, load, deps[i], k);
        if e.ok {
          DepsMissingMeans(e.table, load, name, deps, i + 1, depth);
          assert e.table.extensions.Keys == t.extensions.Keys;
        }
      }
    }
  }

  /** A failed enable of an inactive extension whose object is at hand:
      either the dependency loop went through and the activation failed with
      its own message, or the loop stopped at some dependency as `StopsAt`
      says. */
  lemma EnableFailure(t: Table, load: Loader, name: string, depth: nat)
    requires Hooks.Valid(t.hooks) && name in t.extensions && !t.extensions[name].active
    requires Used(t, load, name).Some?
    ensures var r, ext := Enable(t, load, name, depth), Used(t, load, name).value;
      !r.ok ==>
        (EnableDeps(t.(instances := t.instances[name := ext]), load, name, ext.dependencies, 0, depth).ok &&
         !Activates(ext) && r.message == FailureMessage(name, ext)) ||
        exists k :: 0 <= k < |ext.dependencies| && StopsAt(t, ext.dependencies, 0, k, depth, r.message)
  {
    var r := Enable(t, load, name, depth);
    var ext := Used(t, load, name).value;
    var loaded := t.(instances := t.instances[name := ext]);
    EnableUnfolds(t, load, name, depth);
    var deps := EnableDeps(loaded, load, name, ext.dependencies, 0, depth);
    if deps.ok {
      LoadedUnfolds(loaded, load, name, depth);
    } else {
      LoadedFailsUnfolds(loaded, load, name, depth);
      DepsFailure(loaded, load, name, ext.dependencies, 0, depth);
      var k :| 0 <= k < |ext.dependencies| && StopsAt(loaded, ext.dependencies, 0, k, depth, r.message);
      assert StopsAt(t, ext.dependencies, 0, k, depth, r.message);
    }
  }

  /** A dependency that is not installed, wherever it is in the list, makes
      the enable fail. */
  lemma EnableNeedsInstalled(t: Table, load: Loader, name: string, depth: nat, d: string)
    requires Hooks.Valid(t.hooks) && name in t.extensions && !t.extensions[name].active
    requires Used(t, load, name).Some? && d in Deps(t, load, name) && d !in t.extensions
    ensures !Enable(t, load, name, depth).ok
  {
    if Enable(t, load, name, depth).ok {
      EnableSucceeds(t, load, name, depth);
    }
  }

  /** A missing-dependency message names a dependency of the extension that
      is not installed, and its text contains that name. */
  lemma MissingDependencyMeans(t: Table, load: Loader, name: string, depth: nat)
    requires Hooks.Valid(t.hooks) && name in t.extensions && !t.extensions[name].active
    requires Used(t, load, name).Some?
    ensures var m := Enable(t, load, name, depth).message;
      m.MissingDependency? ==> m.dep in Deps(t, load, name) && m.dep !in t.extensions && Contains(Text(m), m.dep)
  {
    var ext := Used(t, load, name).value;
    var loaded := t.(instances := t.instances[name := ext]);
    EnableUnfolds(t, load, name, depth);
    if EnableDeps(loaded, load, name, ext.dependencies, 0, depth).ok {
      LoadedUnfolds(loaded, load, name, depth);
    } else {
      LoadedFailsUnfolds(loaded, load, name, depth);
      DepsMissingMeans(loaded, load, name, ext.dependencies, 0, depth);
      assert ext.dependencies[0..] == ext.dependencies;
    }
    var m := Enable(t, load, name, depth).message;
    if m.MissingDependency? {
      MissingDependencyNamesIt(m.dep);
    }
  }

  /** A first dependency that is not installed stops the enable before
      anything is activated, with a message naming it. */
  lemma EnableMissingDependency(t: Table, load: Loader, name: string, depth: nat)
    requires Hooks.Valid(t.hooks) && name in t.extensions && !t.extensions[name].active
    requires Used(t, load, name).Some? && Deps(t, load, name) != [] && Deps(t, load, name)[0] !in t.extensions
    ensures var r := Enable(t, load, name, depth);
      !r.ok && r.message == MissingDependency(Deps(t, load, name)[0]) && Contains(Text(r.message), Deps(t, load, name)[0]) &&
      r.table == t.(instances := t.instances[name := Used(t, load, name).value])
  {
    var ext := Used(t, load, name).value;
    var loaded := t.(instances := t.instances[name := ext]);
    EnableUnfolds(t, load, name, depth);
    assert EnableDeps(loaded, load, name, ext.dependencies, 0, depth) ==
           Attempt(false, MissingDependency(ext.dependencies[0]), loaded);
    MissingDependencyNamesIt(ext.dependencies[0]);
  }

  /** A dependency at position `j` that is not installed, after dependencies
      that are all active, fails the enable with a message naming it. */
  lemma EnableMissingDependencyAt(t: Table, load: Loader, name: string, depth: nat, j: nat)
    requires Hooks.Valid(t.hooks) && name in t.extensions && !t.extensions[name].active
    requires Used(t, load, name).Some? && j < |Deps(t, load, name)| && Deps(t, load, name)[j] !in t.extensions
    requires forall k :: 0 <= k < j ==> Deps(t, load, name)[k] in t.extensions && t.extensions[Deps(t, load, name)[k]].active
    ensures var r := Enable(t, load, name, depth);
      !r.ok && r.message == MissingDependency(Deps(t, load, name)[j]) && Contains(Text(r.message), Deps(t, load, name)[j])
  {
    var ext := Used(t, load, name).value;
    var loaded := t.(instances := t.instances[name := ext]);
    EnableUnfolds(t, load, name, depth);
    DepsMissingAt(loaded, load, name, ext.dependencies, 0, j, depth);
    LoadedFailsUnfolds(loaded, load, name, depth);
    MissingDependencyNamesIt(ext.dependencies[j]);
  }

  /** When the first dependency is inactive and enabling it one level
      deeper (`k`, one less than `depth`) fails, the enable fails with that
      failure wrapped in a message naming it, and keeps what the failed
      attempt left; in that table the extension's own entry is as `Settled`
      allows for its object. */
  lemma EnableDependencyFails(t: Table, load: Loader, name: string, depth: nat, k: nat)
    requires Hooks.Valid(t.hooks) && name in t.extensions && !t.extensions[name].active
    requires Used(t, load, name).Some? && depth == k + 1
    requires var deps := Deps(t, load, name); deps != [] && deps[0] in t.extensions && !t.extensions[deps[0]].active
    ensures var dep, loaded := Deps(t, load, name)[0], t.(instances := t.instances[name := Used(t, load, name).value]);
      var inner := Enable(loaded, load, dep, k);
      !inner.ok ==>
        Enable(t, load, name, depth) == Attempt(false, DependencyFailed(dep, inner.message), inner.table) &&
        Settled(t.extensions[name], inner.table.extensions[name], Used(t, load, name))
  {
    var ext := Used(t, load, name).value;
    var loaded := t.(instances := t.instances[name := ext]);
    var dep := ext.dependencies[0];
    if !Enable(loaded, load, dep, k).ok {
      EnableUnfolds(t, load, name, depth);
      DependencyStep(loaded, load, name, ext.dependencies, 0, depth, k);
      LoadedFailsUnfolds(loaded, load, name, depth);
      assert Used(loaded, load, name) == Used(t, load, name);
    }
  }

  /** An inactive first dependency that would need one more nested call
      than the stack allows fails the enable with Python's recursion error. */
  lemma EnableAtRecursionLimit(t: Table, load: Loader, name: string)
    requires Hooks.Valid(t.hooks) && name in t.extensions && !t.extensions[name].active
    requires Used(t, load, name).Some?
    requires var deps := Deps(t, load, name); deps != [] && deps[0] in t.extensions && !t.extensions[deps[0]].active
    ensures var r := Enable(t, load, name, 0);
      !r.ok && r.message == EnableError(RecursionLimit) &&
      r.table == t.(instances := t.instances[name := Used(t, load, name).value])
  {
    EnableUnfolds(t, load, name, 0);
  }

  /** The same for an inactive dependency at position `j` after dependencies
      that are all active. */
  lemma EnableAtRecursionLimitAt(t: Table, load: Loader, name: string, j: nat)
    requires Hooks.Valid(t.hooks) && name in t.extensions && !t.extensions[name].active
    requires Used(t, load, name).Some?
    requires var deps := Deps(t, load, name);
      j < |deps| && deps[j] in t.extensions && !t.extensions[deps[j]].active &&
      forall i :: 0 <= i < j ==> deps[i] in t.extensions && t.extensions[deps[i]].active
    ensures var r := Enable(t, load, name, 0);
      !r.ok && r.message == EnableError(RecursionLimit)
  {
    var ext := Used(t, load, name).value;
    var loaded := t.(instances := t.instances[name := ext]);
    EnableUnfolds(t, load, name, 0);
    DepsLimitAt(loaded, load, name, ext.dependencies, 0, j, 0);
    LoadedFailsUnfolds(loaded, load, name, 0);
  }

  /** An extension whose object does not activate is never enabled: the
      enable fails and the entry stays inactive, either as it was or with
      the error its object raised. */
  lemma EnableFailsInactive(t: Table, load: Loader, name: string, depth: nat)
    requires Hooks.Valid(t.hooks) && name in t.extensions && !t.extensions[name].active
    requires Used(t, load, name).Some? && !Activates(Used(t, load, name).value)
    ensures var r, ext := Enable(t, load, name, depth), Used(t, load, name).value;
      !r.ok && !r.table.extensions[name].active &&
      (r.table.extensions[name] == t.extensions[name] ||
       r.table.extensions[name] == t.extensions[name].(error := RaisedBy(ext)))
  {
    if Enable(t, load, name, depth).ok {
      EnableSucceeds(t, load, name, depth);
    }
  }

  /** Once the dependencies are all enabled, an object that does not
      activate fails the enable with its activation's message, and a raise
      records the raised message as the entry's error. */
  lemma EnableActivationFails(t: Table, load: Loader, name: string, depth: nat)
    requires Hooks.Valid(t.hooks) && name in t.extensions && !t.extensions[name].active
    requires Used(t, load, name).Some? && !Activates(Used(t, load, name).value)
    requires var ext := Used(t, load, name).value;
      EnableDeps(t.(instances := t.instances[name := ext]), load, name, ext.dependencies, 0, depth).ok
    ensures var r, ext := Enable(t, load, name, depth), Used(t, load, name).value;
      !r.ok && r.message == FailureMessage(name, ext) &&
      r.table.extensions[name] == AfterFailure(t.extensions[name], ext)
  {
    var ext := Used(t, load, name).value;
    var loaded := t.(instances := t.instances[name := ext]);
    EnableUnfolds(t, load, name, depth);
    LoadedUnfolds(loaded, load, name, depth);
    var deps := EnableDeps(loaded, load, name, ext.dependencies, 0, depth);
    assert Used(loaded, load, name) == Some(ext);
    assert Settled(t.extensions[name], deps.table.extensions[name], Some(ext));
  }
}
