/**
 * The hook system (extension_system/hooks.py): named hooks, each with an
 * ordered, duplicate-free list of callbacks that `execute_hook` threads a
 * value through, skipping callbacks that raise.
 */
module Hooks {
  import opened Wrappers
  import opened Values
  import opened Base

  /** A registered callable. A bound method is identified by the name of
      the extension that owns it and the method's name, so two objects of
      the same extension count as one owner; an attribute value that is not
      a method is registered as it is and raises when called. */
  datatype Callback = BoundMethod(owner: string, methodName: string) | Function(id: string) | NonCallable(value: Value)

  /** What calling a callback with a value does. */
  datatype CallResult = Returned(value: Value) | Raised(message: string)

  /** The module-level `_hook_registry` and `_registered_hooks`. */
  datatype HookState = HookState(callbacks: map<string, seq<Callback>>, registered: set<string>)

  predicate NoDuplicates<T(==)>(s: seq<T>) {
    forall i, j :: 0 <= i < j < |s| ==> s[i] != s[j]
  }

  /** Every registered hook has a list, and no list holds a callback twice. */
  predicate Valid(h: HookState) {
    h.registered == h.callbacks.Keys &&
    forall n :: n in h.callbacks ==> NoDuplicates(h.callbacks[n])
  }

  /** The hooks registered when the module is imported. */
  const DefaultHooks: seq<string> := ["ui_init", "model_before_generate", "model_after_generate",
    "chat_pre_process", "chat_post_process", "extension_loaded", "extension_unloaded"]

  const Empty: HookState := HookState(map[], {})

  /** `register_hook`: a new hook gets an empty list; a known one is left alone. */
  function WithHook(h: HookState, name: string): (r: HookState)
    ensures name in r.registered
    ensures Valid(h) ==> name in r.callbacks && r.callbacks == if name in h.callbacks then h.callbacks else h.callbacks[name := []]
    ensures name in h.registered ==> r == h
    ensures Valid(h) ==> Valid(r)
  {
    if name in h.registered then h
    else
      var r := HookState(h.callbacks[name := []], h.registered + {name});
      assert Valid(h) ==> forall n :: n in r.callbacks ==> NoDuplicates(r.callbacks[n]) by {
        if Valid(h) {
          forall n | n in r.callbacks ensures NoDuplicates(r.callbacks[n]) {
            if n != name { assert r.callbacks[n] == h.callbacks[n]; }
          }
        }
      }
      r
  }

  function RegisterAll(h: HookState, names: seq<string>): (r: HookState)
    ensures Valid(h) ==> Valid(r)
    decreases |names|
  {
    if names == [] then h else RegisterAll(WithHook(h, names[0]), names[1..])
  }

  /** `register_callback`: registers the hook if needed, then appends the
      callback unless the hook's list already holds it. */
  function WithCallback(h: HookState, name: string, cb: Callback): (r: HookState)
    requires Valid(h)
    ensures Valid(r)
    ensures name in r.callbacks && cb in r.callbacks[name]
    ensures r.registered == h.registered + {name}
    ensures forall n :: n in h.callbacks && n != name ==> r.callbacks[n] == h.callbacks[n]
    ensures name in h.callbacks && cb in h.callbacks[name] ==> r == h
    ensures name in h.callbacks && cb !in h.callbacks[name] ==> r.callbacks[name] == h.callbacks[name] + [cb]
    ensures name !in h.callbacks ==> r.callbacks[name] == [cb]
  {
    var g := WithHook(h, name);
    if cb in g.callbacks[name] then g
    else HookState(g.callbacks[name := g.callbacks[name] + [cb]], g.registered)
  }

  /** Calling a callback: a non-callable value raises `TypeError`. */
  function Call(run: (Callback, Value) -> CallResult, cb: Callback, data: Value): CallResult {
    if cb.NonCallable? then Raised("object is not callable") else run(cb, data)
  }

  /** One step of `execute_hook`'s loop: a returned value replaces the
      running result; a raise is logged and the result is kept. */
  function Step(run: (Callback, Value) -> CallResult, cb: Callback, data: Value): Value {
    match Call(run, cb, data)
    case Returned(v) => v
    case Raised(_) => data
  }

  /** The value after running `cbs` in order, starting from `data`. */
  function Thread(run: (Callback, Value) -> CallResult, cbs: seq<Callback>, data: Value): Value
    decreases |cbs|
  {
    if cbs == [] then data
    else Step(run, cbs[|cbs| - 1], Thread(run, cbs[..|cbs| - 1], data))
  }

  /** `execute_hook`: an unregistered hook, or one without callbacks,
      returns `data` unchanged. */
  function Execute(run: (Callback, Value) -> CallResult, h: HookState, name: string, data: Value): (r: Value)
    requires Valid(h)
    ensures name !in h.registered ==> r == data
    ensures name in h.registered && h.callbacks[name] == [] ==> r == data
  {
    if name !in h.registered then data else Thread(run, h.callbacks[name], data)
  }

  /** `get_callbacks_for_hook`: a copy of the list; empty for an unknown hook. */
  function CallbacksFor(h: HookState, name: string): (r: seq<Callback>)
    requires Valid(h)
    ensures name !in h.registered ==> r == []
    ensures name in h.registered ==> r == h.callbacks[name]
  {
    if name !in h.registered then [] else h.callbacks[name]
  }

  /** `clear_hook_callbacks`: empties a registered hook's list; the hook stays registered. */
  function ClearHook(h: HookState, name: string): (r: HookState)
    requires Valid(h)
    ensures Valid(r) && r.registered == h.registered
    ensures name in h.registered ==> CallbacksFor(r, name) == []
    ensures forall n :: n in h.registered && n != name ==> CallbacksFor(r, n) == CallbacksFor(h, n)
  {
    if name in h.registered then HookState(h.callbacks[name := []], h.registered) else h
  }

  /** The callable `getattr(instance, m, None)` yields when it is truthy. */
  function Lookup(inst: Instance, m: string): Option<Callback> {
    if m in inst.methods then Some(BoundMethod(inst.name, m))
    else if m in inst.attributes && Truthy(inst.attributes[m]) then Some(NonCallable(inst.attributes[m]))
    else None
  }

  /** The pairs of `_hooks` from index `i` on, registered in dict order. */
  function RegisterPairs(h: HookState, inst: Instance, pairs: seq<(string, string)>): (r: HookState)
    requires Valid(h)
    ensures Valid(r)
    decreases |pairs|
  {
    if pairs == [] then h
    else
      var (hookName, m) := pairs[0];
      var g := match Lookup(inst, m) case None => h case Some(cb) => WithCallback(h, hookName, cb);
      RegisterPairs(g, inst, pairs[1..])
  }

  /** `register_hooks_from_instance`: nothing happens without `_hooks`;
      names that do not resolve to a truthy attribute are skipped. */
  function RegisterFromInstance(h: HookState, inst: Instance): (r: HookState)
    requires Valid(h)
    ensures Valid(r)
    ensures inst.hookTable.None? ==> r == h
  {
    match inst.hookTable
    case None => h
    case Some(pairs) => RegisterPairs(h, inst, pairs)
  }

  /** Registering a list of hook names adds exactly those names; a new one
      starts with no callbacks and a known one keeps its callbacks. */
  lemma {:induction false} RegisterAllAdds(h: HookState, names: seq<string>)
    requires Valid(h)
    ensures RegisterAll(h, names).registered == h.registered + set n | n in names
    ensures forall n :: n in h.callbacks ==>
      n in RegisterAll(h, names).callbacks && RegisterAll(h, names).callbacks[n] == h.callbacks[n]
    ensures forall n :: n in names && n !in h.callbacks ==>
      n in RegisterAll(h, names).callbacks && RegisterAll(h, names).callbacks[n] == []
    decreases |names|
  {
    if names != [] {
      var g := WithHook(h, names[0]);
      RegisterAllAdds(g, names[1..]);
      assert (set n | n in names) == {names[0]} + set n | n in names[1..];
    }
  }

  /** The state once hooks.py has been imported. */
  lemma DefaultsRegistered()
    ensures Valid(RegisterAll(Empty, DefaultHooks))
    ensures RegisterAll(Empty, DefaultHooks).registered == set n | n in DefaultHooks
    ensures forall n :: n in DefaultHooks ==> RegisterAll(Empty, DefaultHooks).callbacks[n] == []
  {
    FromEmpty(DefaultHooks);
  }

  /** Registering `names` on an empty table gives each an empty list. */
  lemma FromEmpty(names: seq<string>)
    ensures Valid(RegisterAll(Empty, names))
    ensures RegisterAll(Empty, names).registered == set n | n in names
    ensures forall n :: n in names ==> RegisterAll(Empty, names).callbacks[n] == []
  {
    RegisterAllAdds(Empty, names);
  }

  /** Registering a callback twice is the same as registering it once. */
  lemma WithCallbackIdempotent(h: HookState, name: string, cb: Callback)
    requires Valid(h)
    ensures WithCallback(WithCallback(h, name, cb), name, cb) == WithCallback(h, name, cb)
  {
  }

  /** Running `a + b` is running `a`, then `b` on its result. */
  lemma {:induction false} ThreadAppend(run: (Callback, Value) -> CallResult, a: seq<Callback>, b: seq<Callback>, data: Value)
    ensures Thread(run, a + b, data) == Thread(run, b, Thread(run, a, data))
    decreases |b|
  {
    if b == [] {
      assert a + b == a;
    } else {
      var b' := b[..|b| - 1];
      assert (a + b)[..|a + b| - 1] == a + b';
      assert (a + b)[|a + b| - 1] == b[|b| - 1];
      ThreadAppend(run, a, b', data);
    }
  }

  /** A callback that raises on every input has no effect on the result,
      wherever it sits in the list. */
  lemma RaisingCallbackIgnored(run: (Callback, Value) -> CallResult, a: seq<Callback>, cb: Callback,
                               b: seq<Callback>, data: Value)
    requires forall v :: Call(run, cb, v).Raised?
    ensures Thread(run, a + [cb] + b, data) == Thread(run, a + b, data)
  {
    ThreadAppend(run, a + [cb], b, data);
    ThreadAppend(run, a, [cb], data);
    ThreadAppend(run, a, b, data);
    assert [cb][..0] == [];
  }

  /** Callbacks run in registration order: a new callback sees the result of
      all earlier ones. */
  lemma ExecuteAfterRegister(run: (Callback, Value) -> CallResult, h: HookState, name: string, cb: Callback, data: Value)
    requires Valid(h) && name in h.callbacks && cb !in h.callbacks[name]
    ensures Execute(run, WithCallback(h, name, cb), name, data) == Step(run, cb, Execute(run, h, name, data))
  {
    var r := WithCallback(h, name, cb);
    assert r.callbacks[name][..|r.callbacks[name]| - 1] == h.callbacks[name];
  }

  /** `register_callback` never removes or reorders what earlier calls registered. */
  lemma {:induction false} RegisterPairsGrows(h: HookState, inst: Instance, pairs: seq<(string, string)>, n: string)
    requires Valid(h) && n in h.callbacks
    ensures n in RegisterPairs(h, inst, pairs).callbacks
    ensures h.callbacks[n] <= RegisterPairs(h, inst, pairs).callbacks[n]
    decreases |pairs|
  {
    if pairs != [] {
      var (hookName, m) := pairs[0];
      var g := match Lookup(inst, m) case None => h case Some(cb) => WithCallback(h, hookName, cb);
      RegisterPairsGrows(g, inst, pairs[1..], n);
    }
  }

  /** After `register_hooks_from_instance`, every `_hooks` entry naming a
      method of the object has that bound method among its hook's callbacks. */
  lemma {:induction false} RegisterPairsRegisters(h: HookState, inst: Instance, pairs: seq<(string, string)>, k: nat)
    requires Valid(h) && k < |pairs| && pairs[k].1 in inst.methods
    ensures pairs[k].0 in RegisterPairs(h, inst, pairs).callbacks
    ensures BoundMethod(inst.name, pairs[k].1) in RegisterPairs(h, inst, pairs).callbacks[pairs[k].0]
    decreases |pairs|
  {
    var (hookName, m) := pairs[0];
    var g := match Lookup(inst, m) case None => h case Some(cb) => WithCallback(h, hookName, cb);
    if k == 0 {
      RegisterPairsGrows(g, inst, pairs[1..], hookName);
    } else {
      RegisterPairsRegisters(g, inst, pairs[1..], k - 1);
    }
  }

  /** `register_callback` adds only its hook and its callback. */
  lemma WithCallbackOnly(h: HookState, name: string, cb: Callback)
    requires Valid(h)
    ensures forall n :: n in WithCallback(h, name, cb).callbacks ==> n in h.callbacks || n == name
    ensures forall n, c :: n in WithCallback(h, name, cb).callbacks && c in WithCallback(h, name, cb).callbacks[n] ==>
      (n in h.callbacks && c in h.callbacks[n]) || (n == name && c == cb)
  {
  }

  /** The `_hooks` entries whose attribute resolves to `cb` on hook `n`. */
  predicate Contributes(inst: Instance, pairs: seq<(string, string)>, n: string, cb: Callback) {
    exists k :: 0 <= k < |pairs| && pairs[k].0 == n && Lookup(inst, pairs[k].1) == Some(cb)
  }

  /** Registration adds no other hook: every hook after
      `register_hooks_from_instance` was there before or is named by an
      entry of `_hooks` whose attribute resolves. */
  lemma {:induction false} RegisterPairsHooksOnly(h: HookState, inst: Instance, pairs: seq<(string, string)>)
    requires Valid(h)
    ensures forall n :: n in RegisterPairs(h, inst, pairs).callbacks ==>
      n in h.callbacks || exists k :: 0 <= k < |pairs| && pairs[k].0 == n && Lookup(inst, pairs[k].1).Some?
    decreases |pairs|
  {
    if pairs != [] {
      var (hookName, m) := pairs[0];
      var g := match Lookup(inst, m) case None => h case Some(cb) => WithCallback(h, hookName, cb);
      var rest := pairs[1..];
      if Lookup(inst, m).Some? { WithCallbackOnly(h, hookName, Lookup(inst, m).value); }
      RegisterPairsHooksOnly(g, inst, rest);
      forall n | n in RegisterPairs(g, inst, rest).callbacks && n !in h.callbacks
        ensures exists k :: 0 <= k < |pairs| && pairs[k].0 == n && Lookup(inst, pairs[k].1).Some?
      {
        if n in g.callbacks {
          assert pairs[0].0 == n;
        } else {
          var k :| 0 <= k < |rest| && rest[k].0 == n && Lookup(inst, rest[k].1).Some?;
          assert pairs[k + 1] == rest[k];
        }
      }
    }
  }

  /** Registration adds no other callback: every callback on a hook after
      `register_hooks_from_instance` was on it before or is what an entry of
      `_hooks` for that hook resolves to; an entry that does not resolve is
      skipped. */
  lemma {:induction false} RegisterPairsOnly(h: HookState, inst: Instance, pairs: seq<(string, string)>)
    requires Valid(h)
    ensures forall n, cb :: n in RegisterPairs(h, inst, pairs).callbacks && cb in RegisterPairs(h, inst, pairs).callbacks[n] ==>
      (n in h.callbacks && cb in h.callbacks[n]) || Contributes(inst, pairs, n, cb)
    decreases |pairs|
  {
    if pairs != [] {
      var (hookName, m) := pairs[0];
      var g := match Lookup(inst, m) case None => h case Some(cb) => WithCallback(h, hookName, cb);
      var rest := pairs[1..];
      if Lookup(inst, m).Some? { WithCallbackOnly(h, hookName, Lookup(inst, m).value); }
      RegisterPairsOnly(g, inst, rest);
      var r := RegisterPairs(g, inst, rest);
      forall n, cb | n in r.callbacks && cb in r.callbacks[n] && !(n in h.callbacks && cb in h.callbacks[n])
        ensures Contributes(inst, pairs, n, cb)
      {
        if n in g.callbacks && cb in g.callbacks[n] {
          assert pairs[0].0 == n && Lookup(inst, pairs[0].1) == Some(cb);
        } else {
          var k :| 0 <= k < |rest| && rest[k].0 == n && Lookup(inst, rest[k].1) == Some(cb);
          assert pairs[k + 1] == rest[k];
        }
      }
    }
  }

  /** `register_hooks_from_instance` adds only what its `_hooks` entries
      resolve to, and nothing at all without `_hooks`. */
  lemma RegisterFromInstanceOnly(h: HookState, inst: Instance)
    requires Valid(h)
    ensures forall n, cb :: n in RegisterFromInstance(h, inst).callbacks && cb in RegisterFromInstance(h, inst).callbacks[n] ==>
      (n in h.callbacks && cb in h.callbacks[n]) ||
      (inst.hookTable.Some? && Contributes(inst, inst.hookTable.value, n, cb))
  {
    if inst.hookTable.Some? {
      RegisterPairsOnly(h, inst, inst.hookTable.value);
    }
  }

  /** `register_hook` on each name in turn. */
  method RegisterHooks(h: HookState, names: seq<string>) returns (r: HookState)
    ensures r == RegisterAll(h, names)
  {
    r := h;
    var i := 0;
    while i < |names|
      invariant 0 <= i <= |names|
      invariant RegisterAll(r, names[i..]) == RegisterAll(h, names)
    {
      assert names[i..][1..] == names[i + 1..];
      r := WithHook(r, names[i]);
      i := i + 1;
    }
    assert names[i..] == [];
  }

  /** The hook registry as the global object hooks.py keeps. */
  class HookTable {
    var callbacks: map<string, seq<Callback>>
    var registered: set<string>

    function State(): HookState
      reads this
    {
      HookState(callbacks, registered)
    }

    /** The registry right after import: the seven default hooks, no callbacks. */
    constructor ()
      ensures State() == RegisterAll(Empty, DefaultHooks)
      ensures Valid(State())
    {
      var h := RegisterHooks(Empty, DefaultHooks);
      callbacks, registered := h.callbacks, h.registered;
    }

    method RegisterHook(name: string)
      requires Valid(State())
      modifies this
      ensures State() == WithHook(old(State()), name)
      ensures Valid(State())
    {
      if name !in registered {
        registered := registered + {name};
        callbacks := callbacks[name := []];
      }
    }

    method RegisterCallback(name: string, cb: Callback)
      requires Valid(State())
      modifies this
      ensures State() == WithCallback(old(State()), name, cb)
      ensures Valid(State())
    {
      if name !in registered {
        RegisterHook(name);
      }
      if cb !in callbacks[name] {
        callbacks := callbacks[name := callbacks[name] + [cb]];
      }
    }

    /** `execute_hook`: runs the callbacks in order on the running result. */
    method ExecuteHook(run: (Callback, Value) -> CallResult, name: string, data: Value) returns (result: Value)
      requires Valid(State())
      ensures result == Execute(run, State(), name, data)
    {
      if name !in registered {
        return data;
      }
      var cbs := callbacks[name];
      result := data;
      var i := 0;
      while i < |cbs|
        invariant 0 <= i <= |cbs|
        invariant result == Thread(run, cbs[..i], data)
      {
        assert cbs[..i + 1][..i] == cbs[..i];
        var outcome := Call(run, cbs[i], result);
        if outcome.Returned? {
          result := outcome.value;
        }
        i := i + 1;
      }
      assert cbs[..i] == cbs;
    }

    /** `get_registered_hooks`. */
    method RegisteredHooks() returns (r: set<string>)
      ensures r == registered
    {
      r := registered;
    }

    method CallbacksForHook(name: string) returns (r: seq<Callback>)
      requires Valid(State())
      ensures r == CallbacksFor(State(), name)
    {
      if name !in registered {
        return [];
      }
      r := callbacks[name];
    }

    method ClearHookCallbacks(name: string)
      requires Valid(State())
      modifies this
      ensures State() == ClearHook(old(State()), name)
    {
      if name in registered {
        callbacks := callbacks[name := []];
      }
    }

    /** `clear_all_hooks`: even the default hooks are gone afterwards. */
    method ClearAllHooks()
      modifies this
      ensures State() == Empty
    {
      callbacks, registered := map[], {};
    }

    method RegisterHooksFromInstance(inst: Instance)
      requires Valid(State())
      modifies this
      ensures State() == RegisterFromInstance(old(State()), inst)
      ensures Valid(State())
    {
      if inst.hookTable.None? {
        return;
      }
      var pairs := inst.hookTable.value;
      var i := 0;
      while i < |pairs|
        invariant 0 <= i <= |pairs|
        invariant Valid(State())
        invariant RegisterPairs(State(), inst, pairs[i..]) == RegisterFromInstance(old(State()), inst)
      {
        var (hookName, m) := pairs[i];
        assert pairs[i..][1..] == pairs[i + 1..];
        var cb := Lookup(inst, m);
        if cb.Some? {
          RegisterCallback(hookName, cb.value);
        }
        i := i + 1;
      }
    }
  }
}
