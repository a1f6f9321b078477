/**
 * The decorators extension authors attach to their classes and methods
 * (extension_system/decorators.py): `setting` appends a settings record to
 * the class and gives the class a default attribute; `ui_component`,
 * `api_route`, `tool` and `hook` attach a metadata record to a method.
 */
module Decorators {
  import opened Wrappers
  import opened Values

  /** The arguments of one `@setting(...)` application. */
  datatype SettingSpec = SettingSpec(
    name: string,
    default: Value,
    typeArg: Option<string>,          // the name of `type_`, when given
    options: Option<seq<Value>>,
    description: string)

  /** One record of a class's `_settings` list. */
  datatype SettingInfo = SettingInfo(
    name: string,
    default: Value,
    value: Value,
    typeName: string,
    options: Option<seq<Value>>,
    description: string)

  /** The type string of a setting: the explicit type's name, else the type
      of a non-None default, else "str". */
  function SettingType(typeArg: Option<string>, default: Value): (r: string)
    ensures typeArg.None? ==> r == InferredType(default)
    ensures typeArg.Some? ==> r == typeArg.value
  {
    if typeArg.Some? then typeArg.value
    else if default != VNone then TypeName(default)
    else "str"
  }

  /** The record `@setting` appends. */
  function MakeSetting(spec: SettingSpec): (r: SettingInfo)
    ensures r.name == spec.name && r.value == r.default == spec.default
    ensures r.options == spec.options && r.description == spec.description
    ensures r.typeName == SettingType(spec.typeArg, spec.default)
  {
    SettingInfo(spec.name, spec.default, spec.default,
                SettingType(spec.typeArg, spec.default), spec.options, spec.description)
  }

  /** The record as the Python dict the settings property hands out. */
  function ToValue(r: SettingInfo): Value {
    VDict(map[
      "name" := VStr(r.name),
      "default" := r.default,
      "value" := r.value,
      "type" := VStr(r.typeName),
      "options" := (match r.options case None => VNone case Some(xs) => VList(xs)),
      "description" := VStr(r.description)])
  }

  /** The elements of `s` back to front. */
  function Reversed<T>(s: seq<T>): (r: seq<T>)
    ensures |r| == |s|
    ensures forall k :: 0 <= k < |s| ==> r[k] == s[|s| - 1 - k]
  {
    if s == [] then [] else Reversed(s[1..]) + [s[0]]
  }

  function Records(stack: seq<SettingSpec>): (r: seq<SettingInfo>)
    ensures |r| == |stack|
    ensures forall k :: 0 <= k < |stack| ==> r[k] == MakeSetting(stack[k])
  {
    if stack == [] then [] else [MakeSetting(stack[0])] + Records(stack[1..])
  }

  /** `setattr(cls, name, default)` unless `hasattr(cls, name)`. */
  function SetIfAbsent(attrs: map<string, Value>, name: string, default: Value): map<string, Value> {
    if name in attrs then attrs else attrs[name := default]
  }

  /** The class attributes after a stack of decorators written top to bottom
      as `stack`; Python applies the bottom one first. */
  function AttributesAfter(attrs: map<string, Value>, stack: seq<SettingSpec>): map<string, Value>
    decreases |stack|
  {
    if stack == [] then attrs
    else
      var last := stack[|stack| - 1];
      AttributesAfter(SetIfAbsent(attrs, last.name, last.default), stack[..|stack| - 1])
  }

  /** A class attribute the class already has is never overwritten, and a
      missing one gets the default of the decorator applied first (the
      bottom-most one naming it). */
  lemma {:induction false} AttributesAfterKeeps(attrs: map<string, Value>, stack: seq<SettingSpec>, n: string)
    ensures n in attrs ==> n in AttributesAfter(attrs, stack) && AttributesAfter(attrs, stack)[n] == attrs[n]
    ensures n !in attrs ==>
      (n in AttributesAfter(attrs, stack) <==> exists k :: 0 <= k < |stack| && stack[k].name == n)
    ensures n !in attrs && n in AttributesAfter(attrs, stack) ==>
      exists k :: 0 <= k < |stack| && stack[k].name == n && AttributesAfter(attrs, stack)[n] == stack[k].default &&
        forall j :: k < j < |stack| ==> stack[j].name != n
    decreases |stack|
  {
    if stack != [] {
      var last := stack[|stack| - 1];
      var front := stack[..|stack| - 1];
      AttributesAfterKeeps(SetIfAbsent(attrs, last.name, last.default), front, n);
      if n !in attrs && last.name == n {
        assert stack[|stack| - 1].name == n;
      }
      if n !in attrs && last.name != n {
        assert (exists k :: 0 <= k < |stack| && stack[k].name == n) <==>
               (exists k :: 0 <= k < |front| && front[k].name == n) by {
          forall k | 0 <= k < |stack| && stack[k].name == n ensures k < |front| && front[k].name == n { }
          forall k | 0 <= k < |front| && front[k].name == n ensures stack[k].name == n { }
        }
      }
    }
  }

  /** An extension class object as the decorators see it. */
  class ClassObject {
    /** The `_settings` list; None while the class has no such attribute. */
    var settings: Option<seq<SettingInfo>>
    /** Every attribute `hasattr(cls, ...)` finds, with its value. */
    var attributes: map<string, Value>

    constructor (attributes: map<string, Value>, settings: Option<seq<SettingInfo>>)
      ensures this.attributes == attributes && this.settings == settings
    {
      this.attributes := attributes;
      this.settings := settings;
    }

    /** One `@setting(...)` application. */
    method ApplySetting(spec: SettingSpec)
      modifies this
      ensures settings == Some(old(settings).GetOr([]) + [MakeSetting(spec)])
      ensures attributes == SetIfAbsent(old(attributes), spec.name, spec.default)
    {
      if settings.None? {
        settings := Some([]);
      }
      settings := Some(settings.value + [MakeSetting(spec)]);
      if spec.name !in attributes {
        attributes := attributes[spec.name := spec.default];
      }
    }

    /** A stack of `@setting` decorators written top to bottom as `stack`:
        exactly one record per decorator is appended, in reverse source order. */
    method Decorate(stack: seq<SettingSpec>)
      modifies this
      ensures stack != [] ==> settings == Some(old(settings).GetOr([]) + Reversed(Records(stack)))
      ensures stack == [] ==> settings == old(settings)
      ensures attributes == AttributesAfter(old(attributes), stack)
    {
      var i := |stack|;
      assert stack[..i] == stack;
      while i > 0
        invariant 0 <= i <= |stack|
        invariant i == |stack| ==> settings == old(settings)
        invariant i < |stack| ==> settings == Some(old(settings).GetOr([]) + Reversed(Records(stack[i..])))
        invariant AttributesAfter(old(attributes), stack) == AttributesAfter(attributes, stack[..i])
      {
        assert stack[..i][..i - 1] == stack[..i - 1];
        ghost var base: seq<SettingInfo> := old(settings).GetOr([]);
        ghost var m := MakeSetting(stack[i - 1]);
        ghost var done: seq<SettingInfo> := Reversed(Records(stack[i..]));
        assert i < |stack| ==> settings == Some(base + done);
        ApplySetting(stack[i - 1]);
        assert stack[i - 1..][1..] == stack[i..];
        assert Records(stack[i - 1..]) == [m] + Records(stack[i..]);
        assert Records(stack[i - 1..])[1..] == Records(stack[i..]);
        assert Reversed(Records(stack[i - 1..])) == done + [m];
        if i == |stack| {
          assert stack[i..] == [];
          assert done == [];
          assert settings == Some(base + [m]);
          assert base + done == base;
          assert settings == Some((base + done) + [m]);
        } else {
          assert settings == Some((base + done) + [m]);
        }
        assert base + (done + [m]) == (base + done) + [m];
        assert settings == Some(base + Reversed(Records(stack[i - 1..])));
        i := i - 1;
      }
      assert stack[..0] == [];
    }
  }

  /** `@ui_component` metadata: mount points default to no mount points. */
  datatype UiComponentMeta = UiComponentMeta(id: string, mountPoints: seq<string>)

  /** `@api_route` metadata. */
  datatype ApiRouteMeta = ApiRouteMeta(path: string, methods: seq<string>)

  function UiComponent(componentId: string, mountPoints: Option<seq<string>>): (r: UiComponentMeta)
    ensures r.id == componentId
    ensures mountPoints.Some? ==> r.mountPoints == mountPoints.value
    ensures mountPoints.None? ==> r.mountPoints == []
  {
    UiComponentMeta(componentId, if mountPoints.Some? && mountPoints.value != [] then mountPoints.value else [])
  }

  /** `methods or ["GET"]`: an absent or empty method list becomes ["GET"],
      so a route always has at least one method. */
  function ApiRoute(path: string, methods: Option<seq<string>>): (r: ApiRouteMeta)
    ensures r.path == path && r.methods != []
    ensures methods.Some? && methods.value != [] ==> r.methods == methods.value
    ensures methods.None? || methods.value == [] ==> r.methods == ["GET"]
  {
    ApiRouteMeta(path, if methods.Some? && methods.value != [] then methods.value else ["GET"])
  }
}
