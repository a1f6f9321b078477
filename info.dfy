/**
 * `ExtensionInfo` (extension_system/registry.py): the descriptor the registry
 * keeps per extension and persists in `registry.json`, its dictionary form,
 * and the two ways of making one.
 */
module RegistryInfo {
  import opened Wrappers
  import opened Values
  import opened Base

  /** One registry entry. Timestamps are the ISO strings `datetime.now()`
      produced; `error` is the text of the last exception, if any. */
  datatype Info = Info(
    name: string,
    version: string,
    description: string,
    author: string,
    kind: string,                      // the `type` field
    path: Option<string>,
    active: bool,
    dependencies: seq<string>,
    settings: map<string, Value>,
    installDate: string,
    updateDate: string,
    error: Option<string>)

  /** The JSON value of an optional string: `None` becomes `null`. */
  function OptionalValue(o: Option<string>): Value {
    match o
    case None => VNone
    case Some(s) => VStr(s)
  }

  function StrValues(xs: seq<string>): (r: seq<Value>)
    ensures |r| == |xs|
    ensures forall k :: 0 <= k < |xs| ==> r[k] == VStr(xs[k])
  {
    if xs == [] then [] else [VStr(xs[0])] + StrValues(xs[1..])
  }

  /** `to_dict`: the twelve fields under their Python names. */
  function ToDict(info: Info): (r: Value)
    ensures r.VDict?
  {
    VDict(map[
      "name" := VStr(info.name),
      "version" := VStr(info.version),
      "description" := VStr(info.description),
      "author" := VStr(info.author),
      "type" := VStr(info.kind),
      "path" := OptionalValue(info.path),
      "active" := VBool(info.active),
      "dependencies" := VList(StrValues(info.dependencies)),
      "settings" := VDict(info.settings),
      "install_date" := VStr(info.installDate),
      "update_date" := VStr(info.updateDate),
      "error" := OptionalValue(info.error)])
  }

  // ------------------------------------------------------------ reading back

  /** The strings of a list of string values; None when an item is not a string. */
  function Strs(vs: seq<Value>): (r: Option<seq<string>>)
    ensures r.Some? ==> |r.value| == |vs| && forall k :: 0 <= k < |vs| ==> vs[k] == VStr(r.value[k])
  {
    if vs == [] then Some([])
    else if !vs[0].VStr? then None
    else match Strs(vs[1..])
      case None => None
      case Some(rest) => Some([vs[0].s] + rest)
  }

  /** `data[key]` for a key that must be present and hold a string. */
  function Required(d: map<string, Value>, key: string): Option<string> {
    if key in d && d[key].VStr? then Some(d[key].s) else None
  }

  /** `data.get(key, default)` for a string field. */
  function StrOr(d: map<string, Value>, key: string, default: string): Option<string> {
    if key !in d then Some(default) else if d[key].VStr? then Some(d[key].s) else None
  }

  /** `data.get(key)` for a field holding a string or `null`. */
  function OptionalStr(d: map<string, Value>, key: string): Option<Option<string>> {
    if key !in d || d[key] == VNone then Some(None)
    else if d[key].VStr? then Some(Some(d[key].s))
    else None
  }

  /** `data.get("active", False)`. */
  function ActiveField(d: map<string, Value>): Option<bool> {
    if "active" !in d then Some(false) else if d["active"].VBool? then Some(d["active"].b) else None
  }

  /** `data.get("dependencies", [])`, then `or []` in the constructor. */
  function DependenciesField(d: map<string, Value>): Option<seq<string>> {
    if "dependencies" !in d || !Truthy(d["dependencies"]) then Some([])
    else if d["dependencies"].VList? then Strs(d["dependencies"].items)
    else None
  }

  /** `data.get("settings", {})`, then `or {}` in the constructor. */
  function SettingsField(d: map<string, Value>): Option<map<string, Value>> {
    if "settings" !in d || !Truthy(d["settings"]) then Some(map[])
    else if d["settings"].VDict? then Some(d["settings"].entries)
    else None
  }

  /** `from_dict`. `now` is the constructor's `datetime.now()`, used when the
      dates are absent. None when a required key is missing (the source raises
      `KeyError`) or a field does not have the type `to_dict` writes. */
  function FromDict(data: Value, now: string): (r: Option<Info>)
    ensures r.Some? ==> data.VDict? && forall key :: key in ["name", "version", "description", "author"] ==>
      key in data.entries
    ensures r.Some? ==> VStr(r.value.name) == data.entries["name"]
  {
    if !data.VDict? then None else FromEntries(data.entries, now)
  }

  function FromEntries(d: map<string, Value>, now: string): (r: Option<Info>)
    ensures r.Some? ==> forall key :: key in ["name", "version", "description", "author"] ==> key in d
    ensures r.Some? ==> VStr(r.value.name) == d["name"]
  {
      var name, version, description, author := Required(d, "name"), Required(d, "version"),
                                                Required(d, "description"), Required(d, "author");
      var kind, path, active := StrOr(d, "type", "generic"), OptionalStr(d, "path"), ActiveField(d);
      var deps, settings := DependenciesField(d), SettingsField(d);
      var installed, updated, error := StrOr(d, "install_date", now), StrOr(d, "update_date", now),
                                       OptionalStr(d, "error");
      if name.None? || version.None? || description.None? || author.None? || kind.None? || path.None? ||
         active.None? || deps.None? || settings.None? || installed.None? || updated.None? || error.None?
      then None
      else Some(Info(name.value, version.value, description.value, author.value, kind.value, path.value,
                     active.value, deps.value, settings.value, installed.value, updated.value, error.value))
  }

  lemma {:induction false} StrsOfStrValues(xs: seq<string>)
    ensures Strs(StrValues(xs)) == Some(xs)
  {
    if xs != [] {
      assert StrValues(xs)[0] == VStr(xs[0]);
      assert StrValues(xs)[1..] == StrValues(xs[1..]);
      StrsOfStrValues(xs[1..]);
      assert [xs[0]] + xs[1..] == xs;
    }
  }

  /** Each field of `to_dict`, read back by the accessor `from_dict` uses for
      it (four lemmas, one per group of fields). */
  lemma ToDictIdentity(info: Info)
    ensures var d := ToDict(info).entries;
      Required(d, "name") == Some(info.name) && Required(d, "version") == Some(info.version) &&
      Required(d, "description") == Some(info.description) && Required(d, "author") == Some(info.author)
  {
  }

  lemma ToDictKind(info: Info)
    ensures var d := ToDict(info).entries;
      StrOr(d, "type", "generic") == Some(info.kind) && OptionalStr(d, "path") == Some(info.path) &&
      ActiveField(d) == Some(info.active)
  {
  }

  lemma ToDictDates(info: Info, now: string)
    ensures var d := ToDict(info).entries;
      StrOr(d, "install_date", now) == Some(info.installDate) && StrOr(d, "update_date", now) == Some(info.updateDate) &&
      OptionalStr(d, "error") == Some(info.error)
  {
  }

  lemma ToDictCollections(info: Info)
    ensures var d := ToDict(info).entries;
      DependenciesField(d) == Some(info.dependencies) && SettingsField(d) == Some(info.settings)
  {
    var d := ToDict(info).entries;
    StrsOfStrValues(info.dependencies);
    assert d["dependencies"] == VList(StrValues(info.dependencies));
    if info.dependencies == [] {
      assert StrValues(info.dependencies) == [];
    } else {
      assert StrValues(info.dependencies) != [];
    }
  }

  /** `from_dict(to_dict(info))` reproduces every field. */
  lemma FromDictToDict(info: Info, now: string)
    ensures FromDict(ToDict(info), now) == Some(info)
  {
    ToDictIdentity(info);
    ToDictKind(info);
    ToDictDates(info, now);
    ToDictCollections(info);
  }

  /** A record holding only the four required keys gets the documented
      defaults: type "generic", no path, inactive, no dependencies, no
      settings, both dates `now`, no error. */
  lemma FromDictDefaults(name: string, version: string, description: string, author: string, now: string)
    ensures FromDict(VDict(map["name" := VStr(name), "version" := VStr(version),
                               "description" := VStr(description), "author" := VStr(author)]), now)
         == Some(Info(name, version, description, author, "generic", None, false, [], map[], now, now, None))
  {
  }

  /** A record missing `name` is not loaded. */
  lemma FromDictNeedsName(data: map<string, Value>, now: string)
    requires "name" !in data
    ensures FromDict(VDict(data), now).None?
  {
  }

  // ------------------------------------------------------------ from a live extension

  /** One entry of `from_extension`'s settings: a dict is kept as it is, any
      other value is wrapped like an annotated attribute. */
  function Normalise(key: string, v: Value): (r: Value)
    ensures r.VDict?
    ensures v.VDict? ==> r == v
    ensures !v.VDict? ==> r == AttributeSetting(key, v)
  {
    if v.VDict? then v else AttributeSetting(key, v)
  }

  function NormalisedSettings(s: map<string, Value>): (r: map<string, Value>)
    ensures r.Keys == s.Keys
    ensures forall k :: k in s ==> r[k] == Normalise(k, s[k])
  {
    map k | k in s :: Normalise(k, s[k])
  }

  /** `from_extension`: identity fields from the object, normalised settings,
      inactive and without error, both dates `now`. */
  function FromExtension(ext: Instance, path: Option<string>, now: string): (r: Info)
    ensures r.name == ext.name && r.version == ext.version && r.description == ext.description
    ensures r.author == ext.author && r.kind == ext.kind && r.dependencies == ext.dependencies
    ensures r.path == path && !r.active && r.error.None?
    ensures r.settings == NormalisedSettings(ext.settings)
    ensures r.installDate == r.updateDate == now
  {
    Info(ext.name, ext.version, ext.description, ext.author, ext.kind, path, false,
         ext.dependencies, NormalisedSettings(ext.settings), now, now, None)
  }

  /** The settings loop of `from_extension`. */
  method NormaliseSettings(s: map<string, Value>) returns (r: map<string, Value>)
    ensures r == NormalisedSettings(s)
  {
    r := map[];
    var todo := s.Keys;
    while todo != {}
      invariant todo <= s.Keys
      invariant forall k :: k in r <==> k in s && k !in todo
      invariant forall k :: k in r ==> r[k] == Normalise(k, s[k])
      decreases |todo|
    {
      var k :| k in todo;
      r := r[k := Normalise(k, s[k])];
      todo := todo - {k};
    }
  }

  method MakeInfo(ext: Instance, path: Option<string>, now: string) returns (info: Info)
    ensures info == FromExtension(ext, path, now)
  {
    var settings := NormaliseSettings(ext.settings);
    info := Info(ext.name, ext.version, ext.description, ext.author, ext.kind, path, false,
                 ext.dependencies, settings, now, now, None);
  }
}
