/**
 * The extension contract (extension_system/base.py): what a live extension
 * object exposes to the registry, the five typed base classes, and the
 * `settings` property that merges annotated attributes with `@setting` records.
 */
module Base {
  import opened Wrappers
  import opened Values
  import opened Decorators

  /** What one call of `initialize`, `activate` or `deactivate` does:
      return a true value, return a false value, or raise with a message. */
  datatype Outcome = Succeeds | Fails | Raises(message: string)

  /** A UI component renderer: not callable, returning a value, or raising. */
  datatype Renderer = NotCallable | Renders(result: Value) | RenderRaises(message: string)

  /** The two UI accessors: mount point -> component ids (in dict order) and
      component id -> renderer. */
  datatype UiParts = UiParts(mountPoints: seq<(string, seq<string>)>, components: map<string, Renderer>)

  /** A live extension object, as far as the core observes it. */
  datatype Instance = Instance(
    name: string,
    version: string,
    description: string,
    author: string,
    kind: string,                        // the `type` property
    dependencies: seq<string>,
    settings: map<string, Value>,        // the `settings` property
    onInitialize: Outcome,
    onActivate: Outcome,
    onDeactivate: Outcome,
    hookTable: Option<seq<(string, string)>>,  // `_hooks`: hook name -> method name
    methods: set<string>,                // attribute names that resolve to a (truthy) method
    attributes: map<string, Value>,      // attributes `hasattr` finds and `setattr` may assign
    ui: Option<UiParts>)                 // present when the object has `mount_points` and `components`

  /** The six extension classes of base.py. */
  datatype ExtensionClass = Generic | UI | API | Model | Tool | Theme

  /** The `type` property each class reports. */
  function TypeOf(c: ExtensionClass): string {
    match c
    case Generic => "generic"
    case UI => "ui"
    case API => "api"
    case Model => "model"
    case Tool => "tool"
    case Theme => "theme"
  }

  /** `get_extension_class`: the class for a type string, `Extension` for any other string. */
  function GetExtensionClass(t: string): (c: ExtensionClass)
    ensures TypeOf(c) == t || c == Generic
    ensures c == Generic && t != "generic" ==> forall d :: TypeOf(d) != t
  {
    if t == "ui" then UI
    else if t == "api" then API
    else if t == "model" then Model
    else if t == "tool" then Tool
    else if t == "theme" then Theme
    else Generic
  }

  /** Every class's type string maps back to that class. */
  lemma GetExtensionClassRoundTrip(c: ExtensionClass)
    ensures GetExtensionClass(TypeOf(c)) == c
  {
  }

  /** An extension defined by subclassing `c` and overriding only the four
      abstract identity properties (and, for a UI class, its components):
      the base defaults apply everywhere else. */
  function Define(c: ExtensionClass, name: string, version: string, description: string, author: string,
                  components: map<string, Renderer>): (r: Instance)
    ensures r.kind == TypeOf(c) && r.dependencies == []
    ensures r.onInitialize == r.onActivate == r.onDeactivate == Succeeds
    ensures c == UI <==> r.ui.Some?
  {
    Instance(name, version, description, author, TypeOf(c), [], map[],
             Succeeds, Succeeds, Succeeds, None, {}, map[],
             if c == UI then Some(UiParts([], components)) else None)
  }

  /** The settings entry derived from an attribute with value `v`. */
  function AttributeSetting(name: string, v: Value): Value {
    VDict(map[
      "name" := VStr(name),
      "default" := v,
      "value" := v,
      "type" := VStr(InferredType(v)),
      "description" := VStr("Setting for " + name)])
  }

  /** `getattr(self, name, None)`. */
  function GetAttr(attrs: map<string, Value>, name: string): Value {
    if name in attrs then attrs[name] else VNone
  }

  predicate Public(name: string) {
    name == [] || name[0] != '_'
  }

  /** The annotation names of all classes of the MRO, in order. */
  function Flatten(mro: seq<seq<string>>): seq<string> {
    if mro == [] then [] else Flatten(mro[..|mro| - 1]) + mro[|mro| - 1]
  }

  /** `name` is a public annotation of some class of the MRO. */
  predicate Annotated(mro: seq<seq<string>>, name: string) {
    Public(name) && name in Flatten(mro)
  }

  /** The last `_settings` record named `name`, which wins the merge. */
  function LastRecord(records: seq<SettingInfo>, name: string): (r: Option<SettingInfo>)
    ensures r.Some? ==> r.value.name == name && r.value in records
    ensures r.None? <==> forall k :: 0 <= k < |records| ==> records[k].name != name
  {
    if records == [] then None
    else if records[|records| - 1].name == name then Some(records[|records| - 1])
    else LastRecord(records[..|records| - 1], name)
  }

  /**
   * The `settings` property. `mro` lists each class's annotation names in
   * MRO order, `attrs` is what `getattr` finds, `decorated` is the class's
   * `_settings` list (None when absent). Every public annotation gives an
   * attribute-derived entry; a `@setting` record of the same name replaces
   * it, and among records of one name the last one wins.
   */
  method SettingsProperty(mro: seq<seq<string>>, attrs: map<string, Value>, decorated: Option<seq<SettingInfo>>)
    returns (r: map<string, Value>)
    ensures forall n :: n in r <==>
      (Annotated(mro, n) || (decorated.Some? && LastRecord(decorated.value, n).Some?))
    ensures forall n :: n in r && decorated.Some? && LastRecord(decorated.value, n).Some? ==>
      r[n] == ToValue(LastRecord(decorated.value, n).value)
    ensures forall n :: n in r && (decorated.None? || LastRecord(decorated.value, n).None?) ==>
      r[n] == AttributeSetting(n, GetAttr(attrs, n))
  {
    r := AnnotationSettings(mro, attrs);
    if decorated.Some? {
      OverlayLastWins(r, decorated.value);
      r := ApplyRecords(r, decorated.value);
    }
  }

  /** The `@setting` half of the `settings` property: each record, in order,
      overwrites the entry of its name. */
  function Overlay(base: map<string, Value>, records: seq<SettingInfo>): map<string, Value> {
    if records == [] then base
    else
      var last := records[|records| - 1];
      Overlay(base, records[..|records| - 1])[last.name := ToValue(last)]
  }

  /** After the overlay the last record of a name gives its entry, and the
      names no record mentions keep theirs. */
  lemma {:induction false} OverlayLastWins(base: map<string, Value>, records: seq<SettingInfo>)
    ensures var r := Overlay(base, records);
      (forall n :: n in r <==> n in base || LastRecord(records, n).Some?) &&
      (forall n :: LastRecord(records, n).Some? ==> n in r && r[n] == ToValue(LastRecord(records, n).value)) &&
      (forall n :: n in base && LastRecord(records, n).None? ==> r[n] == base[n])
  {
    if records != [] {
      OverlayLastWins(base, records[..|records| - 1]);
    }
  }

  /** The records loop of the `settings` property. */
  method ApplyRecords(base: map<string, Value>, records: seq<SettingInfo>) returns (r: map<string, Value>)
    ensures r == Overlay(base, records)
  {
    r := base;
    var k := 0;
    while k < |records|
      invariant 0 <= k <= |records|
      invariant r == Overlay(base, records[..k])
    {
      assert records[..k + 1][..k] == records[..k];
      r := r[records[k].name := ToValue(records[k])];
      k := k + 1;
    }
    assert records[..|records|] == records;
  }

  /** The annotation half of the `settings` property: the nested loop over the MRO. */
  method AnnotationSettings(mro: seq<seq<string>>, attrs: map<string, Value>) returns (r: map<string, Value>)
    ensures forall n :: n in r <==> Annotated(mro, n)
    ensures forall n :: n in r ==> r[n] == AttributeSetting(n, GetAttr(attrs, n))
  {
    r := map[];
    var i := 0;
    while i < |mro|
      invariant 0 <= i <= |mro|
      invariant forall n :: n in r <==> Public(n) && n in Flatten(mro[..i])
      invariant forall n :: n in r ==> r[n] == AttributeSetting(n, GetAttr(attrs, n))
    {
      assert mro[..i + 1][..i] == mro[..i];
      var j := 0;
      while j < |mro[i]|
        invariant 0 <= j <= |mro[i]|
        invariant forall n :: n in r <==> Public(n) && n in Flatten(mro[..i]) + mro[i][..j]
        invariant forall n :: n in r ==> r[n] == AttributeSetting(n, GetAttr(attrs, n))
      {
        assert mro[i][..j + 1] == mro[i][..j] + [mro[i][j]];
        var name := mro[i][j];
        if Public(name) {
          r := r[name := AttributeSetting(name, GetAttr(attrs, name))];
        }
        j := j + 1;
      }
      assert mro[i][..j] == mro[i];
      i := i + 1;
    }
    assert mro[..i] == mro;
  }
}
