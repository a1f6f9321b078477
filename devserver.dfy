/**
 * The `/mock-mountpoint` page of the development server (dev_server.py):
 * the components of every active UI extension are rendered and gathered by
 * mount point, and the page lays out four of those mount points.
 */
module DevServer {
  import opened Wrappers
  import opened Values
  import opened Base
  import opened RegistryInfo

  /** One rendered component: the `{"id", "extension", "html"}` dict. */
  datatype Entry = Entry(id: string, extension: string, html: Value)

  /** The `mount_points` dict: its keys in insertion order and each key's list. */
  datatype Table = Table(keys: seq<string>, lists: map<string, seq<Entry>>)

  /** The keys of the dict literal the handler starts from, in its order. */
  const Fixed: seq<string> := ["sidebar", "chat", "main", "footer"]

  /** The order in which the page shows its four mount points. */
  const PageOrder: seq<string> := ["sidebar", "main", "chat", "footer"]

  function Initial(): Table {
    Table(Fixed, map["sidebar" := [], "chat" := [], "main" := [], "footer" := []])
  }

  /** The key order lists each key of the dict exactly once. */
  ghost predicate Valid(t: Table) {
    (forall i, j :: 0 <= i < j < |t.keys| ==> t.keys[i] != t.keys[j]) &&
    (forall m :: m in t.lists <==> m in t.keys)
  }

  /** The list under `m`; empty when `m` is not a key. */
  function ListOf(t: Table, m: string): seq<Entry> {
    if m in t.lists then t.lists[m] else []
  }

  // ---------------------------------------------------------------------------
  // The collection loop, as folds
  // ---------------------------------------------------------------------------

  /** What component `id` of extension `ext` contributes: the id must name a
      component whose renderer is callable, does not raise and returns a dict
      holding "html". A raising renderer is logged and skipped. */
  function Rendered(ext: string, id: string, parts: UiParts): Option<Entry> {
    if id !in parts.components then None
    else match parts.components[id]
      case Renders(VDict(d)) => if "html" in d then Some(Entry(id, ext, d["html"])) else None
      case _ => None
  }

  /** The innermost loop: the component ids listed for one mount point. */
  function Components(t: Table, ext: string, mp: string, ids: seq<string>, parts: UiParts): Table
    requires mp in t.lists
    decreases |ids|
  {
    if ids == [] then t
    else
      var next := match Rendered(ext, ids[0], parts)
        case Some(e) => t.(lists := t.lists[mp := t.lists[mp] + [e]])
        case None => t;
      Components(next, ext, mp, ids[1..], parts)
  }

  /** `mount_points[mp] = []` for a mount point not seen before. */
  function AddPoint(t: Table, mp: string): Table {
    if mp in t.lists then t else Table(t.keys + [mp], t.lists[mp := []])
  }

  /** The middle loop: the mount points of one extension, in dict order. */
  function Points(t: Table, ext: string, points: seq<(string, seq<string>)>, parts: UiParts): Table
    decreases |points|
  {
    if points == [] then t
    else
      var mp := points[0].0;
      Points(Components(AddPoint(t, mp), ext, mp, points[0].1, parts), ext, points[1..], parts)
  }

  /** The UI parts an extension contributes: it must be active, have a live
      object, report type "ui" and have both `mount_points` and `components`. */
  function Contribution(info: Info, instances: map<string, Instance>): Option<UiParts> {
    if info.active && info.name in instances && instances[info.name].kind == "ui"
    then instances[info.name].ui
    else None
  }

  /** The outer loop, over the listing. */
  function Collect(t: Table, infos: seq<Info>, instances: map<string, Instance>): Table
    decreases |infos|
  {
    if infos == [] then t
    else
      var next := match Contribution(infos[0], instances)
        case Some(parts) => Points(t, infos[0].name, parts.mountPoints, parts)
        case None => t;
      Collect(next, infos[1..], instances)
  }

  /** The dict the handler has built when it renders the page. */
  function Gathered(infos: seq<Info>, instances: map<string, Instance>): Table {
    Collect(Initial(), infos, instances)
  }

  // ---------------------------------------------------------------------------
  // Reference definitions, one mount point at a time
  // ---------------------------------------------------------------------------

  /** The entries a component list yields, in list order. */
  function RenderAll(ext: string, ids: seq<string>, parts: UiParts): seq<Entry>
    decreases |ids|
  {
    if ids == [] then []
    else
      (match Rendered(ext, ids[0], parts) case Some(e) => [e] case None => [])
      + RenderAll(ext, ids[1..], parts)
  }

  /** The entries one extension yields for mount point `m`. */
  function PointEntries(m: string, ext: string, points: seq<(string, seq<string>)>, parts: UiParts): seq<Entry>
    decreases |points|
  {
    if points == [] then []
    else
      (if points[0].0 == m then RenderAll(ext, points[0].1, parts) else [])
      + PointEntries(m, ext, points[1..], parts)
  }

  /** The entries extension `info` yields for mount point `m`. */
  function ExtEntries(m: string, info: Info, instances: map<string, Instance>): seq<Entry> {
    match Contribution(info, instances)
    case None => []
    case Some(parts) => PointEntries(m, info.name, parts.mountPoints, parts)
  }

  /** The entries the listing yields for mount point `m`, extension by extension. */
  function EntriesFor(m: string, infos: seq<Info>, instances: map<string, Instance>): seq<Entry>
    decreases |infos|
  {
    if infos == [] then []
    else ExtEntries(m, infos[0], instances) + EntriesFor(m, infos[1..], instances)
  }

  /** The mount point names of one extension, in dict order. */
  function PointNames(points: seq<(string, seq<string>)>): seq<string>
    decreases |points|
  {
    if points == [] then [] else [points[0].0] + PointNames(points[1..])
  }

  /** The mount point names of every contributing extension of the listing. */
  function UsedPoints(infos: seq<Info>, instances: map<string, Instance>): seq<string>
    decreases |infos|
  {
    if infos == [] then []
    else
      (match Contribution(infos[0], instances) case Some(parts) => PointNames(parts.mountPoints) case None => [])
      + UsedPoints(infos[1..], instances)
  }

  // ---------------------------------------------------------------------------
  // What the folds compute
  // ---------------------------------------------------------------------------

  /** The component loop appends the rendered entries to `mp` and nothing else. */
  lemma {:induction false} ComponentsAppend(t: Table, ext: string, mp: string, ids: seq<string>, parts: UiParts)
    requires mp in t.lists
    ensures var r := Components(t, ext, mp, ids, parts);
      r.keys == t.keys && r.lists.Keys == t.lists.Keys &&
      forall m :: ListOf(r, m) == ListOf(t, m) + (if m == mp then RenderAll(ext, ids, parts) else [])
    decreases |ids|
  {
    if ids != [] {
      var next := match Rendered(ext, ids[0], parts)
        case Some(e) => t.(lists := t.lists[mp := t.lists[mp] + [e]])
        case None => t;
      ComponentsAppend(next, ext, mp, ids[1..], parts);
    }
  }

  /** The mount point loop appends each point's entries to that point's list. */
  lemma {:induction false} PointsAppend(t: Table, ext: string, points: seq<(string, seq<string>)>, parts: UiParts)
    ensures var r := Points(t, ext, points, parts);
      forall m :: ListOf(r, m) == ListOf(t, m) + PointEntries(m, ext, points, parts)
    decreases |points|
  {
    if points != [] {
      var mp := points[0].0;
      var a := AddPoint(t, mp);
      var next := Components(a, ext, mp, points[0].1, parts);
      ComponentsAppend(a, ext, mp, points[0].1, parts);
      assert forall m :: ListOf(a, m) == ListOf(t, m);
      PointsAppend(next, ext, points[1..], parts);
    }
  }

  /** Adding a mount point appends it to the keys when it is new. */
  lemma AddPointKeys(t: Table, mp: string)
    requires Valid(t)
    ensures var a := AddPoint(t, mp);
      Valid(a) && t.keys <= a.keys && mp in a.lists &&
      forall m :: m in a.lists <==> m in t.lists || m == mp
  {
    var a := AddPoint(t, mp);
    if mp !in t.lists {
      forall i, j | 0 <= i < j < |a.keys| ensures a.keys[i] != a.keys[j] {
        if j == |t.keys| {
          assert a.keys[i] == t.keys[i];
        }
      }
    }
  }

  /** The mount point loop adds each new point once, after the existing keys. */
  lemma {:induction false} PointsKeys(t: Table, ext: string, points: seq<(string, seq<string>)>, parts: UiParts)
    requires Valid(t)
    ensures var r := Points(t, ext, points, parts);
      Valid(r) && t.keys <= r.keys &&
      forall m :: m in r.lists <==> m in t.lists || m in PointNames(points)
    decreases |points|
  {
    if points != [] {
      var mp := points[0].0;
      var a := AddPoint(t, mp);
      AddPointKeys(t, mp);
      var c := Components(a, ext, mp, points[0].1, parts);
      ComponentsAppend(a, ext, mp, points[0].1, parts);
      assert Valid(c);
      PointsKeys(c, ext, points[1..], parts);
      var r := Points(c, ext, points[1..], parts);
      assert r == Points(t, ext, points, parts);
      assert PointNames(points) == [mp] + PointNames(points[1..]);
      assert t.keys <= r.keys by {
        assert a.keys <= r.keys;
      }
    }
  }

  /** Each mount point's list is its initial list followed by what every
      contributing extension yields for it, in listing order. */
  lemma {:induction false} CollectAppend(t: Table, infos: seq<Info>, instances: map<string, Instance>)
    ensures var r := Collect(t, infos, instances);
      forall m :: ListOf(r, m) == ListOf(t, m) + EntriesFor(m, infos, instances)
    decreases |infos|
  {
    if infos != [] {
      var next := match Contribution(infos[0], instances)
        case Some(parts) => Points(t, infos[0].name, parts.mountPoints, parts)
        case None => t;
      match Contribution(infos[0], instances) {
        case Some(parts) => PointsAppend(t, infos[0].name, parts.mountPoints, parts);
        case None =>
      }
      CollectAppend(next, infos[1..], instances);
    }
  }

  /** The keys only grow, at the end, without duplicates, and a key is added
      exactly for a mount point some contributing extension declares. */
  lemma {:induction false} CollectKeys(t: Table, infos: seq<Info>, instances: map<string, Instance>)
    requires Valid(t)
    ensures var r := Collect(t, infos, instances);
      Valid(r) && t.keys <= r.keys &&
      forall m :: m in r.lists <==> m in t.lists || m in UsedPoints(infos, instances)
    decreases |infos|
  {
    if infos != [] {
      var next := match Contribution(infos[0], instances)
        case Some(parts) => Points(t, infos[0].name, parts.mountPoints, parts)
        case None => t;
      match Contribution(infos[0], instances) {
        case Some(parts) => PointsKeys(t, infos[0].name, parts.mountPoints, parts);
        case None =>
      }
      CollectKeys(next, infos[1..], instances);
    }
  }

  /** The gathered dict starts with the four fixed keys; every further key is a
      mount point of a contributing extension; and each list holds exactly the
      entries the listing yields for it. */
  lemma GatheredShape(infos: seq<Info>, instances: map<string, Instance>)
    ensures var r := Gathered(infos, instances);
      Valid(r) && Fixed <= r.keys &&
      (forall m :: m in r.lists <==> m in Fixed || m in UsedPoints(infos, instances)) &&
      (forall m :: ListOf(r, m) == EntriesFor(m, infos, instances))
  {
    CollectKeys(Initial(), infos, instances);
    CollectAppend(Initial(), infos, instances);
    assert forall m :: ListOf(Initial(), m) == [];
  }

  // ---------------------------------------------------------------------------
  // Where an entry comes from
  // ---------------------------------------------------------------------------

  /** A rendered entry carries its extension's name and a listed id. */
  lemma {:induction false} RenderAllOrigin(ext: string, ids: seq<string>, parts: UiParts, e: Entry)
    ensures e in RenderAll(ext, ids, parts) <==>
      e.extension == ext && e.id in ids && Rendered(ext, e.id, parts) == Some(e)
    decreases |ids|
  {
    if ids != [] {
      RenderAllOrigin(ext, ids[1..], parts, e);
      assert ids == [ids[0]] + ids[1..];
    }
  }

  /** An entry for `m` comes from a component listed under `m`. */
  lemma {:induction false} PointEntriesOrigin(m: string, ext: string, points: seq<(string, seq<string>)>, parts: UiParts, e: Entry)
    ensures e in PointEntries(m, ext, points, parts) <==>
      exists j :: 0 <= j < |points| && points[j].0 == m && e in RenderAll(ext, points[j].1, parts)
    decreases |points|
  {
    if points != [] {
      PointEntriesOrigin(m, ext, points[1..], parts, e);
      if e in PointEntries(m, ext, points[1..], parts) {
        var j :| 0 <= j < |points[1..]| && points[1..][j].0 == m && e in RenderAll(ext, points[1..][j].1, parts);
        assert points[j + 1] == points[1..][j];
      }
      if exists j :: 0 <= j < |points| && points[j].0 == m && e in RenderAll(ext, points[j].1, parts) {
        var j :| 0 <= j < |points| && points[j].0 == m && e in RenderAll(ext, points[j].1, parts);
        if j > 0 {
          assert points[1..][j - 1] == points[j];
        }
      }
    }
  }

  /** An entry for `m` comes from some contributing extension of the listing. */
  lemma {:induction false} EntriesForOrigin(m: string, infos: seq<Info>, instances: map<string, Instance>, e: Entry)
    ensures e in EntriesFor(m, infos, instances) <==>
      exists k :: 0 <= k < |infos| && e in ExtEntries(m, infos[k], instances)
    decreases |infos|
  {
    if infos != [] {
      EntriesForOrigin(m, infos[1..], instances, e);
      if e in EntriesFor(m, infos[1..], instances) {
        var k :| 0 <= k < |infos[1..]| && e in ExtEntries(m, infos[1..][k], instances);
        assert infos[k + 1] == infos[1..][k];
      }
      if exists k :: 0 <= k < |infos| && e in ExtEntries(m, infos[k], instances) {
        var k :| 0 <= k < |infos| && e in ExtEntries(m, infos[k], instances);
        if k > 0 {
          assert infos[1..][k - 1] == infos[k];
        }
      }
    }
  }

  /** `e` is shown under `m` exactly when the listing holds an active UI
      extension with a live object that lists `e.id` under `m`, and rendering
      that component gives `e`. */
  lemma EntryOrigin(infos: seq<Info>, instances: map<string, Instance>, m: string, e: Entry)
    ensures e in ListOf(Gathered(infos, instances), m) <==>
      exists k, j :: 0 <= k < |infos| && infos[k].name == e.extension &&
        Contribution(infos[k], instances).Some? &&
        0 <= j < |Contribution(infos[k], instances).value.mountPoints| &&
        Contribution(infos[k], instances).value.mountPoints[j].0 == m &&
        e.id in Contribution(infos[k], instances).value.mountPoints[j].1 &&
        Rendered(e.extension, e.id, Contribution(infos[k], instances).value) == Some(e)
  {
    GatheredShape(infos, instances);
    EntriesForOrigin(m, infos, instances, e);
    if e in ListOf(Gathered(infos, instances), m) {
      var k :| 0 <= k < |infos| && e in ExtEntries(m, infos[k], instances);
      var parts := Contribution(infos[k], instances).value;
      PointEntriesOrigin(m, infos[k].name, parts.mountPoints, parts, e);
      var j :| 0 <= j < |parts.mountPoints| && parts.mountPoints[j].0 == m &&
        e in RenderAll(infos[k].name, parts.mountPoints[j].1, parts);
      RenderAllOrigin(infos[k].name, parts.mountPoints[j].1, parts, e);
    }
    if exists k, j :: 0 <= k < |infos| && infos[k].name == e.extension &&
        Contribution(infos[k], instances).Some? &&
        0 <= j < |Contribution(infos[k], instances).value.mountPoints| &&
        Contribution(infos[k], instances).value.mountPoints[j].0 == m &&
        e.id in Contribution(infos[k], instances).value.mountPoints[j].1 &&
        Rendered(e.extension, e.id, Contribution(infos[k], instances).value) == Some(e) {
      var k, j :| 0 <= k < |infos| && infos[k].name == e.extension &&
        Contribution(infos[k], instances).Some? &&
        0 <= j < |Contribution(infos[k], instances).value.mountPoints| &&
        Contribution(infos[k], instances).value.mountPoints[j].0 == m &&
        e.id in Contribution(infos[k], instances).value.mountPoints[j].1 &&
        Rendered(e.extension, e.id, Contribution(infos[k], instances).value) == Some(e);
      var parts := Contribution(infos[k], instances).value;
      RenderAllOrigin(infos[k].name, parts.mountPoints[j].1, parts, e);
      PointEntriesOrigin(m, infos[k].name, parts.mountPoints, parts, e);
    }
  }

  /** An inactive extension, one without a live object and one whose type is
      not "ui" contribute nothing anywhere. */
  lemma SkippedContributesNothing(info: Info, instances: map<string, Instance>, m: string)
    requires !info.active || info.name !in instances || instances[info.name].kind != "ui"
    ensures ExtEntries(m, info, instances) == []
  {
  }

  // ---------------------------------------------------------------------------
  // The page
  // ---------------------------------------------------------------------------

  /** `''.join(...)` of the html values; a value that is not a string makes
      the join raise, and the request fails. */
  function JoinHtml(entries: seq<Entry>): Option<string>
    decreases |entries|
  {
    if entries == [] then Some("")
    else match entries[0].html
      case VStr(s) => (match JoinHtml(entries[1..]) case Some(rest) => Some(s + rest) case None => None)
      case _ => None
  }

  /** The join succeeds exactly when every html value is a string, and it
      distributes over concatenation. */
  lemma {:induction false} JoinHtmlAppend(a: seq<Entry>, b: seq<Entry>)
    ensures JoinHtml(a + b).Some? <==> JoinHtml(a).Some? && JoinHtml(b).Some?
    ensures JoinHtml(a + b).Some? ==> JoinHtml(a + b).value == JoinHtml(a).value + JoinHtml(b).value
    decreases |a|
  {
    if a != [] {
      assert (a + b)[1..] == a[1..] + b;
      JoinHtmlAppend(a[1..], b);
    } else {
      assert a + b == b;
    }
  }

  /** The join fails exactly when some html value is not a string. */
  lemma {:induction false} JoinHtmlDefined(entries: seq<Entry>)
    ensures JoinHtml(entries).Some? <==> forall k :: 0 <= k < |entries| ==> entries[k].html.VStr?
    decreases |entries|
  {
    if entries != [] {
      JoinHtmlDefined(entries[1..]);
      assert forall k :: 1 <= k < |entries| ==> entries[k] == entries[1..][k - 1];
    }
  }

  /** The sections for the mount points `order`, each with its joined html. */
  function Sections(t: Table, order: seq<string>): Option<seq<(string, string)>>
    decreases |order|
  {
    if order == [] then Some([])
    else match (JoinHtml(ListOf(t, order[0])), Sections(t, order[1..]))
      case (Some(h), Some(rest)) => Some([(order[0], h)] + rest)
      case _ => None
  }

  /** The page's mount point sections; None when rendering it raises. */
  function Page(t: Table): Option<seq<(string, string)>> {
    Sections(t, PageOrder)
  }

  /** A section list gives, in order, each mount point with its joined html,
      and fails exactly when one of the joins fails. */
  lemma {:induction false} SectionsShape(t: Table, order: seq<string>)
    ensures var r := Sections(t, order);
      (r.Some? <==> forall k :: 0 <= k < |order| ==> JoinHtml(ListOf(t, order[k])).Some?) &&
      (r.Some? ==> |r.value| == |order|) &&
      (r.Some? ==> forall k :: 0 <= k < |order| ==> r.value[k] == (order[k], JoinHtml(ListOf(t, order[k])).value))
    decreases |order|
  {
    if order != [] {
      SectionsShape(t, order[1..]);
      assert forall k :: 1 <= k < |order| ==> order[k] == order[1..][k - 1];
    }
  }

  /** The page shows sidebar, main, chat and footer, in that order, each with
      the joined html of exactly the entries the listing yields for it; the
      entries of any other mount point are gathered but never shown. */
  lemma PageShows(infos: seq<Info>, instances: map<string, Instance>)
    ensures var p := Page(Gathered(infos, instances));
      (p.Some? <==> forall k :: 0 <= k < 4 ==> JoinHtml(EntriesFor(PageOrder[k], infos, instances)).Some?) &&
      (p.Some? ==> |p.value| == 4) &&
      (p.Some? ==> forall k :: 0 <= k < 4 ==>
        p.value[k] == (PageOrder[k], JoinHtml(EntriesFor(PageOrder[k], infos, instances)).value))
  {
    GatheredShape(infos, instances);
    SectionsShape(Gathered(infos, instances), PageOrder);
  }

  // ---------------------------------------------------------------------------
  // The handler
  // ---------------------------------------------------------------------------

  /** The component loop for one mount point of extension `ext`. */
  method RenderComponents(t: Table, ext: string, mp: string, ids: seq<string>, parts: UiParts) returns (r: Table)
    requires mp in t.lists
    ensures r == Components(t, ext, mp, ids, parts)
  {
    r := t;
    var i := 0;
    while i < |ids|
      invariant 0 <= i <= |ids|
      invariant mp in r.lists
      invariant Components(r, ext, mp, ids[i..], parts) == Components(t, ext, mp, ids, parts)
    {
      assert ids[i..][1..] == ids[i + 1..];
      var id := ids[i];
      if id in parts.components {
        match parts.components[id] {
          case Renders(data) =>
            if data.VDict? && "html" in data.entries {
              r := r.(lists := r.lists[mp := r.lists[mp] + [Entry(id, ext, data.entries["html"])]]);
            }
          case NotCallable =>
          case RenderRaises(_) =>
        }
      }
      i := i + 1;
    }
  }

  /** The mount point loop of extension `ext`. */
  method RenderPoints(t: Table, ext: string, parts: UiParts) returns (r: Table)
    ensures r == Points(t, ext, parts.mountPoints, parts)
  {
    var points := parts.mountPoints;
    r := t;
    var i := 0;
    while i < |points|
      invariant 0 <= i <= |points|
      invariant Points(r, ext, points[i..], parts) == Points(t, ext, points, parts)
    {
      assert points[i..][1..] == points[i + 1..];
      var (mp, ids) := points[i];
      if mp !in r.lists {
        r := Table(r.keys + [mp], r.lists[mp := []]);
      }
      r := RenderComponents(r, ext, mp, ids, parts);
      i := i + 1;
    }
  }

  /** `mock_mountpoint`: gathers the entries of the listing `infos` (with the
      registry's live objects `instances`) and renders the page. */
  method MockMountpoint(infos: seq<Info>, instances: map<string, Instance>)
    returns (mountPoints: Table, page: Option<seq<(string, string)>>)
    ensures mountPoints == Gathered(infos, instances)
    ensures page == Page(mountPoints)
  {
    mountPoints := Initial();
    var i := 0;
    while i < |infos|
      invariant 0 <= i <= |infos|
      invariant Collect(mountPoints, infos[i..], instances) == Gathered(infos, instances)
    {
      assert infos[i..][1..] == infos[i + 1..];
      var info := infos[i];
      if info.active && info.name in instances && instances[info.name].kind == "ui" {
        var extension := instances[info.name];
        if extension.ui.Some? {
          mountPoints := RenderPoints(mountPoints, info.name, extension.ui.value);
        }
      }
      i := i + 1;
    }
    page := Page(mountPoints);
  }
}
