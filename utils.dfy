/**
 * The loader and installer decisions of extension_system/utils.py: which file
 * is an extension's entry point, which directory of an unpacked source is the
 * extension, which module member is the extension, what `discover_extensions`
 * lists, and the filesystem steps of the installers and of
 * `setup_extensions_directory`.
 */
module Utils {
  import opened Wrappers
  import opened Values
  import opened Strings
  import opened Paths
  import opened Base
  import opened FileSystem

  const InitFile: string := "__init__.py"

  /** How a caller tests for an entry file: `exists()` or `isfile()`. */
  datatype Probe = AnyNode | FileOnly

  predicate Present(fs: Fs, p: string, probe: Probe) {
    match probe
    case AnyNode => Exists(fs, p)
    case FileOnly => IsFile(fs, p)
  }

  /** The entry file of an extension directory: `__init__.py`, else
      `extension.py`, else `main.py`. */
  function EntryPoint(fs: Fs, dir: string, probe: Probe): (r: Option<string>)
    ensures Present(fs, Join(dir, InitFile), probe) ==> r == Some(Join(dir, InitFile))
    ensures r == Some(Join(dir, "extension.py")) <==>
      !Present(fs, Join(dir, InitFile), probe) && Present(fs, Join(dir, "extension.py"), probe)
    ensures r == Some(Join(dir, "main.py")) <==>
      !Present(fs, Join(dir, InitFile), probe) && !Present(fs, Join(dir, "extension.py"), probe) &&
      Present(fs, Join(dir, "main.py"), probe)
    ensures r.None? <==>
      !Present(fs, Join(dir, InitFile), probe) && !Present(fs, Join(dir, "extension.py"), probe) &&
      !Present(fs, Join(dir, "main.py"), probe)
    ensures r.Some? ==> Present(fs, r.value, probe)
  {
    assert |Join(dir, InitFile)| == |dir| + 12 && |Join(dir, "extension.py")| == |dir| + 13 &&
           |Join(dir, "main.py")| == |dir| + 8;
    if Present(fs, Join(dir, InitFile), probe) then Some(Join(dir, InitFile))
    else if Present(fs, Join(dir, "extension.py"), probe) then Some(Join(dir, "extension.py"))
    else if Present(fs, Join(dir, "main.py"), probe) then Some(Join(dir, "main.py"))
    else None
  }

  /** A directory in which `find_extension_dir` sees an entry file. */
  predicate HasEntry(fs: Fs, dir: string) {
    EntryPoint(fs, dir, AnyNode).Some?
  }

  /** A directory whose name does not start with '.'. */
  predicate Visible(fs: Fs, d: string) {
    IsDir(fs, d) && !IsHidden(BaseName(d))
  }

  /** The visible subdirectories of a listing, in listing order. */
  function VisibleDirs(fs: Fs, listing: seq<string>): (r: seq<string>)
    ensures forall d :: d in r <==> d in listing && Visible(fs, d)
    decreases |listing|
  {
    if listing == [] then []
    else
      var rest := VisibleDirs(fs, listing[1..]);
      assert forall d :: d in listing <==> d == listing[0] || d in listing[1..];
      if Visible(fs, listing[0]) then [listing[0]] + rest else rest
  }

  /** The index of the first directory with an entry file, or -1. */
  function FirstWithEntry(fs: Fs, dirs: seq<string>): (k: int)
    ensures -1 <= k < |dirs|
    ensures k >= 0 ==> HasEntry(fs, dirs[k])
    ensures forall j :: 0 <= j < |dirs| && (k < 0 || j < k) ==> !HasEntry(fs, dirs[j])
  {
    if dirs == [] then -1
    else if HasEntry(fs, dirs[0]) then 0
    else var k := FirstWithEntry(fs, dirs[1..]); if k < 0 then -1 else k + 1
  }

  /** What `find_extension_dir` does: find a directory, find none, or raise
      because the base cannot be listed. */
  datatype Search = Found(dir: string) | NotFound | ListingFails

  /** `find_extension_dir`. The branch for a single visible subdirectory
      agrees with the scan over all of them, so the result is the base if it
      has an entry file, else the first visible subdirectory that has one. */
  function FindExtensionDir(fs: Fs, base: string): (r: Search)
    ensures HasEntry(fs, base) ==> r == Found(base)
    ensures !HasEntry(fs, base) && !IsDir(fs, base) ==> r == ListingFails
    ensures !HasEntry(fs, base) && IsDir(fs, base) ==>
      var subs := VisibleDirs(fs, Children(fs, base));
      var k := FirstWithEntry(fs, subs);
      r == if k < 0 then NotFound else Found(subs[k])
    ensures r.Found? ==> HasEntry(fs, r.dir)
    ensures r.Found? && r.dir != base ==>
      Visible(fs, r.dir) && IsChild(base, r.dir)
    ensures r.NotFound? && WellFormed(fs) ==>
      forall d :: d in fs.nodes && IsChild(base, d) && Visible(fs, d) ==> !HasEntry(fs, d)
  {
    if HasEntry(fs, base) then Found(base)
    else if !IsDir(fs, base) then ListingFails
    else
      var subs := VisibleDirs(fs, Children(fs, base));
      if |subs| == 1 && HasEntry(fs, subs[0]) then Found(subs[0])
      else
        var k := FirstWithEntry(fs, subs);
        if k < 0 then NotFound else Found(subs[k])
  }

  /** The first member with the given name (`getattr(module, name)`). */
  function MemberNamed(members: seq<(string, Member)>, name: string): (r: Option<Member>)
    ensures r.Some? ==> exists k :: 0 <= k < |members| && members[k] == (name, r.value)
    ensures r.None? ==> forall k :: 0 <= k < |members| ==> members[k].0 != name
  {
    if members == [] then None
    else if members[0].0 == name then Some(members[0].1)
    else MemberNamed(members[1..], name)
  }

  /** A module-level `extension` that is an `Extension` instance. */
  function ExtensionVariable(m: Module): Option<Instance> {
    match MemberNamed(m.members, "extension")
    case Some(InstanceMember(inst)) => Some(inst)
    case _ => None
  }

  /** A class member `find_extension_class` accepts. */
  predicate Qualifies(member: Member) {
    member.ClassMember? && member.cls.isExtensionSubclass && !member.cls.isExtensionBase && !member.cls.isAbstract
  }

  /** The index of the first qualifying member in name order, or -1. */
  function FirstQualifying(members: seq<(string, Member)>): (k: int)
    ensures -1 <= k < |members|
    ensures k >= 0 ==> Qualifies(members[k].1)
    ensures forall j :: 0 <= j < |members| && (k < 0 || j < k) ==> !Qualifies(members[j].1)
  {
    if members == [] then -1
    else if Qualifies(members[0].1) then 0
    else var k := FirstQualifying(members[1..]); if k < 0 then -1 else k + 1
  }

  datatype ClassRef = ClassOfInstance(instance: Instance) | MemberClass(name: string, cls: ClassInfo)

  /** `find_extension_class`: the class of the `extension` variable, else the
      first qualifying class member, else None. */
  function FindExtensionClass(m: Module): (r: Option<ClassRef>)
    ensures ExtensionVariable(m).Some? ==> r == Some(ClassOfInstance(ExtensionVariable(m).value))
    ensures ExtensionVariable(m).None? && r.Some? ==>
      r.value.MemberClass? && (r.value.name, ClassMember(r.value.cls)) in m.members && Qualifies(ClassMember(r.value.cls))
    ensures ExtensionVariable(m).None? && r.None? ==> forall k :: 0 <= k < |m.members| ==> !Qualifies(m.members[k].1)
  {
    if ExtensionVariable(m).Some? then Some(ClassOfInstance(ExtensionVariable(m).value))
    else
      var k := FirstQualifying(m.members);
      if k < 0 then None else Some(MemberClass(m.members[k].0, m.members[k].1.cls))
  }

  /** Calling a class: its instance, or None when the constructor raises. */
  function Instantiate(c: ClassInfo): Option<Instance> {
    match c.construct
    case Constructs(inst) => Some(inst)
    case ConstructorRaises(_) => None
  }

  /** `get_extension_instance`: the `extension` variable wins; otherwise the
      first qualifying class in name order is instantiated. */
  function GetExtensionInstance(m: Module): (r: Option<Instance>)
    ensures ExtensionVariable(m).Some? ==> r == ExtensionVariable(m)
    ensures ExtensionVariable(m).None? ==>
      var k := FirstQualifying(m.members);
      r == if k < 0 then None else Instantiate(m.members[k].1.cls)
  {
    if ExtensionVariable(m).Some? then ExtensionVariable(m)
    else
      var c := FindExtensionClass(m);
      if c.Some? && c.value.MemberClass? then Instantiate(c.value.cls) else None
  }

  /** The module name `load_extension_module` registers in `sys.modules`. */
  function ModuleName(path: string): string {
    "open_webui_extension_" + Stem(path)
  }

  /** Two paths get the same module name exactly when their stems agree. */
  lemma ModuleNameByStem(p: string, q: string)
    ensures ModuleName(p) == ModuleName(q) <==> Stem(p) == Stem(q)
  {
    var prefix := "open_webui_extension_";
    if ModuleName(p) == ModuleName(q) {
      assert Stem(p) == ModuleName(p)[|prefix|..];
    }
  }

  /** Every package entry file has the stem `__init__`, so all packages are
      loaded under one module name. */
  lemma PackagesShareModuleName(a: string, b: string)
    ensures ModuleName(Join(a, InitFile)) == ModuleName(Join(b, InitFile)) == "open_webui_extension___init__"
  {
    InitFileStem(a);
    InitFileStem(b);
  }

  lemma InitFileStem(dir: string)
    ensures Stem(Join(dir, InitFile)) == "__init__"
  {
    var s := InitFile;
    BaseNameOfJoin(dir, s);
    assert s[10] == 'y' && s[..10][9] == 'p' && s[..10][..9] == s[..9] && s[..9][8] == '.';
    assert LastDot(s) == LastDot(s[..10]) == LastDot(s[..9]) == 8;
    assert s[..8] == "__init__";
  }

  /** `load_extension_module`: the module a Python file executes to; None
      when the path is not a loadable Python file or executing it raises. */
  function LoadModule(fs: Fs, path: string): (r: Option<Module>)
    ensures r.Some? ==> IsFile(fs, path) && fs.nodes[path].content == PythonSource(Executes(r.value))
  {
    if IsFile(fs, path) && fs.nodes[path].content.PythonSource? && fs.nodes[path].content.exec.Executes?
    then Some(fs.nodes[path].content.exec.loaded)
    else None
  }

  /** `load_extension`. */
  function LoadExtension(fs: Fs, path: string): (r: Option<Instance>)
    ensures LoadModule(fs, path).None? ==> r.None?
    ensures LoadModule(fs, path).Some? ==> r == GetExtensionInstance(LoadModule(fs, path).value)
  {
    match LoadModule(fs, path)
    case None => None
    case Some(m) => GetExtensionInstance(m)
  }

  // ---------------------------------------------------------------- discovery

  /** An entry `p` of directory `d` (named `dirName`) that names its main module:
      `extension.py`, `main.py` or `<dirName>.py`. */
  predicate IsMainModule(d: string, p: string, dirName: string) {
    |p| > |d| + 1 && CandidateName(p[|d| + 1..], dirName)
  }

  predicate CandidateName(name: string, dirName: string) {
    name == "extension.py" || name == "main.py" || name == dirName + ".py"
  }

  /** The index of the first entry from `i` on that names a main module, or -1. */
  function FirstCandidate(d: string, listing: seq<string>, dirName: string, i: nat): (k: int)
    requires i <= |listing|
    ensures k == -1 || i <= k < |listing|
    ensures k >= 0 ==> IsMainModule(d, listing[k], dirName)
    ensures forall j :: i <= j < |listing| && (k < 0 || j < k) ==> !IsMainModule(d, listing[j], dirName)
    decreases |listing| - i
  {
    if i == |listing| then -1
    else if IsMainModule(d, listing[i], dirName) then i
    else FirstCandidate(d, listing, dirName, i + 1)
  }

  /** The module path `discover_extensions` reports for one directory. */
  function ModulePathIn(fs: Fs, d: string): (r: Option<string>)
    ensures Exists(fs, Join(d, InitFile)) ==> r == Some(Join(d, InitFile))
    ensures !Exists(fs, Join(d, InitFile)) && r.Some? ==>
      r.value in fs.nodes && IsChild(d, r.value) && IsMainModule(d, r.value, BaseName(d))
  {
    if Exists(fs, Join(d, InitFile)) then Some(Join(d, InitFile))
    else
      var listing := Children(fs, d);
      var k := FirstCandidate(d, listing, BaseName(d), 0);
      if k < 0 then None else Some(listing[k])
  }

  /** The paths reported for a listing of `installed/`: one at most per
      directory, nothing for other entries. */
  function Collect(fs: Fs, listing: seq<string>): (r: seq<string>)
    ensures |r| <= |listing|
    decreases |listing|
  {
    if listing == [] then []
    else
      var d := listing[|listing| - 1];
      Collect(fs, listing[..|listing| - 1]) +
        (if IsDir(fs, d) && ModulePathIn(fs, d).Some? then [ModulePathIn(fs, d).value] else [])
  }

  /** Each reported path is the module path of a directory of the listing. */
  lemma {:induction false} CollectSound(fs: Fs, listing: seq<string>, p: string)
    requires p in Collect(fs, listing)
    ensures exists d :: d in listing && IsDir(fs, d) && ModulePathIn(fs, d) == Some(p)
    decreases |listing|
  {
    var d := listing[|listing| - 1];
    var front := listing[..|listing| - 1];
    if p in Collect(fs, front) {
      CollectSound(fs, front, p);
      var e :| e in front && IsDir(fs, e) && ModulePathIn(fs, e) == Some(p);
      assert e in listing;
    } else {
      assert d in listing;
    }
  }

  /** Every directory of the listing that has a module path reports it. */
  lemma {:induction false} CollectComplete(fs: Fs, listing: seq<string>, d: string)
    requires d in listing && IsDir(fs, d) && ModulePathIn(fs, d).Some?
    ensures ModulePathIn(fs, d).value in Collect(fs, listing)
    decreases |listing|
  {
    var last := listing[|listing| - 1];
    var front := listing[..|listing| - 1];
    if d != last {
      assert d in front by {
        var i :| 0 <= i < |listing| && listing[i] == d;
        assert i < |listing| - 1;
        assert front[i] == d;
      }
      CollectComplete(fs, front, d);
    }
  }

  /** `discover_extensions(directory)`: the filesystem afterwards (with
      `installed/` created if it was missing) and the module paths found. Any
      failure to create or list `installed/` yields no paths. */
  function Discover(fs: Fs, directory: string): (r: (Fs, seq<string>))
    ensures !IsDir(r.0, Join(directory, "installed")) ==> r.1 == []
  {
    var installed := Join(directory, "installed");
    var prepared := if Exists(fs, installed) then Some(fs) else MakeDirs(fs, installed);
    match prepared
    case None => (fs, [])
    case Some(f) => if !IsDir(f, installed) then (f, []) else (f, Collect(f, Children(f, installed)))
  }

  /** Discovery reports exactly the module paths of the directories directly
      inside `installed/`. */
  lemma DiscoverReports(fs: Fs, directory: string, p: string)
    requires WellFormed(fs)
    ensures var (f, paths) := Discover(fs, directory);
      p in paths <==>
        IsDir(f, Join(directory, "installed")) &&
        exists d :: d in f.nodes && IsChild(Join(directory, "installed"), d) && IsDir(f, d) && ModulePathIn(f, d) == Some(p)
  {
    var installed := Join(directory, "installed");
    var (f, paths) := Discover(fs, directory);
    assert WellFormed(f);
    if IsDir(f, installed) {
      assert paths == Collect(f, Children(f, installed));
      if p in paths {
        CollectSound(f, Children(f, installed), p);
      }
      if exists d :: d in f.nodes && IsChild(installed, d) && IsDir(f, d) && ModulePathIn(f, d) == Some(p) {
        var d :| d in f.nodes && IsChild(installed, d) && IsDir(f, d) && ModulePathIn(f, d) == Some(p);
        CollectComplete(f, Children(f, installed), d);
      }
    }
  }

  /** The `glob("*.py")` scan of one directory: the first entry in listing
      order that names a main module. */
  method ScanForMainModule(d: string, files: seq<string>, dirName: string) returns (r: Option<string>)
    ensures var k := FirstCandidate(d, files, dirName, 0); r == if k < 0 then None else Some(files[k])
  {
    var j := 0;
    while j < |files|
      invariant 0 <= j <= |files|
      invariant forall t :: 0 <= t < j ==> !IsMainModule(d, files[t], dirName)
    {
      if IsMainModule(d, files[j], dirName) {
        assert FirstCandidate(d, files, dirName, 0) == j;
        return Some(files[j]);
      }
      j := j + 1;
    }
    return None;
  }

  /** The module path of one directory: `__init__.py`, else the scan. */
  method FindModulePath(fs: Fs, d: string) returns (r: Option<string>)
    ensures r == ModulePathIn(fs, d)
  {
    if Exists(fs, Join(d, InitFile)) {
      return Some(Join(d, InitFile));
    }
    r := ScanForMainModule(d, Children(fs, d), BaseName(d));
  }

  /** The loop of `discover_extensions` over the entries of `installed/`. */
  method CollectModulePaths(fs: Fs, listing: seq<string>) returns (paths: seq<string>)
    ensures paths == Collect(fs, listing)
  {
    paths := [];
    var i := 0;
    while i < |listing|
      invariant 0 <= i <= |listing|
      invariant paths == Collect(fs, listing[..i])
    {
      var d := listing[i];
      assert listing[..i + 1][..i] == listing[..i];
      if IsDir(fs, d) {
        var found := FindModulePath(fs, d);
        if found.Some? {
          paths := paths + [found.value];
        }
      }
      i := i + 1;
    }
    assert listing[..i] == listing;
  }

  /** `discover_extensions`, step by step over the filesystem object. */
  method DiscoverExtensions(store: FileStore, directory: string) returns (paths: seq<string>)
    modifies store
    ensures (store.State(), paths) == Discover(old(store.State()), directory)
  {
    var installed := Join(directory, "installed");
    if !Exists(store.State(), installed) {
      var ok := store.CreateDirs(installed);
      if !ok {
        return [];
      }
    }
    if !IsDir(store.State(), installed) {
      return [];
    }
    paths := CollectModulePaths(store.State(), Children(store.State(), installed));
  }

  // ---------------------------------------------------------------- installers

  /** What `install_from_directory` learns before touching the filesystem. */
  datatype Located = Located(dir: string, entry: string, instance: Instance)

  function Locate(fs: Fs, source: string): (r: Option<Located>)
    ensures r.Some? ==>
      FindExtensionDir(fs, source) == Found(r.value.dir) &&
      EntryPoint(fs, r.value.dir, AnyNode) == Some(r.value.entry) &&
      LoadExtension(fs, r.value.entry) == Some(r.value.instance)
    ensures r.None? ==>
      !FindExtensionDir(fs, source).Found? ||
      LoadExtension(fs, EntryPoint(fs, FindExtensionDir(fs, source).dir, AnyNode).value).None?
  {
    match FindExtensionDir(fs, source)
    case Found(d) =>
      (match EntryPoint(fs, d, AnyNode)
       case None => None
       case Some(e) =>
         match LoadExtension(fs, e)
         case None => None
         case Some(inst) => Some(Located(d, e, inst)))
    case _ => None
  }

  /** Where an extension named `name` is installed. */
  function InstallTarget(target: string, name: string): string {
    Join(Join(target, "installed"), name)
  }

  /** `rmtree(dst)` when something already exists at `dst`. */
  function Cleared(fs: Fs, dst: string): (r: Option<Fs>)
    ensures !Exists(fs, dst) ==> r == Some(fs)
    ensures Exists(fs, dst) && r.Some? ==> forall q :: q in r.value.nodes <==> q in fs.nodes && !InTree(dst, q)
    ensures r.Some? ==> forall q :: q in r.value.nodes ==> q in fs.nodes && r.value.nodes[q] == fs.nodes[q]
    ensures r.Some? && WellFormed(fs) ==> WellFormed(r.value)
  {
    if Exists(fs, dst) then RemoveTree(fs, dst) else Some(fs)
  }

  /** `install_from_directory`: the installed path (None on failure) and the
      filesystem afterwards. A previous install is removed before the copy. */
  function InstallDirectory(fs: Fs, source: string, target: string): (r: (Option<string>, Fs))
    ensures Locate(fs, source).None? ==> r == (None, fs)
    ensures r.0.Some? ==>
      Locate(fs, source).Some? && r.0.value == InstallTarget(target, Locate(fs, source).value.instance.name)
    ensures r.0.Some? ==>
      var dst := InstallTarget(target, Locate(fs, source).value.instance.name);
      Cleared(fs, dst).Some? && CopyTree(Cleared(fs, dst).value, Locate(fs, source).value.dir, dst) == Some(r.1)
    ensures Locate(fs, source).Some? ==>
      var loc, dst := Locate(fs, source).value, InstallTarget(target, Locate(fs, source).value.instance.name);
      Cleared(fs, dst).Some? && CopyTree(Cleared(fs, dst).value, loc.dir, dst).Some? ==> r.0 == Some(dst)
    ensures r.0.None? ==>
      r.1 == fs ||
      (Locate(fs, source).Some? && Cleared(fs, InstallTarget(target, Locate(fs, source).value.instance.name)) == Some(r.1))
  {
    match Locate(fs, source)
    case None => (None, fs)
    case Some(loc) =>
      var dst := InstallTarget(target, loc.instance.name);
      match Cleared(fs, dst)
      case None => (None, fs)
      case Some(f) =>
        match CopyTree(f, loc.dir, dst)
        case None => (None, f)
        case Some(g) => (Some(dst), g)
  }

  /** Two trees that share a path are nested. */
  lemma TreesMeet(a: string, b: string, q: string)
    requires InTree(a, q) && InTree(b, q)
    ensures InTree(a, b) || InTree(b, a)
  {
    assert a <= q && b <= q;
    if |a| < |b| {
      assert q != a;
      assert q[|a|] == '/';
      assert b[|a|] == q[|a|];
      assert b[..|a|] == a;
      assert a + "/" <= b;
    } else if |b| < |a| {
      assert q != b;
      assert q[|b|] == '/';
      assert a[|b|] == q[|b|];
      assert a[..|b|] == b;
      assert b + "/" <= a;
    } else {
      assert a == q[..|a|] == b;
    }
  }

  /** Clearing `dst` leaves a tree disjoint from it as it was. */
  lemma ClearedKeeps(fs: Fs, src: string, dst: string)
    requires Cleared(fs, dst).Some?
    requires !InTree(src, dst) && !InTree(dst, src)
    ensures forall q :: q in fs.nodes && InTree(src, q) ==>
      q in Cleared(fs, dst).value.nodes && Cleared(fs, dst).value.nodes[q] == fs.nodes[q]
  {
    forall q | q in fs.nodes && InTree(src, q)
      ensures q in Cleared(fs, dst).value.nodes
    {
      if InTree(dst, q) { TreesMeet(src, dst, q); }
    }
  }

  /** On success the install directory holds exactly the extension
      directory's tree as it was, whatever was installed there before. */
  lemma InstallDirectoryReplaces(fs: Fs, source: string, target: string)
    requires WellFormed(fs)
    requires target != [] && target[|target| - 1] != '/'
    requires InstallDirectory(fs, source, target).0.Some?
    requires NoSlash(Locate(fs, source).value.instance.name)
    requires var dst := InstallTarget(target, Locate(fs, source).value.instance.name);
      var src := Locate(fs, source).value.dir;
      !InTree(src, dst) && !InTree(dst, src)
    requires var dst := InstallTarget(target, Locate(fs, source).value.instance.name);
      Exists(fs, dst) || forall q :: q in fs.nodes ==> !InTree(dst, q)
    ensures SameTree(fs, Locate(fs, source).value.dir, InstallDirectory(fs, source, target).1,
                     InstallTarget(target, Locate(fs, source).value.instance.name))
    ensures WellFormed(InstallDirectory(fs, source, target).1)
  {
    var loc := Locate(fs, source).value;
    var src := loc.dir;
    var dst := InstallTarget(target, loc.instance.name);
    var f := Cleared(fs, dst).value;
    var g := InstallDirectory(fs, source, target).1;
    assert CopyTree(f, src, dst) == Some(g);
    DirNameOfJoin(Join(target, "installed"), loc.instance.name);
    assert forall q :: q in f.nodes ==> !InTree(dst, q);
    CopyTreeExact(f, src, dst);
    ClearedKeeps(fs, src, dst);
    SameTreeTransfer(fs, f, src, g, dst);
  }

  method InstallFromDirectory(store: FileStore, source: string, target: string) returns (r: Option<string>)
    modifies store
    ensures (r, store.State()) == InstallDirectory(old(store.State()), source, target)
  {
    var fs := store.State();
    var found := FindExtensionDir(fs, source);
    if !found.Found? {
      return None;
    }
    var entry := EntryPoint(fs, found.dir, AnyNode);
    if entry.None? {
      return None;
    }
    var extension := LoadExtension(fs, entry.value);
    if extension.None? {
      return None;
    }
    var installDir := InstallTarget(target, extension.value.name);
    if Exists(fs, installDir) {
      var removed := store.DeleteTree(installDir);
      if !removed {
        return None;
      }
    }
    var copied := store.Copy(found.dir, installDir);
    if !copied {
      return None;
    }
    r := Some(installDir);
  }

  /** The scratch directory a ZIP file is extracted into. */
  function ExtractionDir(target: string, zip: string): string {
    Join(Join(target, "temp"), "extract_" + BaseName(zip))
  }

  /** The filesystem once the scratch directory is fresh and the archive is
      extracted into it; None when any of these steps fails. */
  function Extracted(fs: Fs, zip: string, target: string): Option<Fs> {
    var temp := ExtractionDir(target, zip);
    var cleared := Cleared(fs, temp);
    if cleared.None? then None
    else
      match MakeDirs(cleared.value, temp)
      case None => None
      case Some(f) => ExtractZip(f, zip, temp)
  }

  /** `install_from_zip`: a failed extraction yields None; otherwise the
      result of installing from the scratch directory, which is removed
      afterwards. */
  function InstallZip(fs: Fs, zip: string, target: string): (r: (Option<string>, Fs))
    ensures Extracted(fs, zip, target).None? ==> r.0.None?
    ensures Extracted(fs, zip, target).Some? && r.0.Some? ==>
      r.0 == InstallDirectory(Extracted(fs, zip, target).value, ExtractionDir(target, zip), target).0
    ensures r.0.Some? ==> forall q :: q in r.1.nodes ==> !InTree(ExtractionDir(target, zip), q)
    ensures Extracted(fs, zip, target).Some? ==>
      var temp := ExtractionDir(target, zip);
      var d := InstallDirectory(Extracted(fs, zip, target).value, temp, target);
      (RemoveTree(d.1, temp).Some? ==> r.0 == d.0 && forall q :: q in r.1.nodes ==> !InTree(temp, q)) &&
      (RemoveTree(d.1, temp).None? ==> r == (None, d.1))
  {
    var temp := ExtractionDir(target, zip);
    var cleared := Cleared(fs, temp);
    if cleared.None? then (None, fs)
    else
      match MakeDirs(cleared.value, temp)
      case None => (None, cleared.value)
      case Some(f) =>
        match ExtractZip(f, zip, temp)
        case None => (None, f)
        case Some(g) =>
          var (result, h) := InstallDirectory(g, temp, target);
          match RemoveTree(h, temp)
          case None => (None, h)
          case Some(k) => (result, k)
  }

  method InstallFromZip(store: FileStore, zip: string, target: string) returns (r: Option<string>)
    modifies store
    ensures (r, store.State()) == InstallZip(old(store.State()), zip, target)
  {
    var temp := ExtractionDir(target, zip);
    if Exists(store.State(), temp) {
      var removed := store.DeleteTree(temp);
      if !removed {
        return None;
      }
    }
    var made := store.CreateDirs(temp);
    if !made {
      return None;
    }
    var extracted := store.Extract(zip, temp);
    if !extracted {
      return None;
    }
    r := InstallFromDirectory(store, temp, target);
    var cleaned := store.DeleteTree(temp);
    if !cleaned {
      return None;
    }
  }

  /** The name a download is saved under, inside `target/temp`. */
  function DownloadName(url: string): string {
    "download_" + BaseName(url)
  }

  function DownloadFile(target: string, url: string): string {
    Join(Join(target, "temp"), DownloadName(url))
  }

  /** `install_from_url`; `download` is what the server sends (None when the
      request fails). Only a ZIP is installed; the downloaded file is removed. */
  function InstallUrl(fs: Fs, url: string, target: string, download: Option<Content>): (r: (Option<string>, Fs))
    ensures download.None? ==> r.0.None?
    ensures download.Some? && !EndsWith(url, ".zip") && !download.value.ZipArchive? ==> r.0.None?
    ensures var file, f := DownloadFile(target, url), MakeDirs(fs, Join(target, "temp"));
      f.Some? && download.Some? && WriteFile(f.value, Join(target, "temp"), DownloadName(url), download.value).Some? ==>
        var g := WriteFile(f.value, Join(target, "temp"), DownloadName(url), download.value).value;
        var z := InstallZip(g, file, target);
        var zip := EndsWith(url, ".zip") || download.value.ZipArchive?;
        (zip ==> (r.0.Some? <==> z.0.Some? && (Exists(z.1, file) ==> RemoveFile(z.1, file).Some?)) &&
                 (r.0.Some? ==> r.0 == z.0) &&
                 ((Exists(z.1, file) ==> RemoveFile(z.1, file).Some?) ==> !Exists(r.1, file))) &&
        (!zip ==> !Exists(r.1, file))
  {
    var file := DownloadFile(target, url);
    match MakeDirs(fs, Join(target, "temp"))
    case None => (None, fs)
    case Some(f) =>
      if download.None? then (None, f)
      else
        match WriteFile(f, Join(target, "temp"), DownloadName(url), download.value)
        case None => (None, f)
        case Some(g) =>
          var (result, h) := if EndsWith(url, ".zip") || download.value.ZipArchive?
                             then InstallZip(g, file, target) else (None, g);
          if !Exists(h, file) then (result, h)
          else
            match RemoveFile(h, file)
            case None => (None, h)
            case Some(k) => (result, k)
  }

  method InstallFromUrl(store: FileStore, url: string, target: string, download: Option<Content>)
    returns (r: Option<string>)
    modifies store
    ensures (r, store.State()) == InstallUrl(old(store.State()), url, target, download)
  {
    var file := DownloadFile(target, url);
    var made := store.CreateDirs(Join(target, "temp"));
    if !made || download.None? {
      return None;
    }
    var written := store.Write(Join(target, "temp"), DownloadName(url), download.value);
    if !written {
      return None;
    }
    if EndsWith(url, ".zip") || download.value.ZipArchive? {
      r := InstallFromZip(store, file, target);
    } else {
      r := None;
    }
    if Exists(store.State(), file) {
      var removed := store.DeleteFile(file);
      if !removed {
        return None;
      }
    }
  }

  // ---------------------------------------------------------------- setup

  /** The content of a fresh `registry.json`. */
  const EmptyRegistry: Value := VDict(map["extensions" := VDict(map[])])

  function RegistryFile(dir: string): string {
    Join(dir, "registry.json")
  }

  /** `setup_extensions_directory`: None when a step raises. */
  function Setup(fs: Fs, dir: string): (r: Option<Fs>)
    ensures r.Some? ==> IsDir(r.value, Join(dir, "installed")) && IsDir(r.value, Join(dir, "temp"))
    ensures r.Some? ==> Exists(r.value, RegistryFile(dir))
    ensures r.Some? && Exists(fs, RegistryFile(dir)) ==> r.value.nodes[RegistryFile(dir)] == fs.nodes[RegistryFile(dir)]
    ensures r.Some? && !Exists(fs, RegistryFile(dir)) ==> r.value.nodes[RegistryFile(dir)] == File(JsonDocument(EmptyRegistry))
  {
    match MakeDirs(fs, dir)
    case None => None
    case Some(f) =>
      match MakeDir(f, dir, "installed")
      case None => None
      case Some(g) =>
        match MakeDir(g, dir, "temp")
        case None => None
        case Some(h) =>
          if Exists(h, RegistryFile(dir)) then Some(h)
          else WriteFile(h, dir, "registry.json", JsonDocument(EmptyRegistry))
  }

  /** The state setup leaves: the three paths it creates or keeps are present. */
  predicate SetUp(fs: Fs, dir: string) {
    (dir == "" || IsDir(fs, dir) || (dir !in fs.nodes && |DirName(dir)| >= |dir|)) &&
    IsDir(fs, Join(dir, "installed")) && IsDir(fs, Join(dir, "temp")) && Exists(fs, RegistryFile(dir))
  }

  /** A successful setup leaves that state. */
  lemma SetupEstablishes(fs: Fs, dir: string)
    requires Setup(fs, dir).Some?
    ensures SetUp(Setup(fs, dir).value, dir)
  {
    var installed, temp, reg := Join(dir, "installed"), Join(dir, "temp"), RegistryFile(dir);
    assert |installed| == |dir| + 10 && |temp| == |dir| + 5 && |reg| == |dir| + 14;
    var f := MakeDirs(fs, dir).value;
    var g := MakeDir(f, dir, "installed").value;
    var h := MakeDir(g, dir, "temp").value;
    var s := Setup(fs, dir).value;
    assert s.nodes == h.nodes || s.nodes == h.nodes[reg := File(JsonDocument(EmptyRegistry))];
    assert dir != installed && dir != temp && dir != reg;
    if dir in f.nodes {
      assert g.nodes[dir] == f.nodes[dir];
      assert h.nodes[dir] == g.nodes[dir];
      assert s.nodes[dir] == h.nodes[dir];
    } else {
      assert dir !in s.nodes;
    }
  }

  /** Setup changes nothing in that state. */
  lemma SetupKeeps(fs: Fs, dir: string)
    requires SetUp(fs, dir)
    ensures Setup(fs, dir) == Some(fs)
  {
    assert MakeDirs(fs, dir) == Some(fs);
  }

  /** Running the setup again changes nothing. */
  lemma SetupIdempotent(fs: Fs, dir: string)
    requires Setup(fs, dir).Some?
    ensures Setup(Setup(fs, dir).value, dir) == Setup(fs, dir)
  {
    SetupEstablishes(fs, dir);
    SetupKeeps(Setup(fs, dir).value, dir);
  }

  method SetupExtensionsDirectory(store: FileStore, dir: string) returns (ok: bool)
    modifies store
    ensures ok == Setup(old(store.State()), dir).Some?
    ensures ok ==> store.State() == Setup(old(store.State()), dir).value
  {
    ok := store.CreateDirs(dir);
    if !ok {
      return;
    }
    ok := store.CreateDir(dir, "installed");
    if !ok {
      return;
    }
    ok := store.CreateDir(dir, "temp");
    if !ok {
      return;
    }
    if !Exists(store.State(), RegistryFile(dir)) {
      ok := store.Write(dir, "registry.json", JsonDocument(EmptyRegistry));
    }
  }
}
