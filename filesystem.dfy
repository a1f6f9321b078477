/**
 * The filesystem the installer and loader work on: a map from path to node
 * plus the order in which directory listings return entries. A Python source
 * file's content is what executing it would yield: a module (its members in
 * `inspect.getmembers` order) or an exception.
 */
module FileSystem {
  import opened Wrappers
  import opened Values
  import opened Paths
  import opened Base

  /** What calling a class with no arguments does. */
  datatype Construction = Constructs(instance: Instance) | ConstructorRaises(message: string)

  /** A class found in a module: whether it is a subclass of `Extension`,
      whether it is `Extension` itself, and whether it is abstract. */
  datatype ClassInfo = ClassInfo(isExtensionSubclass: bool, isExtensionBase: bool, isAbstract: bool,
                                 construct: Construction)

  datatype Member = InstanceMember(instance: Instance) | ClassMember(cls: ClassInfo) | OtherMember

  /** A module's members, sorted by name as `inspect.getmembers` returns them. */
  datatype Module = Module(members: seq<(string, Member)>)

  datatype Execution = Executes(loaded: Module) | ExecRaises(message: string)

  datatype Node = File(content: Content) | Directory

  datatype Content =
    | PythonSource(exec: Execution)
    | ZipArchive(entries: seq<(string, Node)>)   // member path relative to the archive root
    | JsonDocument(json: Value)
    | OtherData

  datatype Fs = Fs(nodes: map<string, Node>, order: seq<string>)

  /** Every node has a place in the listing order. */
  predicate WellFormed(fs: Fs) {
    forall p :: p in fs.nodes ==> p in fs.order
  }

  predicate Exists(fs: Fs, p: string) { p in fs.nodes }
  predicate IsFile(fs: Fs, p: string) { p in fs.nodes && fs.nodes[p].File? }
  predicate IsDir(fs: Fs, p: string) { p in fs.nodes && fs.nodes[p].Directory? }

  predicate NoSlash(s: string) {
    forall k :: 0 <= k < |s| ==> s[k] != '/'
  }

  /** `p` is `root` or lies below it. */
  predicate InTree(root: string, p: string) {
    p == root || root + "/" <= p
  }

  /** `p` is an entry directly inside `dir`. */
  predicate IsChild(dir: string, p: string) {
    |p| > |dir| + 1 && dir + "/" <= p && NoSlash(p[|dir| + 1..])
  }

  function ChildrenIn(order: seq<string>, nodes: map<string, Node>, dir: string): (r: seq<string>)
    ensures forall q :: q in r ==> q in nodes && IsChild(dir, q)
    ensures forall q :: q in order && q in nodes && IsChild(dir, q) ==> q in r
  {
    if order == [] then []
    else (if order[0] in nodes && IsChild(dir, order[0]) then [order[0]] else [])
         + ChildrenIn(order[1..], nodes, dir)
  }

  /** `dir.iterdir()`: the entries directly inside `dir`, in listing order. */
  function Children(fs: Fs, dir: string): (r: seq<string>)
    ensures forall q :: q in r ==> q in fs.nodes && IsChild(dir, q)
    ensures WellFormed(fs) ==> forall q :: q in fs.nodes && IsChild(dir, q) ==> q in r
  {
    ChildrenIn(fs.order, fs.nodes, dir)
  }

  /** The name of a child entry. */
  function EntryName(dir: string, child: string): string
    requires IsChild(dir, child)
  {
    child[|dir| + 1..]
  }

  /** Create or overwrite one node; a new path goes to the end of the listing. */
  function Put(fs: Fs, p: string, n: Node): (r: Fs)
    ensures r.nodes == fs.nodes[p := n]
    ensures WellFormed(fs) ==> WellFormed(r)
  {
    Fs(fs.nodes[p := n], if p in fs.order then fs.order else fs.order + [p])
  }

  function FilterOut(order: seq<string>, root: string): (r: seq<string>)
    ensures forall q :: q in r <==> q in order && !InTree(root, q)
  {
    if order == [] then []
    else (if InTree(root, order[0]) then [] else [order[0]]) + FilterOut(order[1..], root)
  }

  /** Remove `root` and everything below it. */
  function Prune(fs: Fs, root: string): (r: Fs)
    ensures forall q :: q in r.nodes <==> q in fs.nodes && !InTree(root, q)
    ensures forall q :: q in r.nodes ==> r.nodes[q] == fs.nodes[q]
    ensures WellFormed(fs) ==> WellFormed(r)
  {
    Fs(map q | q in fs.nodes && !InTree(root, q) :: fs.nodes[q], FilterOut(fs.order, root))
  }

  /** `shutil.rmtree(p)`: fails (None) unless `p` is a directory. */
  function RemoveTree(fs: Fs, p: string): Option<Fs> {
    if IsDir(fs, p) then Some(Prune(fs, p)) else None
  }

  /** `os.remove(p)`: fails unless `p` is a file. */
  function RemoveFile(fs: Fs, p: string): Option<Fs> {
    if IsFile(fs, p) then Some(Prune(fs, p)) else None
  }

  /** `os.makedirs(p, exist_ok=True)`: creates `p` and its missing ancestors;
      fails when `p` or an ancestor is a file. */
  function MakeDirs(fs: Fs, p: string): (r: Option<Fs>)
    ensures r.Some? ==> p == "" || IsDir(r.value, p) || (p !in r.value.nodes && |DirName(p)| >= |p|)
    ensures r.Some? ==> forall q :: q in fs.nodes ==> q in r.value.nodes && r.value.nodes[q] == fs.nodes[q]
    ensures r.Some? ==> forall q :: q in r.value.nodes && q !in fs.nodes ==> |q| <= |p|
    ensures r.Some? && WellFormed(fs) ==> WellFormed(r.value)
    decreases |p|
  {
    if p == "" then Some(fs)
    else if p in fs.nodes then (if fs.nodes[p].Directory? then Some(fs) else None)
    else
      var parent := DirName(p);
      if |parent| >= |p| then Some(fs)
      else
        match MakeDirs(fs, parent)
        case None => None
        case Some(f) => if p in f.nodes then None else Some(Put(f, p, Directory))
  }

  /** `(dir / name).mkdir(exist_ok=True)` without parents: fails when `dir`
      is not a directory or the entry is a file. */
  function MakeDir(fs: Fs, dir: string, name: string): (r: Option<Fs>)
    ensures r.Some? ==> IsDir(r.value, Join(dir, name))
    ensures r.Some? ==> r.value.nodes == fs.nodes[Join(dir, name) := Directory]
    ensures r.Some? && WellFormed(fs) ==> WellFormed(r.value)
  {
    var p := Join(dir, name);
    if p in fs.nodes then (if fs.nodes[p].Directory? then Some(fs) else None)
    else if IsDir(fs, dir) then Some(Put(fs, p, Directory))
    else None
  }

  /** `open(dir / name, "w")` and write: fails when the entry is a directory
      or `dir` is not one. */
  function WriteFile(fs: Fs, dir: string, name: string, c: Content): (r: Option<Fs>)
    ensures r.Some? ==> r.value.nodes == fs.nodes[Join(dir, name) := File(c)]
    ensures r.Some? && WellFormed(fs) ==> WellFormed(r.value)
  {
    var p := Join(dir, name);
    if IsDir(fs, p) || !IsDir(fs, dir) then None else Some(Put(fs, p, File(c)))
  }

  /** The path a node of the `src` tree gets under `dst`. */
  function Relocate(src: string, dst: string, q: string): string
    requires InTree(src, q)
  {
    dst + q[|src|..]
  }

  /** The listing order after copying: the copied paths in the source's order. */
  function CopyOrder(acc: seq<string>, order: seq<string>, nodes: map<string, Node>, src: string, dst: string): seq<string>
    decreases |order|
  {
    if order == [] then acc
    else
      var q := order[0];
      var acc' := if q in nodes && InTree(src, q) && Relocate(src, dst, q) !in acc
                  then acc + [Relocate(src, dst, q)] else acc;
      CopyOrder(acc', order[1..], nodes, src, dst)
  }

  lemma {:induction false} CopyOrderCovers(acc: seq<string>, order: seq<string>, nodes: map<string, Node>,
                                           src: string, dst: string)
    ensures forall q :: q in acc ==> q in CopyOrder(acc, order, nodes, src, dst)
    ensures forall q :: q in order && q in nodes && InTree(src, q) ==>
      Relocate(src, dst, q) in CopyOrder(acc, order, nodes, src, dst)
    decreases |order|
  {
    if order != [] {
      var q := order[0];
      var acc' := if q in nodes && InTree(src, q) && Relocate(src, dst, q) !in acc
                  then acc + [Relocate(src, dst, q)] else acc;
      CopyOrderCovers(acc', order[1..], nodes, src, dst);
    }
  }

  /** Moving a path of the `src` tree under `dst` can be undone. */
  lemma RelocateInverse(src: string, dst: string, q: string)
    requires InTree(src, q)
    ensures InTree(dst, Relocate(src, dst, q))
    ensures Relocate(src, dst, q)[|dst|..] == q[|src|..]
    ensures src + Relocate(src, dst, q)[|dst|..] == q
  {
    var t := Relocate(src, dst, q);
    assert t[|dst|..] == q[|src|..];
    assert q == src + q[|src|..];
    if q != src {
      assert q[|src|..][0] == '/';
      assert (dst + "/") <= t;
    }
  }

  /** The nodes of the `src` tree, moved under `dst`. */
  function Copied(nodes: map<string, Node>, src: string, dst: string): (m: map<string, Node>)
    ensures forall q :: q in nodes && InTree(src, q) ==>
      Relocate(src, dst, q) in m && m[Relocate(src, dst, q)] == nodes[q]
    ensures forall t :: t in m ==>
      InTree(dst, t) && src + t[|dst|..] in nodes && InTree(src, src + t[|dst|..]) &&
      m[t] == nodes[src + t[|dst|..]]
  {
    var targets := set q | q in nodes && InTree(src, q) :: Relocate(src, dst, q);
    assert forall t :: t in targets ==> src + t[|dst|..] in nodes && InTree(src, src + t[|dst|..]) && InTree(dst, t) by {
      forall q | q in nodes && InTree(src, q) { RelocateInverse(src, dst, q); }
    }
    var m := map t | t in targets :: nodes[src + t[|dst|..]];
    assert forall q :: q in nodes && InTree(src, q) ==> Relocate(src, dst, q) in m && m[Relocate(src, dst, q)] == nodes[q] by {
      forall q | q in nodes && InTree(src, q) { RelocateInverse(src, dst, q); }
    }
    m
  }

  /** `shutil.copytree(src, dst)`: fails when `src` is not a directory or
      `dst` exists; creates the missing ancestors of `dst`, then copies the
      whole tree as it was before the copy. */
  function CopyTree(fs: Fs, src: string, dst: string): (r: Option<Fs>)
  {
    if !IsDir(fs, src) || Exists(fs, dst) then None
    else
      match MakeDirs(fs, DirName(dst))
      case None => None
      case Some(f) =>
        Some(Fs(f.nodes + Copied(fs.nodes, src, dst), CopyOrder(f.order, fs.order, fs.nodes, src, dst)))
  }

  /** One member of `extractall`: the missing parent directories of its
      path are created first; a directory member is then created unless it
      is already a directory, and a file member is written unless a
      directory stands in its place. Fails when a file stands where a
      directory is needed. */
  function PutEntry(fs: Fs, p: string, n: Node): (r: Option<Fs>)
    ensures r.Some? ==> p in r.value.nodes && r.value.nodes[p].Directory? == n.Directory?
    ensures r.Some? ==> n.File? ==> r.value.nodes[p] == n
    ensures r.Some? ==> DirName(p) == "" || IsDir(r.value, DirName(p)) || |DirName(DirName(p))| >= |DirName(p)|
    ensures r.Some? ==> forall q :: q in fs.nodes ==>
      q in r.value.nodes && (r.value.nodes[q] == fs.nodes[q] || (q == p && fs.nodes[q].File?))
    ensures r.Some? ==> forall q :: q in fs.nodes ==> r.value.nodes[q].Directory? == fs.nodes[q].Directory?
    ensures r.Some? && WellFormed(fs) ==> WellFormed(r.value)
  {
    match MakeDirs(fs, DirName(p))
    case None => None
    case Some(f) =>
      if n.Directory? then
        (if p !in f.nodes then Some(Put(f, p, Directory))
         else if f.nodes[p].Directory? then Some(f) else None)
      else if IsDir(f, p) then None
      else Some(Put(f, p, n))
  }

  /** `extractall`: the members in archive order, each below `target`. */
  function PutEntries(fs: Fs, target: string, entries: seq<(string, Node)>): (r: Option<Fs>)
    ensures r.Some? ==> forall k :: 0 <= k < |entries| ==>
      Join(target, entries[k].0) in r.value.nodes &&
      r.value.nodes[Join(target, entries[k].0)].Directory? == entries[k].1.Directory?
    ensures r.Some? ==> forall q :: q in fs.nodes ==>
      q in r.value.nodes && r.value.nodes[q].Directory? == fs.nodes[q].Directory?
    ensures r.Some? && WellFormed(fs) ==> WellFormed(r.value)
    decreases |entries|
  {
    if entries == [] then Some(fs)
    else
      match PutEntry(fs, Join(target, entries[0].0), entries[0].1)
      case None => None
      case Some(f) =>
        var r := PutEntries(f, target, entries[1..]);
        assert r.Some? ==> forall k :: 1 <= k < |entries| ==> entries[k] == entries[1..][k - 1];
        r
  }

  /** `zipfile.ZipFile(zip).extractall(target)`: fails unless `zip` is an
      archive whose members can all be written. */
  function ExtractZip(fs: Fs, zip: string, target: string): Option<Fs> {
    if IsFile(fs, zip) && fs.nodes[zip].content.ZipArchive?
    then PutEntries(fs, target, fs.nodes[zip].content.entries)
    else None
  }

  /** An archive whose only member is `sub/name`, with no entry for `sub`
      itself, extracts into an empty directory: `sub` is created as a
      directory and the member is written inside it. */
  lemma ExtractCreatesParent(fs: Fs, zip: string, target: string, sub: string, name: string, c: Content)
    requires IsFile(fs, zip) && fs.nodes[zip].content == ZipArchive([(sub + "/" + name, File(c))])
    requires IsDir(fs, target) && target != [] && target[|target| - 1] != '/'
    requires forall q :: q in fs.nodes ==> !(target + "/" <= q)
    requires sub != [] && NoSlash(sub) && NoSlash(name)
    ensures ExtractZip(fs, zip, target).Some?
    ensures IsDir(ExtractZip(fs, zip, target).value, Join(target, sub))
    ensures var r := ExtractZip(fs, zip, target).value;
      Join(Join(target, sub), name) in r.nodes && r.nodes[Join(Join(target, sub), name)] == File(c)
  {
    var entries := [(sub + "/" + name, File(c))];
    var d := Join(target, sub);
    var p := Join(target, sub + "/" + name);
    assert p == Join(d, name);
    DirNameOfJoin(d, name);
    DirNameOfJoin(target, sub);
    assert target + "/" <= d && target + "/" <= p;
    assert d !in fs.nodes && p !in fs.nodes;
    assert MakeDirs(fs, target) == Some(fs);
    var f := Put(fs, d, Directory);
    assert MakeDirs(fs, d) == Some(f);
    assert |d| < |p|;
    var g := Put(f, p, File(c));
    assert PutEntry(fs, p, File(c)) == Some(g);
    assert PutEntries(g, target, entries[1..]) == Some(g);
    assert PutEntries(fs, target, entries) == Some(g);
  }

  /** The tree at `root` of `b` is exactly the tree at `source` of `a`. */
  ghost predicate SameTree(a: Fs, source: string, b: Fs, root: string) {
    (forall q :: q in a.nodes && InTree(source, q) ==>
       Relocate(source, root, q) in b.nodes && b.nodes[Relocate(source, root, q)] == a.nodes[q]) &&
    (forall t :: t in b.nodes && InTree(root, t) ==>
       source + t[|root|..] in a.nodes && b.nodes[t] == a.nodes[source + t[|root|..]])
  }

  /** `SameTree` only looks at the source tree, so it carries over to a
      filesystem that agrees with the original there and has no extra nodes. */
  lemma SameTreeTransfer(a: Fs, a2: Fs, source: string, b: Fs, root: string)
    requires SameTree(a2, source, b, root)
    requires forall q :: q in a.nodes && InTree(source, q) ==> q in a2.nodes && a2.nodes[q] == a.nodes[q]
    requires forall q :: q in a2.nodes ==> q in a.nodes && a.nodes[q] == a2.nodes[q]
    ensures SameTree(a, source, b, root)
  {
  }

  /** After a successful copy into a destination with no tree, the destination
      holds exactly the source tree; nothing existing outside it changes. */
  lemma CopyTreeExact(fs: Fs, src: string, dst: string)
    requires CopyTree(fs, src, dst).Some?
    requires |DirName(dst)| < |dst|
    requires forall q :: q in fs.nodes ==> !InTree(dst, q)
    ensures SameTree(fs, src, CopyTree(fs, src, dst).value, dst)
    ensures forall q :: q in fs.nodes ==> q in CopyTree(fs, src, dst).value.nodes
    ensures forall q :: q in fs.nodes && !InTree(dst, q) ==> CopyTree(fs, src, dst).value.nodes[q] == fs.nodes[q]
    ensures WellFormed(fs) ==> WellFormed(CopyTree(fs, src, dst).value)
  {
    var f := MakeDirs(fs, DirName(dst)).value;
    var r := CopyTree(fs, src, dst).value;
    var c := Copied(fs.nodes, src, dst);
    assert r.nodes == f.nodes + c;
    forall t | t in f.nodes ensures !InTree(dst, t) {
      if t !in fs.nodes { assert |t| <= |DirName(dst)|; }
    }
    forall t | t in r.nodes && InTree(dst, t)
      ensures src + t[|dst|..] in fs.nodes && r.nodes[t] == fs.nodes[src + t[|dst|..]]
    {
      assert t in c;
    }
    if WellFormed(fs) {
      CopyOrderCovers(f.order, fs.order, fs.nodes, src, dst);
      forall t | t in r.nodes ensures t in r.order {
        if t !in f.nodes {
          var q := src + t[|dst|..];
          assert Relocate(src, dst, q) == t;
        }
      }
    }
  }

  /** The filesystem as a mutable object. */
  class FileStore {
    var nodes: map<string, Node>
    var order: seq<string>

    function State(): Fs
      reads this
    {
      Fs(nodes, order)
    }

    constructor (fs: Fs)
      ensures State() == fs
    {
      nodes, order := fs.nodes, fs.order;
    }

    method Apply(r: Option<Fs>) returns (ok: bool)
      modifies this
      ensures ok == r.Some?
      ensures State() == if r.Some? then r.value else old(State())
    {
      ok := r.Some?;
      if ok {
        nodes, order := r.value.nodes, r.value.order;
      }
    }

    method DeleteTree(p: string) returns (ok: bool)
      modifies this
      ensures ok == RemoveTree(old(State()), p).Some?
      ensures State() == RemoveTree(old(State()), p).GetOr(old(State()))
    {
      ok := Apply(RemoveTree(State(), p));
    }

    method DeleteFile(p: string) returns (ok: bool)
      modifies this
      ensures ok == RemoveFile(old(State()), p).Some?
      ensures State() == RemoveFile(old(State()), p).GetOr(old(State()))
    {
      ok := Apply(RemoveFile(State(), p));
    }

    method CreateDirs(p: string) returns (ok: bool)
      modifies this
      ensures ok == MakeDirs(old(State()), p).Some?
      ensures State() == MakeDirs(old(State()), p).GetOr(old(State()))
    {
      ok := Apply(MakeDirs(State(), p));
    }

    method CreateDir(dir: string, name: string) returns (ok: bool)
      modifies this
      ensures ok == MakeDir(old(State()), dir, name).Some?
      ensures State() == MakeDir(old(State()), dir, name).GetOr(old(State()))
    {
      ok := Apply(MakeDir(State(), dir, name));
    }

    method Write(dir: string, name: string, c: Content) returns (ok: bool)
      modifies this
      ensures ok == WriteFile(old(State()), dir, name, c).Some?
      ensures State() == WriteFile(old(State()), dir, name, c).GetOr(old(State()))
    {
      ok := Apply(WriteFile(State(), dir, name, c));
    }

    method Copy(src: string, dst: string) returns (ok: bool)
      modifies this
      ensures ok == CopyTree(old(State()), src, dst).Some?
      ensures State() == CopyTree(old(State()), src, dst).GetOr(old(State()))
    {
      ok := Apply(CopyTree(State(), src, dst));
    }

    method Extract(zip: string, target: string) returns (ok: bool)
      modifies this
      ensures ok == ExtractZip(old(State()), zip, target).Some?
      ensures State() == ExtractZip(old(State()), zip, target).GetOr(old(State()))
    {
      ok := Apply(ExtractZip(State(), zip, target));
    }
  }
}
