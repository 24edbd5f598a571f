/** An in-memory stand-in for the `os` calls the engine makes: ReadDir, ReadFile,
    Stat, WriteFile, MkdirAll and Rename.  A tree is a finite map from a
    normalised path (its list of components) to a node; a directory node keeps
    its listing sorted by name, which is the order `os.ReadDir` returns. */
module FileSystem {
  import opened Errors
  import opened GoStrings

  type Path = seq<string>

  datatype Node = File(data: string) | Dir(entries: seq<string>)

  type Tree = map<Path, Node>

  /** What `os.ReadDir` returns per entry. */
  datatype DirEntry = DirEntry(name: string, isDir: bool)

  /** A name a directory can list. */
  predicate ValidName(n: string)
  {
    n != "" && n != "." && n != ".." && '/' !in n
  }

  predicate ValidPath(p: Path)
  {
    forall i :: 0 <= i < |p| ==> ValidName(p[i])
  }

  // ---------------------------------------------------------------------------
  // Path resolution: the kernel ignores empty and "." components, so
  // ".vc/keys/./a" and ".//a" name the same files as ".vc/keys/a" and "a".

  function Components(parts: seq<string>): Path
    decreases |parts|
  {
    if parts == [] then []
    else (if parts[0] == "" || parts[0] == "." then [] else [parts[0]]) + Components(parts[1..])
  }

  function Resolve(path: string): Path
  {
    Components(Split(path, '/'))
  }

  lemma {:induction false} ComponentsConcat(a: seq<string>, b: seq<string>)
    ensures Components(a + b) == Components(a) + Components(b)
    decreases |a|
  {
    if a == [] {
      assert a + b == b;
    } else {
      assert (a + b)[0] == a[0];
      assert (a + b)[1..] == a[1..] + b;
      ComponentsConcat(a[1..], b);
    }
  }

  /** Joining two paths with a slash concatenates their components. */
  lemma ResolveConcat(a: string, b: string)
    ensures Resolve(a + "/" + b) == Resolve(a) + Resolve(b)
  {
    SplitConcat(a, '/', b);
    ComponentsConcat(Split(a, '/'), Split(b, '/'));
  }

  lemma ResolveName(n: string)
    requires ValidName(n)
    ensures Resolve(n) == [n]
  {
    SplitNoSepIsSingleton(n, '/');
    assert [n][1..] == [];
    assert Components([n]) == [n] + Components([]);
  }

  /** `dir + "/" + name` resolves to the child `name` of `dir`. */
  lemma ResolveChild(dir: string, n: string)
    requires ValidName(n)
    ensures Resolve(dir + "/" + n) == Resolve(dir) + [n]
  {
    ResolveConcat(dir, n);
    ResolveName(n);
  }

  /** A trailing slash does not change what a path names. */
  lemma ResolveTrailingSlash(dir: string)
    ensures Resolve(dir + "/") == Resolve(dir)
  {
    ResolveConcat(dir, "");
    assert dir + "/" + "" == dir + "/";
  }

  // ---------------------------------------------------------------------------
  // Sorted listings

  predicate StrictlySorted(s: seq<string>)
  {
    forall i, j :: 0 <= i < j < |s| ==> LexLess(s[i], s[j])
  }

  /** Adds `x` to a sorted listing, keeping it sorted; no change if present. */
  function Insert(s: seq<string>, x: string): seq<string>
    decreases |s|
  {
    if s == [] then [x]
    else if s[0] == x then s
    else if LexLess(x, s[0]) then [x] + s
    else [s[0]] + Insert(s[1..], x)
  }

  lemma {:induction false} InsertSorted(s: seq<string>, x: string)
    requires StrictlySorted(s)
    ensures StrictlySorted(Insert(s, x))
    ensures forall y :: y in Insert(s, x) <==> y in s || y == x
    decreases |s|
  {
    if s != [] && s[0] != x {
      if LexLess(x, s[0]) {
        forall i, j | 0 <= i < j < |[x] + s| ensures LexLess(([x] + s)[i], ([x] + s)[j]) {
          if i == 0 && j > 1 {
            LexLessTransitive(x, s[0], s[j - 1]);
          }
        }
      } else {
        InsertSorted(s[1..], x);
        LexLessTotal(x, s[0]);
        var r := [s[0]] + Insert(s[1..], x);
        forall j | 0 < j < |r| ensures LexLess(s[0], r[j]) {
          assert r[j] in Insert(s[1..], x);
          if r[j] != x {
            var k :| 0 <= k < |s[1..]| && s[1..][k] == r[j];
            assert s[k + 1] == r[j];
          }
        }
      }
    }
  }

  /** Removes `x` from a listing. */
  function Remove(s: seq<string>, x: string): seq<string>
    decreases |s|
  {
    if s == [] then []
    else if s[0] == x then Remove(s[1..], x)
    else [s[0]] + Remove(s[1..], x)
  }

  lemma {:induction false} RemoveSorted(s: seq<string>, x: string)
    requires StrictlySorted(s)
    ensures StrictlySorted(Remove(s, x))
    ensures forall y :: y in Remove(s, x) <==> y in s && y != x
    decreases |s|
  {
    if s != [] {
      RemoveSorted(s[1..], x);
      if s[0] != x {
        var r := [s[0]] + Remove(s[1..], x);
        forall j | 0 < j < |r| ensures LexLess(s[0], r[j]) {
          assert r[j] in Remove(s[1..], x);
          var k :| 0 <= k < |s[1..]| && s[1..][k] == r[j];
          assert s[k + 1] == r[j];
        }
      }
    }
  }

  // ---------------------------------------------------------------------------
  // Well-formed trees

  function Parent(p: Path): Path
    requires p != []
  {
    p[..|p| - 1]
  }

  lemma ParentLast(p: Path)
    requires p != []
    ensures Parent(p) + [Last(p)] == p
  {
  }

  function Last(p: Path): string
    requires p != []
  {
    p[|p| - 1]
  }

  ghost predicate SortedDirs(t: Tree)
  {
    forall p | p in t && t[p].Dir? :: StrictlySorted(t[p].entries)
  }

  ghost predicate ChildrenExist(t: Tree)
  {
    forall p, n | p in t && t[p].Dir? && n in t[p].entries :: ValidName(n) && p + [n] in t
  }

  ghost predicate ParentsList(t: Tree)
  {
    forall p {:trigger Parent(p)} | p in t && p != [] :: Parent(p) in t && t[Parent(p)].Dir? && Last(p) in t[Parent(p)].entries
  }

  /** The shape every real directory tree has: a root directory, sorted
      listings, listed children that exist, and every node listed by its
      parent directory. */
  ghost predicate WellFormed(t: Tree)
  {
    && [] in t && t[[]].Dir?
    && SortedDirs(t)
    && ChildrenExist(t)
    && ParentsList(t)
  }

  // ---------------------------------------------------------------------------
  // Reading

  /** The error for a path that is not in the tree: ENOTDIR when one of its
      ancestors is a regular file, ENOENT otherwise. */
  function MissingKind(t: Tree, p: Path): IoKind
  {
    if exists k | 0 <= k < |p| :: p[..k] in t && t[p[..k]].File? then NotDir else NotExist
  }

  function Listing(t: Tree, p: Path, names: seq<string>): (r: seq<DirEntry>)
    ensures |r| == |names|
    ensures forall i :: 0 <= i < |r| ==> r[i].name == names[i]
  {
    seq(|names|, i requires 0 <= i < |names| =>
      DirEntry(names[i], p + [names[i]] in t && t[p + [names[i]]].Dir?))
  }

  /** `os.ReadDir`: the entries of a directory, sorted by name. */
  function ReadDir(t: Tree, path: string): Result<seq<DirEntry>>
  {
    var p := Resolve(path);
    if p !in t then Err(IoError(MissingKind(t, p), path))
    else match t[p]
      case File(_) => Err(IoError(NotDir, path))
      case Dir(names) => Ok(Listing(t, p, names))
  }

  /** `os.ReadFile`. */
  function ReadFile(t: Tree, path: string): Result<string>
  {
    var p := Resolve(path);
    if p !in t then Err(IoError(MissingKind(t, p), path))
    else match t[p]
      case File(data) => Ok(data)
      case Dir(_) => Err(IoError(IsDir, path))
  }

  /** `os.Stat(path)` returns no error. */
  predicate Exists(t: Tree, path: string)
  {
    Resolve(path) in t
  }

  function Names(es: seq<DirEntry>): (r: seq<string>)
    ensures |r| == |es|
    ensures forall i :: 0 <= i < |r| ==> r[i] == es[i].name
  {
    seq(|es|, i requires 0 <= i < |es| => es[i].name)
  }

  // ---------------------------------------------------------------------------
  // Writing

  /** `os.WriteFile`: creates or truncates a regular file whose parent
      directory exists. */
  function WriteFileIn(t: Tree, path: string, data: string): Result<Tree>
  {
    var p := Resolve(path);
    if p == [] || !ValidPath(p) then Err(IoError(if p == [] then IsDir else Invalid, path))
    else if Parent(p) !in t then Err(IoError(MissingKind(t, Parent(p)), path))
    else if t[Parent(p)].File? then Err(IoError(NotDir, path))
    else if p in t && t[p].Dir? then Err(IoError(IsDir, path))
    else Ok(t[p := File(data)][Parent(p) := Dir(Insert(t[Parent(p)].entries, Last(p)))])
  }

  /** `os.MkdirAll` on resolved components: creates every missing ancestor,
      fails with ENOTDIR when one of them is a regular file. */
  function MkdirAllIn(t: Tree, p: Path): Result<Tree>
    decreases |p|
  {
    if p == [] then
      if [] in t && t[[]].Dir? then Ok(t) else Err(IoError(NotDir, "/"))
    else if !ValidName(Last(p)) then Err(IoError(Invalid, Last(p)))
    else
      var t1 :- MkdirAllIn(t, Parent(p));
      if p in t1 then
        if t1[p].Dir? then Ok(t1) else Err(IoError(NotDir, Last(p)))
      else if Parent(p) in t1 && t1[Parent(p)].Dir? then
        Ok(t1[p := Dir([])][Parent(p) := Dir(Insert(t1[Parent(p)].entries, Last(p)))])
      else Err(IoError(NotDir, Last(p)))
  }

  lemma ReRootInjective(p: Path, q: Path)
    ensures forall s1: Path, s2: Path | p <= s1 && p <= s2 && q + s1[|p|..] == q + s2[|p|..] :: s1 == s2
  {
    forall s1: Path, s2: Path | p <= s1 && p <= s2 && q + s1[|p|..] == q + s2[|p|..]
      ensures s1 == s2
    {
      assert s1[|p|..] == (q + s1[|p|..])[|q|..];
      assert s2[|p|..] == (q + s2[|p|..])[|q|..];
      assert s1 == s1[..|p|] + s1[|p|..];
      assert s2 == s2[..|p|] + s2[|p|..];
    }
  }

  /** The subtree under `p`, re-rooted under `q`. */
  function Moved(t: Tree, p: Path, q: Path): Tree
  {
    ReRootInjective(p, q);
    map s | s in t && p <= s :: q + s[|p|..] := t[s]
  }

  /** Everything outside the subtree under `p`. */
  function Kept(t: Tree, p: Path): Tree
  {
    map s | s in t && !(p <= s) :: t[s]
  }

  /** When `os.Rename(p, q)` succeeds on two different paths. */
  predicate RenameOk(t: Tree, p: Path, q: Path)
  {
    && p != [] && q != [] && ValidPath(q) && p != q && !(p <= q)
    && p in t && q !in t
    && Parent(p) in t && t[Parent(p)].Dir?
    && Parent(q) in t && t[Parent(q)].Dir?
  }

  /** The tree after moving the subtree at `p` to `q`. */
  function Renamed(t: Tree, p: Path, q: Path): Tree
    requires RenameOk(t, p, q)
  {
    var t1 := Kept(t, p)[Parent(p) := Dir(Remove(t[Parent(p)].entries, Last(p)))];
    var t2 := t1 + Moved(t, p, q);
    t2[Parent(q) := Dir(Insert(t2[Parent(q)].entries, Last(q)))]
  }

  /** `os.Rename`: moves the node at `from`, with everything under it, to
      `to`, whose parent directory must exist.  An existing `to` is always
      an error here; POSIX `rename` would replace an existing file, or an
      empty folder when a folder is moved. */
  function RenameIn(t: Tree, from: string, to: string): Result<Tree>
  {
    var p := Resolve(from);
    var q := Resolve(to);
    if p == [] || q == [] || !ValidPath(q) then Err(IoError(Invalid, to))
    else if p !in t then Err(IoError(MissingKind(t, p), from))
    else if p == q then Ok(t)
    else if p <= q then Err(IoError(Invalid, to))
    else if Parent(q) !in t then Err(IoError(MissingKind(t, Parent(q)), to))
    else if t[Parent(q)].File? then Err(IoError(NotDir, to))
    else if q in t then Err(IoError(AlreadyExists, to))
    else if Parent(p) !in t || t[Parent(p)].File? then Err(IoError(NotExist, from))
    else Ok(Renamed(t, p, q))
  }

  // ---------------------------------------------------------------------------
  // Writing keeps a tree well formed

  /** Adding a file or an empty directory `par + [name]` to a well-formed
      tree, and listing it in `par`, keeps the tree well formed. */
  function AddChild(t: Tree, par: Path, name: string, node: Node): Tree
    requires par in t && t[par].Dir?
  {
    t[par + [name] := node][par := Dir(Insert(t[par].entries, name))]
  }

  predicate Addable(t: Tree, par: Path, name: string, node: Node)
  {
    && par in t && t[par].Dir? && ValidName(name)
    && (node.Dir? ==> node.entries == [] && par + [name] !in t)
    && (node.File? ==> par + [name] !in t || t[par + [name]].File?)
  }

  lemma AddChildSorted(t: Tree, par: Path, name: string, node: Node)
    requires WellFormed(t) && Addable(t, par, name, node)
    ensures SortedDirs(AddChild(t, par, name, node))
  {
    InsertSorted(t[par].entries, name);
  }

  lemma AddChildChildren(t: Tree, par: Path, name: string, node: Node)
    requires WellFormed(t) && Addable(t, par, name, node)
    ensures ChildrenExist(AddChild(t, par, name, node))
  {
    var t' := AddChild(t, par, name, node);
    var es := t[par].entries;
    InsertSorted(es, name);
    forall r, n | r in t' && t'[r].Dir? && n in t'[r].entries
      ensures ValidName(n) && r + [n] in t'
    {
      if r == par {
        if n != name {
          assert n in es;
        }
      } else if r != par + [name] {
        assert r in t && t[r] == t'[r];
      }
    }
  }

  lemma AddChildParents(t: Tree, par: Path, name: string, node: Node)
    requires WellFormed(t) && Addable(t, par, name, node)
    ensures ParentsList(AddChild(t, par, name, node))
  {
    var t' := AddChild(t, par, name, node);
    var p := par + [name];
    assert Parent(p) == par && Last(p) == name;
    InsertSorted(t[par].entries, name);
    forall r | r in t' && r != []
      ensures Parent(r) in t' && t'[Parent(r)].Dir? && Last(r) in t'[Parent(r)].entries
    {
      if r != p {
        assert r in t;
        if Parent(r) == p {
          assert false;
        }
      }
    }
  }

  lemma AddChildWellFormed(t: Tree, par: Path, name: string, node: Node)
    requires WellFormed(t) && Addable(t, par, name, node)
    ensures WellFormed(AddChild(t, par, name, node))
  {
    AddChildSorted(t, par, name, node);
    AddChildChildren(t, par, name, node);
    AddChildParents(t, par, name, node);
  }

  lemma WriteFileWellFormed(t: Tree, path: string, data: string)
    requires WellFormed(t)
    requires WriteFileIn(t, path, data).Ok?
    ensures WellFormed(WriteFileIn(t, path, data).value)
  {
    var p := Resolve(path);
    var par, name := Parent(p), Last(p);
    ParentLast(p);
    assert ValidName(name) by { assert ValidPath(p); }
    assert Addable(t, par, name, File(data));
    AddChildWellFormed(t, par, name, File(data));
    assert WriteFileIn(t, path, data).value == AddChild(t, par, name, File(data));
  }

  /** A file just written reads back as the data written. */
  lemma WriteThenRead(t: Tree, path: string, data: string)
    requires WriteFileIn(t, path, data).Ok?
    ensures ReadFile(WriteFileIn(t, path, data).value, path) == Ok(data)
  {
  }

  /** One step of MkdirAll, for a path whose ancestors were created. */
  lemma MkdirAllStep(t: Tree, p: Path)
    requires p != [] && MkdirAllIn(t, p).Ok?
    ensures MkdirAllIn(t, Parent(p)).Ok?
    ensures ValidName(Last(p))
    ensures var t1 := MkdirAllIn(t, Parent(p)).value;
      if p in t1 then t1[p].Dir? && MkdirAllIn(t, p).value == t1
      else Parent(p) in t1 && t1[Parent(p)].Dir? && MkdirAllIn(t, p).value == AddChild(t1, Parent(p), Last(p), Dir([]))
  {
    assert Parent(p) + [Last(p)] == p;
  }

  lemma {:induction false} MkdirAllWellFormed(t: Tree, p: Path)
    requires WellFormed(t)
    requires MkdirAllIn(t, p).Ok?
    ensures WellFormed(MkdirAllIn(t, p).value)
    ensures p in MkdirAllIn(t, p).value && MkdirAllIn(t, p).value[p].Dir?
    decreases |p|
  {
    if p != [] {
      MkdirAllStep(t, p);
      MkdirAllWellFormed(t, Parent(p));
      var t1 := MkdirAllIn(t, Parent(p)).value;
      if p !in t1 {
        AddDirWellFormed(t1, p);
      }
    }
  }

  /** Creating the missing directory `p` under an existing directory keeps
      a tree well formed. */
  lemma AddDirWellFormed(t: Tree, p: Path)
    requires WellFormed(t) && p != [] && p !in t && ValidName(Last(p))
    requires Parent(p) in t && t[Parent(p)].Dir?
    ensures var t' := AddChild(t, Parent(p), Last(p), Dir([]));
      WellFormed(t') && p in t' && t'[p].Dir?
  {
    ParentLast(p);
    assert Addable(t, Parent(p), Last(p), Dir([]));
    AddChildWellFormed(t, Parent(p), Last(p), Dir([]));
  }

  /** MkdirAll only adds directories, and only ancestors of the path it
      creates; no regular file changes. */
  lemma {:induction false} MkdirAllOnlyAdds(t: Tree, p: Path)
    requires MkdirAllIn(t, p).Ok?
    ensures forall s | s in t :: s in MkdirAllIn(t, p).value
    ensures forall s | s in t && t[s].File? :: MkdirAllIn(t, p).value[s] == t[s]
    ensures forall s | s in MkdirAllIn(t, p).value && s !in t :: s <= p
    decreases |p|
  {
    if p != [] {
      MkdirAllStep(t, p);
      MkdirAllOnlyAdds(t, Parent(p));
      var t1 := MkdirAllIn(t, Parent(p)).value;
      if p !in t1 {
        var par, name := Parent(p), Last(p);
        assert p == par + [name];
        var t' := AddChild(t1, par, name, Dir([]));
        forall s | s in t' && s !in t ensures s <= p {
          if s != p && s != par {
            assert s in t1;
          }
        }
      }
    }
  }

  /** Nothing lies under a path that does not exist. */
  lemma {:induction false} NoDescendants(t: Tree, q: Path, s: Path)
    requires ParentsList(t) && q !in t && q <= s
    ensures s !in t
    decreases |s|
  {
    if s in t && s != q {
      assert q <= Parent(s);
      NoDescendants(t, q, Parent(s));
    }
  }

  /** The keys and nodes of a moved subtree. */
  lemma MovedKeys(t: Tree, p: Path, q: Path)
    ensures forall s | s in Moved(t, p, q) :: q <= s && p + s[|q|..] in t && Moved(t, p, q)[s] == t[p + s[|q|..]]
  {
    ReRootInjective(p, q);
    forall s | s in Moved(t, p, q) ensures q <= s && p + s[|q|..] in t && Moved(t, p, q)[s] == t[p + s[|q|..]] {
      var w :| w in t && p <= w && s == q + w[|p|..];
      assert s[|q|..] == w[|p|..];
      assert p + w[|p|..] == w;
      assert q <= s;
      assert p + s[|q|..] in t;
      assert Moved(t, p, q)[s] == t[w];
    }
  }

  lemma MovedCovers(t: Tree, p: Path, q: Path)
    ensures forall u | p + u in t :: q + u in Moved(t, p, q) && Moved(t, p, q)[q + u] == t[p + u]
  {
    ReRootInjective(p, q);
    forall u | p + u in t ensures q + u in Moved(t, p, q) && Moved(t, p, q)[q + u] == t[p + u] {
      var w := p + u;
      assert p <= w && w[|p|..] == u;
      assert q + w[|p|..] in Moved(t, p, q);
      assert Moved(t, p, q)[q + w[|p|..]] == t[w];
    }
  }

  lemma RenamedParts(t: Tree, p: Path, q: Path)
    requires WellFormed(t) && RenameOk(t, p, q)
    ensures Parent(p) !in Moved(t, p, q) && Parent(q) !in Moved(t, p, q)
    ensures !(p <= Parent(q)) && !(p <= Parent(p))
    ensures forall s | s in t :: !(q <= s)
    ensures forall s | s in Moved(t, p, q) :: q <= s && p + s[|q|..] in t && Moved(t, p, q)[s] == t[p + s[|q|..]]
    ensures forall u | p + u in t :: q + u in Moved(t, p, q) && Moved(t, p, q)[q + u] == t[p + u]
  {
    MovedKeys(t, p, q);
    MovedCovers(t, p, q);
    forall s | s in t ensures !(q <= s) {
      if q <= s {
        NoDescendants(t, q, s);
      }
    }
  }

  lemma RenamedSortedAt(t: Tree, p: Path, q: Path, r: Path)
    requires RenameOk(t, p, q) && SortedDirs(t)
    requires Parent(p) !in Moved(t, p, q) && Parent(q) !in Moved(t, p, q)
    requires forall s | s in t :: !(q <= s)
    requires r in Renamed(t, p, q) && Renamed(t, p, q)[r].Dir?
    ensures StrictlySorted(Renamed(t, p, q)[r].entries)
  {
    RenamedLookup(t, p, q, r);
    var es := t[Parent(p)].entries;
    RemoveSorted(es, Last(p));
    InsertSorted(Remove(es, Last(p)), Last(q));
    InsertSorted(t[Parent(q)].entries, Last(q));
  }

  lemma RenamedSorted(t: Tree, p: Path, q: Path)
    requires WellFormed(t) && RenameOk(t, p, q)
    ensures SortedDirs(Renamed(t, p, q))
  {
    RenamedParts(t, p, q);
    var t3 := Renamed(t, p, q);
    forall r | r in t3 && t3[r].Dir? ensures StrictlySorted(t3[r].entries) {
      RenamedSortedAt(t, p, q, r);
    }
  }


  /** What a renamed tree holds at a path, case by case. */
  lemma RenamedLookup(t: Tree, p: Path, q: Path, r: Path)
    requires RenameOk(t, p, q) && r in Renamed(t, p, q)
    requires Parent(p) !in Moved(t, p, q) && Parent(q) !in Moved(t, p, q)
    requires forall s | s in t :: !(q <= s)
    ensures r == Parent(q) && Parent(q) == Parent(p) ==>
      Renamed(t, p, q)[r] == Dir(Insert(Remove(t[Parent(p)].entries, Last(p)), Last(q)))
    ensures r == Parent(q) && Parent(q) != Parent(p) ==>
      Renamed(t, p, q)[r] == Dir(Insert(t[Parent(q)].entries, Last(q)))
    ensures r != Parent(q) && r == Parent(p) ==>
      Renamed(t, p, q)[r] == Dir(Remove(t[Parent(p)].entries, Last(p)))
    ensures r != Parent(q) && r != Parent(p) && q <= r ==>
      p + r[|q|..] in t && Renamed(t, p, q)[r] == t[p + r[|q|..]]
    ensures r != Parent(q) && r != Parent(p) && !(q <= r) ==>
      r in t && !(p <= r) && Renamed(t, p, q)[r] == t[r]
  {
    MovedKeys(t, p, q);
    assert !(p <= Parent(q));
  }

  /** What a renamed tree contains. */
  lemma RenamedHas(t: Tree, p: Path, q: Path, r: Path)
    requires RenameOk(t, p, q)
    requires (r in t && !(p <= r)) || (q <= r && p + r[|q|..] in t)
    ensures r in Renamed(t, p, q)
  {
    MovedCovers(t, p, q);
    if q <= r && p + r[|q|..] in t {
      assert q + r[|q|..] == r;
    }
  }

  /** A path one below `r` is under `p` only if `r` is, or it is `p` itself. */
  lemma PrefixOfChild(p: Path, r: Path, n: string)
    requires p <= r + [n] && !(p <= r)
    ensures p == r + [n]
  {
  }

  /** A listed child of a directory outside the moved subtree is kept. */
  lemma KeptChild(t: Tree, p: Path, q: Path, r: Path, n: string)
    requires RenameOk(t, p, q) && ChildrenExist(t)
    requires r in t && t[r].Dir? && n in t[r].entries && !(p <= r)
    requires r + [n] != p
    ensures ValidName(n) && r + [n] in Renamed(t, p, q)
  {
    if p <= r + [n] {
      PrefixOfChild(p, r, n);
    }
    RenamedHas(t, p, q, r + [n]);
  }

  /** A listed child of a moved directory is moved with it. */
  lemma MovedChild(t: Tree, p: Path, q: Path, u: Path, n: string)
    requires RenameOk(t, p, q) && ChildrenExist(t)
    requires p + u in t && t[p + u].Dir? && n in t[p + u].entries
    ensures ValidName(n) && (q + u) + [n] in Renamed(t, p, q)
  {
    assert (p + u) + [n] == p + (u + [n]);
    assert ((q + u) + [n])[|q|..] == u + [n];
    RenamedHas(t, p, q, (q + u) + [n]);
  }

  /** The listings of the two parent directories after the move: the source
      parent loses the old name, the destination parent gains the new one. */
  lemma RenamedParentEntries(t: Tree, p: Path, q: Path, r: Path, n: string)
    requires RenameOk(t, p, q) && SortedDirs(t)
    requires Parent(p) !in Moved(t, p, q) && Parent(q) !in Moved(t, p, q)
    requires forall s | s in t :: !(q <= s)
    requires r == Parent(q) || r == Parent(p)
    ensures r in Renamed(t, p, q) && Renamed(t, p, q)[r].Dir?
    ensures n in Renamed(t, p, q)[r].entries <==>
      (r == Parent(q) && n == Last(q)) || (n in t[r].entries && (r == Parent(p) ==> n != Last(p)))
  {
    RenamedHas(t, p, q, r);
    RenamedLookup(t, p, q, r);
    var es := t[Parent(p)].entries;
    RemoveSorted(es, Last(p));
    if Parent(q) == Parent(p) {
      InsertSorted(Remove(es, Last(p)), Last(q));
    } else {
      InsertSorted(t[Parent(q)].entries, Last(q));
    }
  }

  lemma RenamedChildOfParent(t: Tree, p: Path, q: Path, r: Path, n: string)
    requires RenameOk(t, p, q) && SortedDirs(t) && ChildrenExist(t)
    requires Parent(p) !in Moved(t, p, q) && Parent(q) !in Moved(t, p, q)
    requires forall s | s in t :: !(q <= s)
    requires r == Parent(q) || r == Parent(p)
    requires n in Renamed(t, p, q)[r].entries
    ensures ValidName(n) && r + [n] in Renamed(t, p, q)
  {
    RenamedParentEntries(t, p, q, r, n);
    if r == Parent(q) && n == Last(q) {
      ParentLast(q);
      MovedRoot(p, q);
      RenamedHas(t, p, q, q);
    } else {
      ChildNotPath(r, n, p);
      KeptChild(t, p, q, r, n);
    }
  }

  /** The moved subtree's root `q` is re-rooted from `p` itself. */
  lemma MovedRoot(p: Path, q: Path)
    ensures q <= q && p + q[|q|..] == p
  {
    assert q[|q|..] == [];
  }

  /** `r + [n]` is `p` only if `r` is `p`'s parent and `n` its last name. */
  lemma ChildNotPath(r: Path, n: string, p: Path)
    requires p != [] && (r != Parent(p) || n != Last(p))
    ensures r + [n] != p
  {
    var c := r + [n];
    assert c[..|r|] == r && c[|r|] == n;
  }

  lemma RenamedChildElsewhere(t: Tree, p: Path, q: Path, r: Path, n: string)
    requires RenameOk(t, p, q) && ChildrenExist(t)
    requires Parent(p) !in Moved(t, p, q) && Parent(q) !in Moved(t, p, q)
    requires forall s | s in t :: !(q <= s)
    requires r != Parent(q) && r != Parent(p)
    requires r in Renamed(t, p, q) && Renamed(t, p, q)[r].Dir? && n in Renamed(t, p, q)[r].entries
    ensures ValidName(n) && r + [n] in Renamed(t, p, q)
  {
    RenamedLookup(t, p, q, r);
    if q <= r {
      var u := r[|q|..];
      assert q + u == r;
      MovedChild(t, p, q, u, n);
    } else {
      KeptChild(t, p, q, r, n);
    }
  }

  lemma RenamedChildren(t: Tree, p: Path, q: Path)
    requires WellFormed(t) && RenameOk(t, p, q)
    ensures ChildrenExist(Renamed(t, p, q))
  {
    var t3 := Renamed(t, p, q);
    RenamedParts(t, p, q);
    forall r, n | r in t3 && t3[r].Dir? && n in t3[r].entries
      ensures ValidName(n) && r + [n] in t3
    {
      if r == Parent(q) || r == Parent(p) {
        RenamedChildOfParent(t, p, q, r, n);
      } else {
        RenamedChildElsewhere(t, p, q, r, n);
      }
    }
  }

  /** A kept path's parent still lists it. */
  lemma RenamedParentOfKept(t: Tree, p: Path, q: Path, s: Path)
    requires RenameOk(t, p, q) && SortedDirs(t)
    requires Parent(p) !in Moved(t, p, q) && Parent(q) !in Moved(t, p, q)
    requires forall s | s in t :: !(q <= s)
    requires s in t && !(p <= s) && s != []
    requires Parent(s) in t && t[Parent(s)].Dir? && Last(s) in t[Parent(s)].entries
    ensures Parent(s) in Renamed(t, p, q) && Renamed(t, p, q)[Parent(s)].Dir?
    ensures Last(s) in Renamed(t, p, q)[Parent(s)].entries
  {
    var r := Parent(s);
    if r == Parent(q) || r == Parent(p) {
      if r == Parent(p) {
        SiblingsDiffer(s, p);
      }
      RenamedParentEntries(t, p, q, r, Last(s));
    } else {
      RenamedKeptDir(t, p, q, r);
    }
  }

  /** Two different paths with the same parent have different last names. */
  lemma SiblingsDiffer(s: Path, p: Path)
    requires s != [] && p != [] && Parent(s) == Parent(p) && s != p
    ensures Last(s) != Last(p)
  {
    ParentLast(s);
    ParentLast(p);
  }

  /** A directory outside the moved subtree and away from both parents is
      unchanged. */
  lemma RenamedKeptDir(t: Tree, p: Path, q: Path, r: Path)
    requires RenameOk(t, p, q)
    requires Parent(p) !in Moved(t, p, q) && Parent(q) !in Moved(t, p, q)
    requires forall s | s in t :: !(q <= s)
    requires r in t && !(p <= r) && r != Parent(q) && r != Parent(p)
    ensures r in Renamed(t, p, q) && Renamed(t, p, q)[r] == t[r]
  {
    RenamedHas(t, p, q, r);
    RenamedLookup(t, p, q, r);
  }

  /** A moved path's parent is moved with it and still lists it. */
  lemma RenamedParentOfMoved(t: Tree, p: Path, q: Path, u: Path)
    requires RenameOk(t, p, q) && ParentsList(t)
    requires Parent(p) !in Moved(t, p, q) && Parent(q) !in Moved(t, p, q)
    requires forall s | s in t :: !(q <= s)
    requires p + u in t && u != []
    ensures Parent(q + u) in Renamed(t, p, q) && Renamed(t, p, q)[Parent(q + u)].Dir?
    ensures Last(q + u) in Renamed(t, p, q)[Parent(q + u)].entries
  {
    var w := p + u;
    assert Parent(w) == p + Parent(u) && Last(w) == Last(u) == Last(q + u);
    var r := Parent(q + u);
    assert r == q + Parent(u) && r[|q|..] == Parent(u);
    RenamedHas(t, p, q, r);
    RenamedLookup(t, p, q, r);
    assert r != Parent(p) && r != Parent(q);
  }

  lemma RenamedParentAt(t: Tree, p: Path, q: Path, s: Path)
    requires RenameOk(t, p, q) && SortedDirs(t) && ParentsList(t)
    requires Parent(p) !in Moved(t, p, q) && Parent(q) !in Moved(t, p, q)
    requires forall s | s in t :: !(q <= s)
    requires !(p <= Parent(q))
    requires s in Renamed(t, p, q) && s != []
    ensures Parent(s) in Renamed(t, p, q) && Renamed(t, p, q)[Parent(s)].Dir?
    ensures Last(s) in Renamed(t, p, q)[Parent(s)].entries
  {
    RenamedLookup(t, p, q, s);
    if s == q {
      RenamedParentEntries(t, p, q, Parent(q), Last(q));
    } else if s == Parent(q) || s == Parent(p) || !(q <= s) {
      RenamedParentOfKept(t, p, q, s);
    } else {
      var u := s[|q|..];
      assert q + u == s;
      RenamedParentOfMoved(t, p, q, u);
    }
  }

  lemma RenamedParents(t: Tree, p: Path, q: Path)
    requires WellFormed(t) && RenameOk(t, p, q)
    ensures ParentsList(Renamed(t, p, q))
  {
    var t3 := Renamed(t, p, q);
    RenamedParts(t, p, q);
    forall s | s in t3 && s != []
      ensures Parent(s) in t3 && t3[Parent(s)].Dir? && Last(s) in t3[Parent(s)].entries
    {
      RenamedParentAt(t, p, q, s);
    }
  }

  lemma RenameWellFormed(t: Tree, from: string, to: string)
    requires WellFormed(t) && RenameIn(t, from, to).Ok?
    ensures WellFormed(RenameIn(t, from, to).value)
  {
    var p, q := Resolve(from), Resolve(to);
    if p != q {
      assert RenameOk(t, p, q);
      RenamedSorted(t, p, q);
      RenamedChildren(t, p, q);
      RenamedParents(t, p, q);
      assert [] in Kept(t, p);
    }
  }

  /** The process's view of the disk. */
  class FileSystem {
    var tree: Tree

    ghost predicate Valid()
      reads this
    {
      WellFormed(tree)
    }

    constructor (t: Tree)
      requires WellFormed(t)
      ensures tree == t && Valid()
    {
      tree := t;
    }

    method WriteFile(path: string, data: string) returns (err: Option<Error>)
      modifies this
      ensures WriteFileIn(old(tree), path, data).Ok? ==> err == None && tree == WriteFileIn(old(tree), path, data).value
      ensures WriteFileIn(old(tree), path, data).Err? ==> err == Some(WriteFileIn(old(tree), path, data).error) && tree == old(tree)
    {
      var r := WriteFileIn(tree, path, data);
      if r.Ok? {
        tree := r.value;
        err := None;
      } else {
        err := Some(r.error);
      }
    }

    method MkdirAll(path: string) returns (err: Option<Error>)
      modifies this
      ensures MkdirAllIn(old(tree), Resolve(path)).Ok? ==> err == None && tree == MkdirAllIn(old(tree), Resolve(path)).value
      ensures MkdirAllIn(old(tree), Resolve(path)).Err? ==> err == Some(MkdirAllIn(old(tree), Resolve(path)).error) && tree == old(tree)
    {
      var r := MkdirAllIn(tree, Resolve(path));
      if r.Ok? {
        tree := r.value;
        err := None;
      } else {
        err := Some(r.error);
      }
    }

    method Rename(from: string, to: string) returns (err: Option<Error>)
      modifies this
      ensures RenameIn(old(tree), from, to).Ok? ==> err == None && tree == RenameIn(old(tree), from, to).value
      ensures RenameIn(old(tree), from, to).Err? ==> err == Some(RenameIn(old(tree), from, to).error) && tree == old(tree)
    {
      var r := RenameIn(tree, from, to);
      if r.Ok? {
        tree := r.value;
        err := None;
      } else {
        err := Some(r.error);
      }
    }
  }
}
