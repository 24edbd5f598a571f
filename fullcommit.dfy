/** `FullCommit`: the same key discovery and working-tree scan as
    `DiffForCommit`, but the scan creates missing commits folders as it
    goes, known keys without a file are moved under `.vc/deleted/<ts>`, every
    staged record is committed, and the references are written to
    `.vc/history/<ts>`.  The disk is threaded through every step. */
module Committing {
  import opened Errors
  import opened GoStrings
  import opened FileSystem
  import opened Utils
  import opened Replay
  import opened CommitIds
  import opened Walk
  import opened Scan
  import opened Discovery
  import opened Staging
  import opened Commit

  // ---------------------------------------------------------------------------
  // Writing under the key store leaves the working tree alone

  /** A well-formed disk whose key store is a folder. */
  ghost predicate StoreReady(t: Tree)
  {
    WellFormed(t) && Store in t && t[Store].Dir?
  }

  /** Two disks that agree on every node outside the key store. */
  ghost predicate SameOutside(t0: Tree, t: Tree)
  {
    forall p :: !(Store <= p) ==> (p in t0 <==> p in t) && (p in t0 ==> t[p] == t0[p])
  }

  lemma SameOutsideTrans(t0: Tree, t1: Tree, t2: Tree)
    requires SameOutside(t0, t1) && SameOutside(t1, t2)
    ensures SameOutside(t0, t2)
  {
  }

  /** MkdirAll of a folder that exists changes nothing. */
  lemma {:induction false} MkdirAllExisting(t: Tree, p: Path)
    requires WellFormed(t) && p in t && t[p].Dir?
    ensures MkdirAllIn(t, p) == Ok(t)
    decreases |p|
  {
    if p != [] {
      var par := Parent(p);
      assert par in t && t[par].Dir? && Last(p) in t[par].entries;
      assert ValidName(Last(p));
      MkdirAllExisting(t, par);
    }
  }

  /** MkdirAll of a path below an existing folder `base` touches nothing
      outside `base`, and `base` stays a folder. */
  lemma {:induction false} MkdirAllBelow(t: Tree, base: Path, p: Path)
    requires WellFormed(t) && base in t && t[base].Dir? && base <= p
    requires MkdirAllIn(t, p).Ok?
    ensures var t' := MkdirAllIn(t, p).value;
      && (forall s :: !(base <= s) ==> (s in t <==> s in t') && (s in t ==> t'[s] == t[s]))
      && base in t' && t'[base].Dir?
    decreases |p|
  {
    if p == base {
      MkdirAllExisting(t, p);
    } else {
      MkdirAllStep(t, p);
      assert base <= Parent(p);
      MkdirAllBelow(t, base, Parent(p));
    }
  }

  /** MkdirAll inside the key store keeps the disk ready and the working
      tree as it was. */
  lemma MkdirAllInStore(t: Tree, p: Path)
    requires StoreReady(t) && Store <= p && MkdirAllIn(t, p).Ok?
    ensures StoreReady(MkdirAllIn(t, p).value) && SameOutside(t, MkdirAllIn(t, p).value)
  {
    MkdirAllBelow(t, Store, p);
    MkdirAllWellFormed(t, p);
  }

  /** A visible folder, and its listing, read the same on a disk that agrees
      outside the key store. */
  lemma VisibleDirOutside(t0: Tree, t: Tree, p: Path)
    requires SameOutside(t0, t) && VisibleDir(t0, p)
    ensures p in t && t[p] == t0[p]
    ensures Listing(t, p, t0[p].entries) == Listing(t0, p, t0[p].entries)
  {
    assert !(Store <= p);
    forall n ensures !(Store <= p + [n]) {
      if p == [] {
        assert |p + [n]| == 1;
      } else {
        assert !Skipped(p[0]) && (p + [n])[0] == p[0];
      }
    }
  }

  /** A visible file reads the same on a disk that agrees outside the key
      store. */
  lemma VisibleFileOutside(t0: Tree, t: Tree, p: Path)
    requires SameOutside(t0, t) && VisibleFile(t0, p)
    ensures p in t && t[p] == t0[p]
  {
    if |p| >= 2 {
      assert !Skipped(p[0]);
    }
    assert !(Store <= p);
  }

  // ---------------------------------------------------------------------------
  // The decision for one file

  /** A file's decision: the disk afterwards, and the record staged if any. */
  datatype Outcome = Outcome(tree: Tree, record: Option<SimpleCommitStruct>)

  /** The disk after an operation whose error is ignored: its result when
      it succeeded, `t` otherwise. */
  function TreeOr(r: Result<Tree>, t: Tree): Tree
  {
    if r.Ok? then r.value else t
  }

  /** What the commit scan does for the file `key` with contents `content`.
      A binary file is staged unless some commit of the key carries its
      hash, after creating the key's commits folder (a failure stops the
      commit).  For a text file, a commits folder that cannot be listed, for
      whatever reason, is created, its failure ignored, and counts as
      empty; the file is then skipped when the latest commit carries its
      hash and otherwise staged with the content that commit replays to,
      or "" without commits.  Empty files are not skipped. */
  function FullDecide(t: Tree, key: string, content: string, hash: string -> Digest): Result<Outcome>
  {
    if Binary(content) then
      var names :- CommitNames(t, key);
      var seen :- HashSeen(names, hash(content));
      if seen then Ok(Outcome(t, None))
      else
        var t1 :- MkdirAllIn(t, Resolve(CommitsDir(key)));
        Ok(Outcome(t1, Some(SimpleCommitStruct(key, "", "", Some(content)))))
    else
      var listing := ReadDir(t, CommitsDir(key));
      var t1 := if listing.Ok? then t else TreeOr(MkdirAllIn(t, Resolve(CommitsDir(key))), t);
      var latest := Greatest(if listing.Ok? then Names(listing.value) else []);
      if latest == "" then Ok(Outcome(t1, Some(SimpleCommitStruct(key, "", content, None))))
      else
        var latestHash :- HashPart(latest);
        if latestHash == hash(content) then Ok(Outcome(t1, None))
        else
          var oldContent :- CatIn(t1, key, latest);
          Ok(Outcome(t1, Some(SimpleCommitStruct(key, oldContent, content, None))))
  }

  /** The body of the commit scan for one file, after it has been read. */
  method FullStageFile(fs: FileSystem, key: string, content: string, hash: string -> Digest)
    returns (r: Result<Option<SimpleCommitStruct>>)
    modifies fs
    ensures FullDecide(old(fs.tree), key, content, hash).Ok? ==>
      r == Ok(FullDecide(old(fs.tree), key, content, hash).value.record)
      && fs.tree == FullDecide(old(fs.tree), key, content, hash).value.tree
    ensures FullDecide(old(fs.tree), key, content, hash).Err? ==>
      r == Err(FullDecide(old(fs.tree), key, content, hash).error) && fs.tree == old(fs.tree)
  {
    var contentHash := hash(content);
    var binary := IsBinary(content);
    if binary {
      var listing := ReadDir(fs.tree, CommitsDir(key));
      if listing.Err? && !(listing.error.IoError? && listing.error.kind == NotExist) {
        return Err(listing.error);
      }
      var commitsDir := if listing.Ok? then Names(listing.value) else [];
      var seen := FindHash(commitsDir, contentHash);
      if seen.Err? {
        return Err(seen.error);
      }
      if seen.value {
        return Ok(None);
      }
      var err := fs.MkdirAll(CommitsDir(key));
      if err.Some? {
        return Err(err.value);
      }
      return Ok(Some(SimpleCommitStruct(key, "", "", Some(content))));
    }
    var commitFiles: seq<string> := [];
    var listing := ReadDir(fs.tree, CommitsDir(key));
    if listing.Err? {
      // the comparison with os.ErrNotExist never holds for the wrapped error
      var ignored := fs.MkdirAll(CommitsDir(key));
    } else {
      commitFiles := Names(listing.value);
    }
    var latestCommit := LatestCommit(commitFiles);
    var oldContent := "";
    if latestCommit != "" {
      var latestCommitHash := HashPart(latestCommit);
      if latestCommitHash.Err? {
        return Err(latestCommitHash.error);
      }
      if latestCommitHash.value == contentHash {
        return Ok(None);
      }
      var cat := Cat(fs, key, latestCommit);
      if cat.Err? {
        return Err(cat.error);
      }
      oldContent := cat.value;
    }
    return Ok(Some(SimpleCommitStruct(key, oldContent, content, None)));
  }

  /** A decision changes the disk, if at all, by creating the key's
      commits folder. */
  lemma FullDecideTree(t: Tree, key: string, content: string, hash: string -> Digest)
    requires FullDecide(t, key, content, hash).Ok?
    ensures var t' := FullDecide(t, key, content, hash).value.tree;
      t' == t || (MkdirAllIn(t, Resolve(CommitsDir(key))).Ok? && t' == MkdirAllIn(t, Resolve(CommitsDir(key))).value)
  {
    if !Binary(content) {
      var listing := ReadDir(t, CommitsDir(key));
      var t1 := if listing.Ok? then t else TreeOr(MkdirAllIn(t, Resolve(CommitsDir(key))), t);
      assert FullDecide(t, key, content, hash).value.tree == t1;
    }
  }

  /** A decision only creates folders inside the key store. */
  lemma FullDecideFrame(t: Tree, rel: Path, content: string, hash: string -> Digest)
    requires StoreReady(t) && ValidPath(rel)
    requires FullDecide(t, KeyString(rel), content, hash).Ok?
    ensures StoreReady(FullDecide(t, KeyString(rel), content, hash).value.tree)
    ensures SameOutside(t, FullDecide(t, KeyString(rel), content, hash).value.tree)
  {
    var p := Resolve(CommitsDir(KeyString(rel)));
    FullDecideTree(t, KeyString(rel), content, hash);
    ResolveCommitsDir(rel);
    assert Store <= p;
    if MkdirAllIn(t, p).Ok? {
      MkdirAllInStore(t, p);
    }
  }

  /** The preview and the commit agree: whenever `DiffForCommit` decides a
      non-empty file, the commit scan stages the same record, unless
      creating a binary file's commits folder fails. */
  lemma DecisionsAgree(t: Tree, key: string, content: string, hash: string -> Digest)
    requires content != "" && Decide(t, key, content, hash).Ok?
    ensures FullDecide(t, key, content, hash).Ok? ==>
      FullDecide(t, key, content, hash).value.record == Decide(t, key, content, hash).value
    ensures FullDecide(t, key, content, hash).Err? ==>
      Binary(content) && Decide(t, key, content, hash).value.Some?
      && FullDecide(t, key, content, hash) == Err(MkdirAllIn(t, Resolve(CommitsDir(key))).error)
  {
    if !Binary(content) {
      var listing := ReadDir(t, CommitsDir(key));
      assert CommitNames(t, key).Ok?;
      if listing.Err? {
        assert CommitNames(t, key) == Ok([]);
      }
    }
  }

  /** Where the two scans part: the commit scan stages a text file whose
      commits folder cannot be listed, where `DiffForCommit` reports the
      error; a folder that does not exist counts as empty in both. */
  lemma UnlistableCommitsFolder(t: Tree, key: string, content: string, hash: string -> Digest)
    requires !Binary(content) && ReadDir(t, CommitsDir(key)).Err?
    ensures FullDecide(t, key, content, hash).Ok?
    ensures FullDecide(t, key, content, hash).value.record == Some(SimpleCommitStruct(key, "", content, None))
    ensures content != "" && ReadDir(t, CommitsDir(key)).error.IoError? ==>
      (Decide(t, key, content, hash).Ok? <==> ReadDir(t, CommitsDir(key)).error.kind == NotExist)
  {
    assert Greatest([]) == "";
  }

  /** An empty file whose key has no commits is staged with equal old and
      new content, which `SimpleCommit` refuses. */
  lemma EmptyFileStaged(t: Tree, key: string, hash: string -> Digest)
    requires ReadDir(t, CommitsDir(key)).Ok? ==> ReadDir(t, CommitsDir(key)).value == []
    ensures FullDecide(t, key, "", hash).Ok?
    ensures FullDecide(t, key, "", hash).value.record == Some(SimpleCommitStruct(key, "", "", None))
  {
    assert !Binary("");
    assert Names([]) == [];
    assert Greatest([]) == "";
  }

  // ---------------------------------------------------------------------------
  // The commit scan

  /** The disk and the records after deciding some files. */
  datatype Progress = Progress(tree: Tree, records: seq<SimpleCommitStruct>)

  /** The commit scan's decisions for the files `ps` of the disk `t0`, in
      that order, each on the disk the previous ones left; the first
      failing decision stops the scan. */
  function FullStageAll(t0: Tree, ps: seq<Path>, hash: string -> Digest): Result<Progress>
    requires forall b :: 0 <= b < |ps| ==> ps[b] in t0 && t0[ps[b]].File?
    decreases |ps|
  {
    if ps == [] then Ok(Progress(t0, []))
    else
      var p := ps[|ps| - 1];
      var prev :- FullStageAll(t0, ps[..|ps| - 1], hash);
      var o :- FullDecide(prev.tree, KeyString(p), t0[p].data, hash);
      Ok(Progress(o.tree, if o.record.Some? then prev.records + [o.record.value] else prev.records))
  }

  /** What the commit scan has done so far: decided the files met, leaving
      the disk `t`. */
  ghost predicate FullStaged(t0: Tree, found: seq<Path>, hash: string -> Digest,
                             commits: seq<SimpleCommitStruct>, t: Tree)
  {
    && (forall b :: 0 <= b < |found| ==> found[b] in t0 && t0[found[b]].File?)
    && FullStageAll(t0, found, hash) == Ok(Progress(t, commits))
  }

  /** The commit scan stopped with `e` after meeting the visible files
      `found`. */
  ghost predicate FailedAt(t0: Tree, found: seq<Path>, hash: string -> Digest, e: Error)
  {
    && (forall b :: 0 <= b < |found| ==> VisibleFile(t0, found[b]))
    && (forall a, b :: 0 <= a < b < |found| ==> found[a] != found[b])
    && FullStageAll(t0, found, hash) == Err(e)
  }

  /** Deciding one more file. */
  lemma FullStagedSnoc(t0: Tree, found: seq<Path>, p: Path, hash: string -> Digest,
                       commits: seq<SimpleCommitStruct>, t: Tree)
    requires FullStaged(t0, found, hash, commits, t) && p in t0 && t0[p].File?
    ensures FullDecide(t, KeyString(p), t0[p].data, hash).Ok? ==>
      var o := FullDecide(t, KeyString(p), t0[p].data, hash).value;
      FullStaged(t0, found + [p], hash, if o.record.Some? then commits + [o.record.value] else commits, o.tree)
    ensures FullDecide(t, KeyString(p), t0[p].data, hash).Err? ==>
      FullStageAll(t0, found + [p], hash) == Err(FullDecide(t, KeyString(p), t0[p].data, hash).error)
  {
    assert (found + [p])[..|found|] == found;
  }

  /** The commit scan only creates folders inside the key store. */
  lemma {:induction false} FullStageAllFrame(t0: Tree, ps: seq<Path>, hash: string -> Digest)
    requires StoreReady(t0)
    requires forall b :: 0 <= b < |ps| ==> ValidPath(ps[b]) && ps[b] in t0 && t0[ps[b]].File?
    requires FullStageAll(t0, ps, hash).Ok?
    ensures StoreReady(FullStageAll(t0, ps, hash).value.tree)
    ensures SameOutside(t0, FullStageAll(t0, ps, hash).value.tree)
    decreases |ps|
  {
    if ps != [] {
      var p := ps[|ps| - 1];
      var init := ps[..|ps| - 1];
      assert forall b :: 0 <= b < |init| ==> init[b] == ps[b];
      FullStageAllFrame(t0, init, hash);
      var t := FullStageAll(t0, init, hash).value.tree;
      FullDecideFrame(t, p, t0[p].data, hash);
      SameOutsideTrans(t0, t, FullStageAll(t0, ps, hash).value.tree);
    }
  }

  /** One entry of a folder's listing, in the commit scan. */
  method FullScanEntry(fs: FileSystem, folder: string, entry: DirEntry, hash: string -> Digest,
                       folders: seq<string>, foundKeys: seq<string>, commits: seq<SimpleCommitStruct>, ghost t0: Tree,
                       ghost qs: seq<Path>, ghost par: seq<nat>, ghost fi: nat, ghost mark: nat, ghost seen: seq<string>,
                       ghost found: seq<Path>, ghost fpar: seq<nat>)
    returns (err: Option<Error>, folders': seq<string>, foundKeys': seq<string>, commits': seq<SimpleCommitStruct>,
             ghost qs': seq<Path>, ghost par': seq<nat>, ghost found': seq<Path>, ghost fpar': seq<nat>)
    modifies fs
    requires StoreReady(t0)
    requires Scanning(t0, folders, qs, par, fi, mark, seen, foundKeys, found, fpar)
    requires FullStaged(t0, found, hash, commits, fs.tree)
    requires fi < |qs| && folder == FolderString(qs[fi])
    requires ValidName(entry.name) && entry.name !in seen && qs[fi] + [entry.name] in t0
    requires entry.isDir == t0[qs[fi] + [entry.name]].Dir?
    ensures err.None? ==>
      && Scanning(t0, folders', qs', par', fi, mark, seen + [entry.name], foundKeys', found', fpar')
      && FullStaged(t0, found', hash, commits', fs.tree)
      && fi < |qs'| && qs'[fi] == qs[fi]
    ensures err.Some? ==> FailedAt(t0, found', hash, err.value)
  {
    ghost var p := qs[fi] + [entry.name];
    folders', foundKeys', commits', qs', par', found', fpar' := folders, foundKeys, commits, qs, par, found, fpar;
    if entry.isDir {
      if entry.name == ".vc" || entry.name == ".git" || entry.name == ".commits" {
        StepSkip(t0, folders, qs, par, fi, mark, seen, foundKeys, found, fpar, entry.name);
        return None, folders', foundKeys', commits', qs', par', found', fpar';
      }
      StepFolder(t0, folders, qs, par, fi, mark, seen, foundKeys, found, fpar, entry.name);
      folders' := folders + [folder + entry.name + "/"];
      qs', par' := qs + [p], par + [fi];
      return None, folders', foundKeys', commits', qs', par', found', fpar';
    }
    var key := folder + entry.name;
    assert ValidPath(p) && key == KeyString(p) by {
      FolderChild(qs[fi], entry.name);
      assert forall i :: 0 <= i < |qs[fi]| ==> p[i] == qs[fi][i];
    }
    ResolveKeyString(p);
    StepFile(t0, folders, qs, par, fi, mark, seen, foundKeys, found, fpar, entry.name);
    foundKeys' := foundKeys + [key];
    found', fpar' := found + [p], fpar + [fi];
    err, commits' := FullScanFile(fs, key, hash, commits, t0, found, p);
  }

  /** A file met by the commit scan: read it, then decide it. */
  method FullScanFile(fs: FileSystem, key: string, hash: string -> Digest, commits: seq<SimpleCommitStruct>,
                      ghost t0: Tree, ghost found: seq<Path>, ghost p: Path)
    returns (err: Option<Error>, commits': seq<SimpleCommitStruct>)
    modifies fs
    requires StoreReady(t0) && FullStaged(t0, found, hash, commits, fs.tree)
    requires ValidPath(p) && key == KeyString(p)
    requires forall b :: 0 <= b < |found + [p]| ==> ValidPath((found + [p])[b]) && VisibleFile(t0, (found + [p])[b])
    requires forall a, b :: 0 <= a < b < |found + [p]| ==> (found + [p])[a] != (found + [p])[b]
    ensures err.None? ==> FullStaged(t0, found + [p], hash, commits', fs.tree)
    ensures err.Some? ==> FailedAt(t0, found + [p], hash, err.value)
  {
    assert forall b :: 0 <= b < |found| ==> found[b] == (found + [p])[b];
    FullStageAllFrame(t0, found, hash);
    assert VisibleFile(t0, p) by {
      assert (found + [p])[|found|] == p;
    }
    ResolveKeyString(p);
    VisibleFileOutside(t0, fs.tree, p);
    var content := ReadFile(fs.tree, key);
    if content.Err? {
      assert false;
    }
    ghost var t := fs.tree;
    FullStagedSnoc(t0, found, p, hash, commits, t);
    var d := FullStageFile(fs, key, content.value, hash);
    if d.Err? {
      return Some(d.error), commits;
    }
    commits' := commits;
    if d.value.Some? {
      commits' := commits + [d.value.value];
    }
    err := None;
  }

  /** The loop over one folder's listing, in the commit scan. */
  method FullScanFolder(fs: FileSystem, hash: string -> Digest, listing: seq<DirEntry>, folders: seq<string>, fi: nat,
                        foundKeys: seq<string>, commits: seq<SimpleCommitStruct>, ghost t0: Tree,
                        ghost qs: seq<Path>, ghost par: seq<nat>, ghost found: seq<Path>, ghost fpar: seq<nat>)
    returns (err: Option<Error>, folders': seq<string>, foundKeys': seq<string>, commits': seq<SimpleCommitStruct>,
             ghost qs': seq<Path>, ghost par': seq<nat>, ghost found': seq<Path>, ghost fpar': seq<nat>)
    modifies fs
    requires StoreReady(t0)
    requires Scanning(t0, folders, qs, par, fi, |qs|, [], foundKeys, found, fpar)
    requires FullStaged(t0, found, hash, commits, fs.tree)
    requires fi < |folders| && qs[fi] in t0 && t0[qs[fi]].Dir?
    requires listing == Listing(t0, qs[fi], t0[qs[fi]].entries)
    requires StrictlySorted(t0[qs[fi]].entries)
    requires forall n :: n in t0[qs[fi]].entries ==> ValidName(n) && qs[fi] + [n] in t0
    ensures err.None? ==>
      && Scanning(t0, folders', qs', par', fi, |qs|, t0[qs[fi]].entries, foundKeys', found', fpar')
      && FullStaged(t0, found', hash, commits', fs.tree)
      && fi < |qs'| && qs'[fi] == qs[fi]
    ensures err.Some? ==> FailedAt(t0, found', hash, err.value)
  {
    folders', foundKeys', commits', qs', par', found', fpar' := folders, foundKeys, commits, qs, par, found, fpar;
    var folder := folders[fi];
    ghost var dir := qs[fi];
    assert folder == FolderString(dir);
    ghost var entries := t0[dir].entries;
    ghost var mark := |qs|;
    assert entries[..0] == [];
    for j := 0 to |listing|
      invariant Scanning(t0, folders', qs', par', fi, mark, entries[..j], foundKeys', found', fpar')
      invariant FullStaged(t0, found', hash, commits', fs.tree)
      invariant fi < |qs'| && qs'[fi] == dir
    {
      var fileOrFolder := listing[j];
      ListingEntry(t0, dir, listing, j);
      TakeOneMore(entries, j);
      err, folders', foundKeys', commits', qs', par', found', fpar' :=
        FullScanEntry(fs, folder, fileOrFolder, hash, folders', foundKeys', commits', t0, qs', par', fi, mark,
                      entries[..j], found', fpar');
      if err.Some? {
        return;
      }
    }
    assert entries[..|entries|] == entries;
    err := None;
  }

  /** Step 2 of `FullCommit`: the scan of the working tree from "./",
      deciding each file as it is met.  On success `found` lists every
      visible file of the disk as it was, in the order met. */
  method FullScanTree(fs: FileSystem, hash: string -> Digest)
    returns (err: Option<Error>, commits: seq<SimpleCommitStruct>, foundKeys: seq<string>, ghost found: seq<Path>)
    modifies fs
    requires StoreReady(fs.tree)
    ensures err.None? ==>
      && FoundAll(old(fs.tree), foundKeys, found)
      && FullStaged(old(fs.tree), found, hash, commits, fs.tree)
      && StoreReady(fs.tree)
    ensures err.Some? ==> FailedAt(old(fs.tree), found, hash, err.value)
  {
    ghost var t0 := fs.tree;
    ScanStart(t0);
    var foldersToNavigate := ["./"];
    ghost var qs: seq<Path> := [[]];
    ghost var par: seq<nat> := [0];
    ghost var fpar: seq<nat> := [];
    foundKeys, commits, found := [], [], [];
    var folderi := 0;
    while folderi < |foldersToNavigate|
      invariant Scanning(t0, foldersToNavigate, qs, par, folderi, |qs|, [], foundKeys, found, fpar)
      invariant FullStaged(t0, found, hash, commits, fs.tree)
      decreases |t0.Keys| - folderi
    {
      FullStageAllFrame(t0, found, hash);
      QueueBound(t0, qs, par, 1, 0, folderi, |qs|, []);
      var folder := foldersToNavigate[folderi];
      ghost var dir := qs[folderi];
      assert VisibleDir(t0, dir) && ValidPath(dir);
      ResolveFolderString(dir);
      VisibleDirOutside(t0, fs.tree, dir);
      var filesAndFolders := ReadDir(fs.tree, folder);
      if filesAndFolders.Err? {
        assert false;
      }
      ListedChildren(t0, dir);
      ghost var mark := |qs|;
      err, foldersToNavigate, foundKeys, commits, qs, par, found, fpar :=
        FullScanFolder(fs, hash, filesAndFolders.value, foldersToNavigate, folderi, foundKeys, commits, t0,
                       qs, par, found, fpar);
      if err.Some? {
        return;
      }
      StepNextFolder(t0, foldersToNavigate, qs, par, folderi, mark, foundKeys, found, fpar);
      folderi := folderi + 1;
    }
    ScanResult(t0, foldersToNavigate, qs, par, foundKeys, found, fpar);
    FullStageAllFrame(t0, found, hash);
    err := None;
  }

  // ---------------------------------------------------------------------------
  // Step 3: the deletions

  /** The disk and the references recorded by some steps. */
  datatype Recorded = Recorded(tree: Tree, refs: seq<string>)

  /** Where the keys deleted at time `ts` are moved. */
  function DeletedDir(ts: nat): string
  {
    ".vc/deleted/" + NatToString(ts)
  }

  /** Moving one key that has no file left: the deletion folder and the
      key's parent folder inside it are created, their errors ignored, then
      the key's store folder is moved there; a failed move stops the
      commit. */
  function DeleteKey(t: Tree, key: string, ts: nat): Result<Tree>
  {
    var t1 := TreeOr(MkdirAllIn(t, Resolve(DeletedDir(ts))), t);
    var t2 := TreeOr(MkdirAllIn(t1, Resolve(DeletedDir(ts) + "/" + KeyParent(key))), t1);
    RenameIn(t2, KeyDir(key), DeletedDir(ts) + "/" + key)
  }

  /** Step 3 over the known keys, in order: each one the scan did not meet
      is moved and recorded by its deletion reference. */
  function DeleteAll(t: Tree, known: seq<string>, foundKeys: seq<string>, ts: nat): Result<Recorded>
    decreases |known|
  {
    if known == [] then Ok(Recorded(t, []))
    else
      var key := known[|known| - 1];
      var prev :- DeleteAll(t, known[..|known| - 1], foundKeys, ts);
      if key in foundKeys then Ok(prev)
      else
        var t' :- DeleteKey(prev.tree, key, ts);
        Ok(Recorded(t', prev.refs + [DeletionRef(key, ts)]))
  }

  /** Once a move fails, the later keys change nothing: the deletions stop
      with that error. */
  lemma {:induction false} DeleteAllStops(t: Tree, known: seq<string>, foundKeys: seq<string>, ts: nat, k: nat)
    requires k <= |known| && DeleteAll(t, known[..k], foundKeys, ts).Err?
    ensures DeleteAll(t, known, foundKeys, ts) == DeleteAll(t, known[..k], foundKeys, ts)
    decreases |known| - k
  {
    if k < |known| {
      assert known[..k + 1][..k] == known[..k];
      DeleteAllStops(t, known, foundKeys, ts, k + 1);
    } else {
      assert known[..k] == known;
    }
  }

  /** The deletion loop of `FullCommit`. */
  method MoveDeletedKeys(fs: FileSystem, knownKeys: seq<string>, foundKeys: seq<string>, ts: nat)
    returns (err: Option<Error>, commitIds: seq<string>)
    modifies fs
    ensures DeleteAll(old(fs.tree), knownKeys, foundKeys, ts).Ok? ==>
      err.None? && fs.tree == DeleteAll(old(fs.tree), knownKeys, foundKeys, ts).value.tree
      && commitIds == DeleteAll(old(fs.tree), knownKeys, foundKeys, ts).value.refs
    ensures DeleteAll(old(fs.tree), knownKeys, foundKeys, ts).Err? ==>
      err == Some(DeleteAll(old(fs.tree), knownKeys, foundKeys, ts).error)
  {
    ghost var t := fs.tree;
    commitIds := [];
    for i := 0 to |knownKeys|
      invariant DeleteAll(t, knownKeys[..i], foundKeys, ts) == Ok(Recorded(fs.tree, commitIds))
    {
      var key := knownKeys[i];
      assert knownKeys[..i + 1][..i] == knownKeys[..i];
      if key !in foundKeys {
        var ignored := fs.MkdirAll(DeletedDir(ts));
        var keyParentFolder := KeyParent(key);
        ignored := fs.MkdirAll(DeletedDir(ts) + "/" + keyParentFolder);
        var e := fs.Rename(KeyDir(key), DeletedDir(ts) + "/" + key);
        if e.Some? {
          DeleteAllStops(t, knownKeys, foundKeys, ts, i + 1);
          return e, commitIds;
        }
        commitIds := commitIds + [DeletionRef(key, ts)];
      }
    }
    assert knownKeys[..|knownKeys|] == knownKeys;
    err := None;
  }

  /** The deletion references, one per deletion record. */
  function DeletionRefs(ds: seq<SimpleCommitStruct>, ts: nat): (r: seq<string>)
    ensures |r| == |ds|
  {
    seq(|ds|, i requires 0 <= i < |ds| => DeletionRef(ds[i].key, ts))
  }

  /** The commit moves exactly the keys `DiffForCommit` reports as deleted,
      in the same order, and records one deletion reference for each. */
  lemma {:induction false} DeleteAllRefs(t: Tree, known: seq<string>, foundKeys: seq<string>, ts: nat)
    requires DeleteAll(t, known, foundKeys, ts).Ok?
    ensures DeleteAll(t, known, foundKeys, ts).value.refs == DeletionRefs(Deletions(known, foundKeys), ts)
    decreases |known|
  {
    if known != [] {
      DeleteAllRefs(t, known[..|known| - 1], foundKeys, ts);
    }
  }

  /** A rename between two paths neither of which lies under the other
      leaves nothing at the source and something at the target. */
  lemma RenamedAway(t: Tree, p: Path, q: Path)
    requires RenameOk(t, p, q) && !(q <= p)
    ensures p !in Renamed(t, p, q) && q in Renamed(t, p, q)
  {
    assert q[|q|..] == [] && p + [] == p;
    RenamedHas(t, p, q, q);
    var t1 := Kept(t, p)[Parent(p) := Dir(Remove(t[Parent(p)].entries, Last(p)))];
    assert p !in Kept(t, p);
    assert p != Parent(p);
    MovedKeys(t, p, q);
    assert p !in Moved(t, p, q);
    assert p != Parent(q);
  }

  lemma ResolveDeletedRoot()
    ensures Resolve(".vc/deleted") == [".vc", "deleted"]
  {
    assert ".vc/deleted" == ".vc" + "/" + "deleted";
    ResolveChild(".vc", "deleted");
    ResolveName(".vc");
  }

  /** Where a deleted key's folder goes: below `.vc/deleted`. */
  lemma ResolveDeletedPath(ts: nat, key: string)
    ensures var q := Resolve(DeletedDir(ts) + "/" + key); |q| >= 2 && q[0] == ".vc" && q[1] == "deleted"
  {
    var n := NatToString(ts);
    assert ".vc/deleted/" == ".vc/deleted" + "/";
    assert DeletedDir(ts) + "/" + key == ".vc/deleted" + "/" + (n + "/" + key);
    ResolveConcat(".vc/deleted", n + "/" + key);
    ResolveDeletedRoot();
  }

  /** The store folder of a key moved by a deletion is gone, and the
      deletion folder now holds it under the key's path. */
  lemma DeleteKeyMoves(t: Tree, rel: Path, ts: nat)
    requires ValidPath(rel) && DeleteKey(t, KeyString(rel), ts).Ok?
    ensures Store + rel !in DeleteKey(t, KeyString(rel), ts).value
    ensures Resolve(DeletedDir(ts) + "/" + KeyString(rel)) in DeleteKey(t, KeyString(rel), ts).value
  {
    var key := KeyString(rel);
    var t1 := TreeOr(MkdirAllIn(t, Resolve(DeletedDir(ts))), t);
    var t2 := TreeOr(MkdirAllIn(t1, Resolve(DeletedDir(ts) + "/" + KeyParent(key))), t1);
    var p := Resolve(KeyDir(key));
    var q := Resolve(DeletedDir(ts) + "/" + key);
    ResolveKeyDir(rel);
    ResolveDeletedPath(ts, key);
    assert p[1] != q[1];
    assert p != q && !(p <= q) && !(q <= p);
    assert RenameIn(t2, KeyDir(key), DeletedDir(ts) + "/" + key) == Ok(Renamed(t2, p, q));
    RenamedAway(t2, p, q);
  }

  // ---------------------------------------------------------------------------
  // Step 4: the commits

  /** The id under which a record is committed: `b` and the hash of the
      bytes for a binary record, `d` and the hash of the new content
      otherwise. */
  function RecordId(c: SimpleCommitStruct, ts: nat, hash: string -> Digest): string
  {
    if c.binaryContent.Some? then CommitId('b', ts, hash(c.binaryContent.value))
    else CommitId('d', ts, hash(c.newContent))
  }

  /** Committing one staged record: `BinarySimpleCommit` for a binary
      record, `SimpleCommit` otherwise; either failing stops the commit. */
  function CommitOne(t: Tree, c: SimpleCommitStruct, ts: nat, hash: string -> Digest): Result<Tree>
  {
    if c.binaryContent.Some? then
      WriteFileIn(t, CommitPath(c.key, RecordId(c, ts, hash)), c.binaryContent.value)
    else if c.oldContent == c.newContent then Err(NoChanges)
    else WriteFileIn(t, CommitPath(c.key, RecordId(c, ts, hash)), DiffPayload(c.oldContent, c.newContent))
  }

  /** Step 4 over the staged records, in order, each recorded by its
      reference. */
  function CommitAll(t: Tree, commits: seq<SimpleCommitStruct>, ts: nat, hash: string -> Digest): Result<Recorded>
    decreases |commits|
  {
    if commits == [] then Ok(Recorded(t, []))
    else
      var c := commits[|commits| - 1];
      var prev :- CommitAll(t, commits[..|commits| - 1], ts, hash);
      var t' :- CommitOne(prev.tree, c, ts, hash);
      Ok(Recorded(t', prev.refs + [CommitRef(c.key, RecordId(c, ts, hash))]))
  }

  /** Once a commit fails, the commits stop with that error. */
  lemma {:induction false} CommitAllStops(t: Tree, commits: seq<SimpleCommitStruct>, ts: nat, hash: string -> Digest,
                                          k: nat)
    requires k <= |commits| && CommitAll(t, commits[..k], ts, hash).Err?
    ensures CommitAll(t, commits, ts, hash) == CommitAll(t, commits[..k], ts, hash)
    decreases |commits| - k
  {
    if k < |commits| {
      assert commits[..k + 1][..k] == commits[..k];
      CommitAllStops(t, commits, ts, hash, k + 1);
    } else {
      assert commits[..k] == commits;
    }
  }

  /** The commit loop of `FullCommit`: appends each record's reference to
      `commitIds`. */
  method CommitStaged(fs: FileSystem, commits: seq<SimpleCommitStruct>, commitIds: seq<string>, ts: nat,
                      hash: string -> Digest)
    returns (err: Option<Error>, commitIds': seq<string>)
    modifies fs
    ensures CommitAll(old(fs.tree), commits, ts, hash).Ok? ==>
      err.None? && fs.tree == CommitAll(old(fs.tree), commits, ts, hash).value.tree
      && commitIds' == commitIds + CommitAll(old(fs.tree), commits, ts, hash).value.refs
    ensures CommitAll(old(fs.tree), commits, ts, hash).Err? ==>
      err == Some(CommitAll(old(fs.tree), commits, ts, hash).error)
  {
    ghost var t := fs.tree;
    commitIds' := commitIds;
    for i := 0 to |commits|
      invariant CommitAll(t, commits[..i], ts, hash).Ok?
      invariant fs.tree == CommitAll(t, commits[..i], ts, hash).value.tree
      invariant commitIds' == commitIds + CommitAll(t, commits[..i], ts, hash).value.refs
    {
      var commit := commits[i];
      assert commits[..i + 1][..i] == commits[..i];
      var r;
      if commit.binaryContent.Some? {
        r := BinarySimpleCommit(fs, commit.key, commit.binaryContent.value, ts, hash);
      } else {
        r := SimpleCommit(fs, commit.key, commit.oldContent, commit.newContent, ts, hash);
      }
      if r.Err? {
        CommitAllStops(t, commits, ts, hash, i + 1);
        return Some(r.error), commitIds';
      }
      commitIds' := commitIds' + [CommitRef(commit.key, r.value)];
    }
    assert commits[..|commits|] == commits;
    err := None;
  }

  /** A successful commit loop over one more record succeeded on the records
      before it, committed the last one on the disk they left, and appended
      its reference. */
  lemma CommitAllSnoc(t: Tree, commits: seq<SimpleCommitStruct>, ts: nat, hash: string -> Digest)
    requires commits != [] && CommitAll(t, commits, ts, hash).Ok?
    ensures var init := commits[..|commits| - 1];
      var c := commits[|commits| - 1];
      && CommitAll(t, init, ts, hash).Ok?
      && CommitOne(CommitAll(t, init, ts, hash).value.tree, c, ts, hash).Ok?
      && CommitAll(t, commits, ts, hash).value.refs
         == CommitAll(t, init, ts, hash).value.refs + [CommitRef(c.key, RecordId(c, ts, hash))]
  {
  }

  /** The commit references, one per staged record. */
  function CommitRefs(commits: seq<SimpleCommitStruct>, ts: nat, hash: string -> Digest): (r: seq<string>)
    ensures |r| == |commits|
  {
    seq(|commits|, i requires 0 <= i < |commits| => CommitRef(commits[i].key, RecordId(commits[i], ts, hash)))
  }

  lemma CommitRefsSnoc(commits: seq<SimpleCommitStruct>, ts: nat, hash: string -> Digest)
    requires commits != []
    ensures var c := commits[|commits| - 1];
      CommitRefs(commits, ts, hash) == CommitRefs(commits[..|commits| - 1], ts, hash) + [CommitRef(c.key, RecordId(c, ts, hash))]
  {
  }

  /** Step 4 commits every staged record, in order, and records one
      reference for each. */
  lemma {:induction false} CommitAllRefs(t: Tree, commits: seq<SimpleCommitStruct>, ts: nat, hash: string -> Digest)
    requires CommitAll(t, commits, ts, hash).Ok?
    ensures CommitAll(t, commits, ts, hash).value.refs == CommitRefs(commits, ts, hash)
    decreases |commits|
  {
    if commits != [] {
      CommitAllSnoc(t, commits, ts, hash);
      CommitAllRefs(t, commits[..|commits| - 1], ts, hash);
      CommitRefsSnoc(commits, ts, hash);
    }
  }

  /** `SimpleCommit` refuses a text record with equal old and new
      content. */
  lemma CommitOneNoEqual(t: Tree, c: SimpleCommitStruct, ts: nat, hash: string -> Digest)
    requires CommitOne(t, c, ts, hash).Ok?
    ensures c.binaryContent.None? ==> c.oldContent != c.newContent
  {
  }

  /** No text record has equal old and new content. */
  predicate NoEqualText(commits: seq<SimpleCommitStruct>)
  {
    forall s :: s in commits && s.binaryContent.None? ==> s.oldContent != s.newContent
  }

  /** Step 4 succeeds only if no text record has equal old and new content,
      which `SimpleCommit` refuses. */
  lemma {:induction false} CommitAllNoEqual(t: Tree, commits: seq<SimpleCommitStruct>, ts: nat, hash: string -> Digest)
    requires CommitAll(t, commits, ts, hash).Ok?
    ensures NoEqualText(commits)
    decreases |commits|
  {
    if commits != [] {
      var init := commits[..|commits| - 1];
      var c := commits[|commits| - 1];
      CommitAllSnoc(t, commits, ts, hash);
      CommitAllNoEqual(t, init, ts, hash);
      CommitOneNoEqual(CommitAll(t, init, ts, hash).value.tree, c, ts, hash);
      NoEqualSnoc(commits);
    }
  }

  lemma NoEqualSnoc(commits: seq<SimpleCommitStruct>)
    requires commits != [] && NoEqualText(commits[..|commits| - 1])
    requires var c := commits[|commits| - 1]; c.binaryContent.None? ==> c.oldContent != c.newContent
    ensures NoEqualText(commits)
  {
    assert commits == commits[..|commits| - 1] + [commits[|commits| - 1]];
  }

  // ---------------------------------------------------------------------------
  // The whole commit

  /** Where the history entry of time `ts` is written. */
  function HistoryPath(ts: nat): string
  {
    ".vc/history/" + NatToString(ts)
  }

  /** Visible files of `t`, each met once. */
  ghost predicate MetFiles(t: Tree, found: seq<Path>)
  {
    && (forall b :: 0 <= b < |found| ==> VisibleFile(t, found[b]))
    && (forall a, b :: 0 <= a < b < |found| ==> found[a] != found[b])
  }

  /** Steps 2 to 5 of `FullCommit` over the disk `t0`, given the files the
      scan meets, in order, and the known keys: stage, move the deleted
      keys, commit the staged records, then write the history entry, whose
      references are the deletions' followed by the commits'.  Nothing to
      reference is an error. */
  function FullCommitIn(t0: Tree, found: seq<Path>, known: seq<string>, message: string, ts: nat,
                        hash: string -> Digest): Result<Tree>
    requires forall b :: 0 <= b < |found| ==> found[b] in t0 && t0[found[b]].File?
  {
    var staged :- FullStageAll(t0, found, hash);
    var deleted :- DeleteAll(staged.tree, known, Spell(found), ts);
    var committed :- CommitAll(deleted.tree, staged.records, ts, hash);
    var refs := deleted.refs + committed.refs;
    if refs == [] then Err(NothingToCommit)
    else WriteFileIn(committed.tree, HistoryPath(ts), HistoryText(message, refs))
  }

  /** `FullCommit`: discovers the known keys, scans and stages the working
      tree, moves the keys without a file, commits the staged records and
      writes the history entry.  `found` is the order in which the scan met
      the files, `known` the keys in the order of discovery. */
  method FullCommit(fs: FileSystem, message: string, ts: nat, hash: string -> Digest)
    returns (err: Option<Error>, ghost found: seq<Path>, ghost known: seq<string>)
    modifies fs
    requires fs.Valid()
    ensures err.None? ==>
      && !StoreBroken(old(fs.tree)) && KeysOf(old(fs.tree), known) && FoundAll(old(fs.tree), Spell(found), found)
      && FullCommitIn(old(fs.tree), found, known, message, ts, hash) == Ok(fs.tree)
    ensures err.Some? ==>
      || StoreBroken(old(fs.tree))
      || (MetFiles(old(fs.tree), found) && FullCommitIn(old(fs.tree), found, known, message, ts, hash) == Err(err.value))
    ensures StoreBroken(old(fs.tree)) ==> err.Some? && fs.tree == old(fs.tree)
    ensures !StoreBroken(old(fs.tree)) ==> KeysOf(old(fs.tree), known)
    ensures err.Some? && !StoreBroken(old(fs.tree)) ==>
      FullStageAll(old(fs.tree), found, hash).Err? || FoundAll(old(fs.tree), Spell(found), found)
  {
    ghost var t0 := fs.tree;
    found, known := [], [];
    var keys := DiscoverKeys(fs);
    if keys.Err? {
      return Some(keys.error), found, known;
    }
    var knownKeys := keys.value;
    known := knownKeys;
    var scanErr, commits, foundKeys;
    scanErr, commits, foundKeys, found := FullScanTree(fs, hash);
    if scanErr.Some? {
      return scanErr, found, known;
    }
    ghost var t1 := fs.tree;
    var commitIds;
    err, commitIds := MoveDeletedKeys(fs, knownKeys, foundKeys, ts);
    if err.Some? {
      return err, found, known;
    }
    ghost var t2 := fs.tree;
    ghost var deletionRefs := commitIds;
    err, commitIds := CommitStaged(fs, commits, commitIds, ts, hash);
    if err.Some? {
      FullCommitCommitFails(t0, found, known, message, ts, hash, t1, commits, t2, deletionRefs);
      return err, found, known;
    }
    ghost var t3 := fs.tree;
    FullCommitEnds(t0, found, known, message, ts, hash, t1, commits, t2, deletionRefs, t3,
                   CommitAll(t2, commits, ts, hash).value.refs);
    if |commitIds| == 0 {
      return Some(NothingToCommit), found, known;
    }
    var numberOfLines := |Split(message, '\n')|;
    var commitContent := IntToString(numberOfLines) + "\n" + message + "\n" + Join(commitIds, '\n');
    err := fs.WriteFile(HistoryPath(ts), commitContent);
    return err, found, known;
  }

  /** `FullCommitIn` stops where committing the staged records fails. */
  lemma FullCommitCommitFails(t0: Tree, found: seq<Path>, known: seq<string>, message: string, ts: nat,
                              hash: string -> Digest, t1: Tree, commits: seq<SimpleCommitStruct>,
                              t2: Tree, deletionRefs: seq<string>)
    requires FullStaged(t0, found, hash, commits, t1)
    requires DeleteAll(t1, known, Spell(found), ts) == Ok(Recorded(t2, deletionRefs))
    requires CommitAll(t2, commits, ts, hash).Err?
    ensures FullCommitIn(t0, found, known, message, ts, hash) == Err(CommitAll(t2, commits, ts, hash).error)
  {
  }

  /** Once every step has succeeded, `FullCommitIn` either reports that
      there is nothing to commit or writes the history entry. */
  lemma FullCommitEnds(t0: Tree, found: seq<Path>, known: seq<string>, message: string, ts: nat,
                       hash: string -> Digest, t1: Tree, commits: seq<SimpleCommitStruct>,
                       t2: Tree, deletionRefs: seq<string>, t3: Tree, refs: seq<string>)
    requires FullStaged(t0, found, hash, commits, t1)
    requires DeleteAll(t1, known, Spell(found), ts) == Ok(Recorded(t2, deletionRefs))
    requires CommitAll(t2, commits, ts, hash) == Ok(Recorded(t3, refs))
    ensures FullCommitIn(t0, found, known, message, ts, hash)
         == if deletionRefs + refs == [] then Err(NothingToCommit)
            else WriteFileIn(t3, HistoryPath(ts), HistoryText(message, deletionRefs + refs))
  {
  }

  /** A successful commit has written its history entry: the message, then
      one deletion reference per key `DiffForCommit` reports as deleted, in
      the order of discovery, then one reference per staged record, in the
      order of the scan; there is at least one reference. */
  lemma FullCommitHistory(t0: Tree, found: seq<Path>, known: seq<string>, message: string, ts: nat,
                          hash: string -> Digest)
    requires forall b :: 0 <= b < |found| ==> found[b] in t0 && t0[found[b]].File?
    requires FullCommitIn(t0, found, known, message, ts, hash).Ok?
    ensures FullStageAll(t0, found, hash).Ok?
    ensures var refs := DeletionRefs(Deletions(known, Spell(found)), ts)
                        + CommitRefs(FullStageAll(t0, found, hash).value.records, ts, hash);
      && refs != []
      && ReadFile(FullCommitIn(t0, found, known, message, ts, hash).value, HistoryPath(ts)) == Ok(HistoryText(message, refs))
  {
    var staged := FullStageAll(t0, found, hash).value;
    var deleted := DeleteAll(staged.tree, known, Spell(found), ts).value;
    var committed := CommitAll(deleted.tree, staged.records, ts, hash).value;
    DeleteAllRefs(staged.tree, known, Spell(found), ts);
    CommitAllRefs(deleted.tree, staged.records, ts, hash);
    WriteThenRead(committed.tree, HistoryPath(ts), HistoryText(message, deleted.refs + committed.refs));
  }

  /** Writing a file fails only with a disk error. */
  lemma WriteFileFailsOnDisk(t: Tree, path: string, data: string)
    ensures WriteFileIn(t, path, data).Err? ==> WriteFileIn(t, path, data).error.IoError?
  {
  }

  /** Once every step has succeeded, the commit reports that there is
      nothing to commit exactly when no key was deleted and no file
      staged. */
  lemma NothingToCommitExactly(t0: Tree, found: seq<Path>, known: seq<string>, message: string, ts: nat,
                               hash: string -> Digest)
    requires forall b :: 0 <= b < |found| ==> found[b] in t0 && t0[found[b]].File?
    requires FullStageAll(t0, found, hash).Ok?
    requires DeleteAll(FullStageAll(t0, found, hash).value.tree, known, Spell(found), ts).Ok?
    requires CommitAll(DeleteAll(FullStageAll(t0, found, hash).value.tree, known, Spell(found), ts).value.tree,
                       FullStageAll(t0, found, hash).value.records, ts, hash).Ok?
    ensures FullCommitIn(t0, found, known, message, ts, hash) == Err(NothingToCommit) <==>
      Deletions(known, Spell(found)) == [] && FullStageAll(t0, found, hash).value.records == []
  {
    var staged := FullStageAll(t0, found, hash).value;
    var deleted := DeleteAll(staged.tree, known, Spell(found), ts).value;
    var committed := CommitAll(deleted.tree, staged.records, ts, hash).value;
    DeleteAllRefs(staged.tree, known, Spell(found), ts);
    CommitAllRefs(deleted.tree, staged.records, ts, hash);
    assert |deleted.refs + committed.refs| == |Deletions(known, Spell(found))| + |staged.records|;
    WriteFileFailsOnDisk(committed.tree, HistoryPath(ts), HistoryText(message, deleted.refs + committed.refs));
  }

  /** A successful commit staged no text record with equal old and new
      content; in particular (see `EmptyFileStaged`) the working tree had no
      empty file whose key has no commits. */
  lemma FullCommitNoEqual(t0: Tree, found: seq<Path>, known: seq<string>, message: string, ts: nat,
                          hash: string -> Digest)
    requires forall b :: 0 <= b < |found| ==> found[b] in t0 && t0[found[b]].File?
    requires FullCommitIn(t0, found, known, message, ts, hash).Ok?
    ensures FullStageAll(t0, found, hash).Ok?
    ensures forall s :: s in FullStageAll(t0, found, hash).value.records && s.binaryContent.None? ==>
      s.oldContent != s.newContent
  {
    var staged := FullStageAll(t0, found, hash).value;
    var deleted := DeleteAll(staged.tree, known, Spell(found), ts).value;
    CommitAllNoEqual(deleted.tree, staged.records, ts, hash);
  }
}
