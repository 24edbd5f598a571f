/** `DiffForCommit` and `PrintDiffs`: which files of the working tree differ
    from their last commit, and which keys of the store have no file left.
    Nothing is written; the result lists one record per changed, new or
    deleted file. */
module Staging {
  import opened Errors
  import opened GoStrings
  import opened FileSystem
  import opened Utils
  import opened Replay
  import opened CommitIds
  import opened Walk
  import opened Scan
  import opened Discovery

  // ---------------------------------------------------------------------------
  // The decision for one file

  /** The names in a key's commits folder; a folder that does not exist
      lists nothing, any other failure is an error. */
  function CommitNames(t: Tree, key: string): Result<seq<string>>
  {
    match ReadDir(t, CommitsDir(key))
    case Ok(es) => Ok(Names(es))
    case Err(e) => if e.IoError? && e.kind == NotExist then Ok([]) else Err(e)
  }

  /** Whether some commit, in listing order, carries the hash `h`; a name
      without a `+` that is reached before a match makes the program panic. */
  function HashSeen(names: seq<string>, h: string): Result<bool>
    decreases |names|
  {
    if names == [] then Ok(false)
    else
      var part :- HashPart(names[0]);
      if part == h then Ok(true) else HashSeen(names[1..], h)
  }

  /** What the scan records for the file `key` with contents `content`:
      nothing for an empty file; for a binary file, a record with its bytes
      unless some commit of the key carries its hash; for a text file,
      nothing when the latest commit carries its hash, otherwise a record of
      the content the latest commit replays to (or "" without commits) and
      the new content. */
  function Decide(t: Tree, key: string, content: string, hash: string -> Digest): Result<Option<SimpleCommitStruct>>
  {
    if content == "" then Ok(None)
    else if Binary(content) then
      var names :- CommitNames(t, key);
      var seen :- HashSeen(names, hash(content));
      if seen then Ok(None) else Ok(Some(SimpleCommitStruct(key, "", "", Some(content))))
    else
      var names :- CommitNames(t, key);
      var latest := Greatest(names);
      if latest == "" then Ok(Some(SimpleCommitStruct(key, "", content, None)))
      else
        var latestHash :- HashPart(latest);
        if latestHash == hash(content) then Ok(None)
        else
          var oldContent :- CatIn(t, key, latest);
          Ok(Some(SimpleCommitStruct(key, oldContent, content, None)))
  }

  /** The binary-file loop: walks the commit names until one carries the
      hash. */
  method FindHash(names: seq<string>, h: string) returns (r: Result<bool>)
    ensures r == HashSeen(names, h)
  {
    var hasChanges := true;
    var i := 0;
    while i < |names|
      invariant 0 <= i <= |names|
      invariant hasChanges
      invariant HashSeen(names, h) == HashSeen(names[i..], h)
    {
      assert names[i..][1..] == names[i + 1..];
      var commitHash := HashPart(names[i]);
      if commitHash.Err? {
        return Err(commitHash.error);
      }
      if commitHash.value == h {
        hasChanges := false;
        break;
      }
      i := i + 1;
    }
    return Ok(!hasChanges);
  }

  /** The text-file loop: the greatest commit name, "" for none. */
  method LatestCommit(names: seq<string>) returns (latestCommit: string)
    ensures latestCommit == Greatest(names)
  {
    latestCommit := "";
    for i := 0 to |names|
      invariant latestCommit == Greatest(names[..i])
    {
      assert names[..i + 1][..i] == names[..i];
      if LexLess(latestCommit, names[i]) {
        latestCommit := names[i];
      }
    }
    assert names[..|names|] == names;
  }

  /** The body of the scan for one file, after it has been read. */
  method StageFile(fs: FileSystem, key: string, content: string, hash: string -> Digest)
    returns (r: Result<Option<SimpleCommitStruct>>)
    ensures r == Decide(fs.tree, key, content, hash)
  {
    if content == "" {
      return Ok(None);
    }
    var contentHash := hash(content);
    var binary := IsBinary(content);
    var listing := ReadDir(fs.tree, CommitsDir(key));
    if listing.Err? && !(listing.error.IoError? && listing.error.kind == NotExist) {
      return Err(listing.error);
    }
    var commitNames := if listing.Ok? then Names(listing.value) else [];
    if binary {
      var seen := FindHash(commitNames, contentHash);
      if seen.Err? {
        return Err(seen.error);
      }
      if seen.value {
        return Ok(None);
      }
      return Ok(Some(SimpleCommitStruct(key, "", "", Some(content))));
    }
    var latestCommit := LatestCommit(commitNames);
    var oldContent := "";
    if latestCommit != "" {
      var latestCommitHash := HashPart(latestCommit);
      if latestCommitHash.Err? {
        return Err(latestCommitHash.error);
      }
      if latestCommitHash.value == contentHash {
        return Ok(None);
      }
      var cat := Cat(fs, key, latestCommit);
      if cat.Err? {
        return Err(cat.error);
      }
      oldContent := cat.value;
    }
    return Ok(Some(SimpleCommitStruct(key, oldContent, content, None)));
  }

  // ---------------------------------------------------------------------------
  // The whole scan and the deletions

  /** The decisions for the files `ps`, in that order. */
  function Decisions(t: Tree, ps: seq<Path>, hash: string -> Digest): seq<Result<Option<SimpleCommitStruct>>>
    requires forall b :: 0 <= b < |ps| ==> ps[b] in t && t[ps[b]].File?
  {
    seq(|ps|, b requires 0 <= b < |ps| => Decide(t, KeyString(ps[b]), t[ps[b]].data, hash))
  }

  /** The records of a run of decisions; the first failing one stops the
      run. */
  function Collect(ds: seq<Result<Option<SimpleCommitStruct>>>): Result<seq<SimpleCommitStruct>>
    decreases |ds|
  {
    if ds == [] then Ok([])
    else
      var staged :- Collect(ds[..|ds| - 1]);
      var d :- ds[|ds| - 1];
      if d.Some? then Ok(staged + [d.value]) else Ok(staged)
  }

  /** The records of the files `ps`, in that order. */
  function StageAll(t: Tree, ps: seq<Path>, hash: string -> Digest): Result<seq<SimpleCommitStruct>>
    requires forall b :: 0 <= b < |ps| ==> ps[b] in t && t[ps[b]].File?
  {
    Collect(Decisions(t, ps, hash))
  }

  /** One record per known key that the scan did not meet, in the order of
      the known keys. */
  function Deletions(known: seq<string>, foundKeys: seq<string>): seq<SimpleCommitStruct>
    decreases |known|
  {
    if known == [] then []
    else
      var k := known[|known| - 1];
      var rest := Deletions(known[..|known| - 1], foundKeys);
      if k in foundKeys then rest else rest + [SimpleCommitStruct(k, "", "", None)]
  }

  /** The deletion loop: `slices.Contains` on the keys the scan met. */
  method DeletedKeys(knownKeys: seq<string>, foundKeys: seq<string>) returns (commits: seq<SimpleCommitStruct>)
    ensures commits == Deletions(knownKeys, foundKeys)
  {
    commits := [];
    for i := 0 to |knownKeys|
      invariant commits == Deletions(knownKeys[..i], foundKeys)
    {
      var key := knownKeys[i];
      assert knownKeys[..i + 1][..i] == knownKeys[..i];
      if key !in foundKeys {
        commits := commits + [SimpleCommitStruct(key, "", "", None)];
      }
    }
    assert knownKeys[..|knownKeys|] == knownKeys;
  }

  /** What key discovery promises about its result. */
  ghost predicate KeysOf(t: Tree, keys: seq<string>)
  {
    && (forall k :: k in keys ==> k == KeyString(Resolve(k)) && IsKey(t, Resolve(k)))
    && (forall rel :: IsKey(t, rel) ==> KeyString(rel) in keys)
    && (forall i, j :: 0 <= i < j < |keys| ==> keys[i] != keys[j])
  }

  /** Some visible file's record cannot be computed. */
  ghost predicate SomeFileFails(t: Tree, hash: string -> Digest)
  {
    exists p :: VisibleFile(t, p) && Decide(t, KeyString(p), t[p].data, hash).Err?
  }

  /** What the scan has staged so far: the records of the files met. */
  ghost predicate Staged(t: Tree, found: seq<Path>, hash: string -> Digest, commits: seq<SimpleCommitStruct>)
  {
    (forall b :: 0 <= b < |found| ==> found[b] in t && t[found[b]].File?)
    && StageAll(t, found, hash) == Ok(commits)
  }

  /** Meeting one more file extends what has been staged. */
  lemma StagedSnoc(t: Tree, found: seq<Path>, p: Path, hash: string -> Digest, commits: seq<SimpleCommitStruct>,
                   d: Option<SimpleCommitStruct>)
    requires Staged(t, found, hash, commits) && p in t && t[p].File?
    requires Decide(t, KeyString(p), t[p].data, hash) == Ok(d)
    ensures Staged(t, found + [p], hash, if d.Some? then commits + [d.value] else commits)
  {
    var ds := Decisions(t, found + [p], hash);
    assert ds[..|found|] == Decisions(t, found, hash);
  }

  /** One entry of a folder's listing. */
  method ScanEntry(fs: FileSystem, folder: string, entry: DirEntry, hash: string -> Digest,
                   folders: seq<string>, foundKeys: seq<string>, commits: seq<SimpleCommitStruct>,
                   ghost qs: seq<Path>, ghost par: seq<nat>, ghost fi: nat, ghost mark: nat, ghost seen: seq<string>,
                   ghost found: seq<Path>, ghost fpar: seq<nat>)
    returns (err: Option<Error>, folders': seq<string>, foundKeys': seq<string>, commits': seq<SimpleCommitStruct>,
             ghost qs': seq<Path>, ghost par': seq<nat>, ghost found': seq<Path>, ghost fpar': seq<nat>)
    requires Scanning(fs.tree, folders, qs, par, fi, mark, seen, foundKeys, found, fpar)
    requires Staged(fs.tree, found, hash, commits)
    requires fi < |qs| && folder == FolderString(qs[fi])
    requires ValidName(entry.name) && entry.name !in seen && qs[fi] + [entry.name] in fs.tree
    requires entry.isDir == fs.tree[qs[fi] + [entry.name]].Dir?
    ensures err.None? ==>
      && Scanning(fs.tree, folders', qs', par', fi, mark, seen + [entry.name], foundKeys', found', fpar')
      && Staged(fs.tree, found', hash, commits')
    ensures err.None? ==> fi < |qs'| && qs'[fi] == qs[fi]
    ensures err.Some? ==> SomeFileFails(fs.tree, hash)
  {
    ghost var t := fs.tree;
    ghost var p := qs[fi] + [entry.name];
    folders', foundKeys', commits', qs', par', found', fpar' := folders, foundKeys, commits, qs, par, found, fpar;
    if entry.isDir {
      if entry.name == ".vc" || entry.name == ".git" || entry.name == ".commits" {
        StepSkip(t, folders, qs, par, fi, mark, seen, foundKeys, found, fpar, entry.name);
        return None, folders', foundKeys', commits', qs', par', found', fpar';
      }
      StepFolder(t, folders, qs, par, fi, mark, seen, foundKeys, found, fpar, entry.name);
      folders' := folders + [folder + entry.name + "/"];
      qs', par' := qs + [p], par + [fi];
      return None, folders', foundKeys', commits', qs', par', found', fpar';
    }
    var key := folder + entry.name;
    assert ValidPath(p) && key == KeyString(p) by {
      FolderChild(qs[fi], entry.name);
      assert forall i :: 0 <= i < |qs[fi]| ==> p[i] == qs[fi][i];
    }
    ResolveKeyString(p);
    var content := ReadFile(fs.tree, key);
    foundKeys' := foundKeys + [key];
    if content.Err? {
      assert false;
    }
    StepFile(t, folders, qs, par, fi, mark, seen, foundKeys, found, fpar, entry.name);
    found', fpar' := found + [p], fpar + [fi];
    var d := StageFile(fs, key, content.value, hash);
    if d.Err? {
      assert VisibleFile(t, p);
      return Some(d.error), folders', foundKeys', commits', qs', par', found', fpar';
    }
    StagedSnoc(t, found, p, hash, commits, d.value);
    if d.value.Some? {
      commits' := commits + [d.value.value];
    }
    err := None;
  }

  /** What the listing says about its `j`-th entry. */
  lemma ListingEntry(t: Tree, dir: Path, listing: seq<DirEntry>, j: nat)
    requires dir in t && t[dir].Dir? && listing == Listing(t, dir, t[dir].entries) && j < |listing|
    requires StrictlySorted(t[dir].entries)
    requires forall n :: n in t[dir].entries ==> ValidName(n) && dir + [n] in t
    ensures listing[j].name == t[dir].entries[j]
    ensures ValidName(listing[j].name) && dir + [listing[j].name] in t
    ensures listing[j].isDir == t[dir + [listing[j].name]].Dir?
    ensures listing[j].name !in t[dir].entries[..j]
  {
    assert t[dir].entries[j] in t[dir].entries;
    SortedFresh(t[dir].entries, j);
  }

  /** The loop over one folder's listing: deals with each entry in turn. */
  method ScanFolder(fs: FileSystem, hash: string -> Digest, listing: seq<DirEntry>, folders: seq<string>, fi: nat,
                    foundKeys: seq<string>, commits: seq<SimpleCommitStruct>,
                    ghost qs: seq<Path>, ghost par: seq<nat>, ghost found: seq<Path>, ghost fpar: seq<nat>)
    returns (err: Option<Error>, folders': seq<string>, foundKeys': seq<string>, commits': seq<SimpleCommitStruct>,
             ghost qs': seq<Path>, ghost par': seq<nat>, ghost found': seq<Path>, ghost fpar': seq<nat>)
    requires Scanning(fs.tree, folders, qs, par, fi, |qs|, [], foundKeys, found, fpar)
    requires Staged(fs.tree, found, hash, commits)
    requires fi < |folders| && qs[fi] in fs.tree && fs.tree[qs[fi]].Dir?
    requires listing == Listing(fs.tree, qs[fi], fs.tree[qs[fi]].entries)
    requires StrictlySorted(fs.tree[qs[fi]].entries)
    requires forall n :: n in fs.tree[qs[fi]].entries ==> ValidName(n) && qs[fi] + [n] in fs.tree
    ensures err.None? ==>
      && Scanning(fs.tree, folders', qs', par', fi, |qs|, fs.tree[qs[fi]].entries, foundKeys', found', fpar')
      && Staged(fs.tree, found', hash, commits')
      && fi < |qs'| && qs'[fi] == qs[fi]
    ensures err.Some? ==> SomeFileFails(fs.tree, hash)
  {
    ghost var t := fs.tree;
    folders', foundKeys', commits', qs', par', found', fpar' := folders, foundKeys, commits, qs, par, found, fpar;
    var folder := folders[fi];
    ghost var dir := qs[fi];
    assert folder == FolderString(dir);
    ghost var entries := t[dir].entries;
    ghost var mark := |qs|;
    assert entries[..0] == [];
    for j := 0 to |listing|
      invariant Scanning(t, folders', qs', par', fi, mark, entries[..j], foundKeys', found', fpar')
      invariant Staged(t, found', hash, commits')
      invariant fi < |qs'| && qs'[fi] == dir
    {
      var fileOrFolder := listing[j];
      ListingEntry(t, dir, listing, j);
      TakeOneMore(entries, j);
      err, folders', foundKeys', commits', qs', par', found', fpar' :=
        ScanEntry(fs, folder, fileOrFolder, hash, folders', foundKeys', commits', qs', par', fi, mark, entries[..j],
                  found', fpar');
      if err.Some? {
        return;
      }
    }
    assert entries[..|entries|] == entries;
    err := None;
  }

  /** Step 2 of `DiffForCommit`: the scan of the working tree from "./". */
  method ScanTree(fs: FileSystem, hash: string -> Digest)
    returns (err: Option<Error>, commits: seq<SimpleCommitStruct>, foundKeys: seq<string>, ghost found: seq<Path>)
    requires fs.Valid()
    ensures err.None? ==> FoundAll(fs.tree, foundKeys, found) && Staged(fs.tree, found, hash, commits)
    ensures err.Some? ==> SomeFileFails(fs.tree, hash)
  {
    ghost var t := fs.tree;
    ScanStart(t);
    var foldersToNavigate := ["./"];
    ghost var qs: seq<Path> := [[]];
    ghost var par: seq<nat> := [0];
    ghost var fpar: seq<nat> := [];
    foundKeys, commits, found := [], [], [];
    var folderi := 0;
    while folderi < |foldersToNavigate|
      invariant Scanning(t, foldersToNavigate, qs, par, folderi, |qs|, [], foundKeys, found, fpar)
      invariant Staged(t, found, hash, commits)
      decreases |t.Keys| - folderi
    {
      QueueBound(t, qs, par, 1, 0, folderi, |qs|, []);
      var folder := foldersToNavigate[folderi];
      assert VisibleDir(t, qs[folderi]) && ValidPath(qs[folderi]);
      ResolveFolderString(qs[folderi]);
      var filesAndFolders := ReadDir(fs.tree, folder);
      if filesAndFolders.Err? {
        assert false;
      }
      ListedChildren(t, qs[folderi]);
      ghost var mark := |qs|;
      ghost var dir := qs[folderi];
      err, foldersToNavigate, foundKeys, commits, qs, par, found, fpar :=
        ScanFolder(fs, hash, filesAndFolders.value, foldersToNavigate, folderi, foundKeys, commits, qs, par, found, fpar);
      if err.Some? {
        return;
      }
      StepNextFolder(t, foldersToNavigate, qs, par, folderi, mark, foundKeys, found, fpar);
      folderi := folderi + 1;
    }
    ScanResult(t, foldersToNavigate, qs, par, foundKeys, found, fpar);
    err := None;
  }

  /** `DiffForCommit`: the known keys of the store, then the records of the
      visible files in the order of the scan, then one deletion record per
      known key whose file the scan did not meet.  `found` is the order in
      which the scan met the files, `known` the keys in the order of
      discovery. */
  method DiffForCommit(fs: FileSystem, hash: string -> Digest)
    returns (r: Result<seq<SimpleCommitStruct>>, ghost found: seq<Path>, ghost known: seq<string>)
    requires fs.Valid()
    ensures r.Ok? ==> !StoreBroken(fs.tree) && KeysOf(fs.tree, known) && FoundAll(fs.tree, Spell(found), found)
    ensures r.Ok? ==> StageAll(fs.tree, found, hash).Ok?
    ensures r.Ok? ==> r.value == StageAll(fs.tree, found, hash).value + Deletions(known, Spell(found))
    ensures r.Err? ==> StoreBroken(fs.tree) || SomeFileFails(fs.tree, hash)
    ensures StoreBroken(fs.tree) ==> r.Err?
  {
    found, known := [], [];
    var keys := DiscoverKeys(fs);
    if keys.Err? {
      return Err(keys.error), found, known;
    }
    var knownKeys := keys.value;
    known := knownKeys;
    var err, commits, foundKeys;
    err, commits, foundKeys, found := ScanTree(fs, hash);
    if err.Some? {
      return Err(err.value), found, known;
    }
    var deleted := DeletedKeys(knownKeys, foundKeys);
    commits := commits + deleted;
    return Ok(commits), found, known;
  }

  // ---------------------------------------------------------------------------
  // What the records mean

  /** The binary check finds the hash exactly when some commit carries it,
      as long as every commit name has a `+`. */
  lemma {:induction false} HashSeenMeaning(names: seq<string>, h: string)
    requires forall i :: 0 <= i < |names| ==> HashPart(names[i]).Ok?
    ensures HashSeen(names, h).Ok?
    ensures HashSeen(names, h).value <==> exists i :: 0 <= i < |names| && HashPart(names[i]) == Ok(h)
    decreases |names|
  {
    if names != [] {
      HashSeenMeaning(names[1..], h);
      if HashPart(names[0]) != Ok(h) {
        forall i | 0 <= i < |names| && HashPart(names[i]) == Ok(h)
          ensures exists k :: 0 <= k < |names[1..]| && HashPart(names[1..][k]) == Ok(h)
        {
          assert names[1..][i - 1] == names[i];
        }
        forall k | 0 <= k < |names[1..]| && HashPart(names[1..][k]) == Ok(h)
          ensures exists i :: 0 <= i < |names| && HashPart(names[i]) == Ok(h)
        {
          assert names[1..][k] == names[k + 1];
        }
      }
    }
  }

  /** A record for a file carries the file's key; a text record carries
      its content as the new content, a binary one its bytes; an empty file
      never has a record. */
  lemma DecideRecord(t: Tree, key: string, content: string, hash: string -> Digest, s: SimpleCommitStruct)
    requires Decide(t, key, content, hash) == Ok(Some(s))
    ensures s.key == key && content != ""
    ensures Binary(content) ==> s.binaryContent == Some(content) && Classify(s) == BinaryChanged
    ensures !Binary(content) ==> s.binaryContent.None? && s.newContent == content
    ensures !Binary(content) ==> Classify(s) == (if s.oldContent == "" then Added else Changed)
  {
  }

  /** A run of decisions stops exactly when one of them fails. */
  lemma {:induction false} CollectOk(ds: seq<Result<Option<SimpleCommitStruct>>>)
    ensures Collect(ds).Ok? <==> forall b :: 0 <= b < |ds| ==> ds[b].Ok?
    decreases |ds|
  {
    if ds != [] {
      var init := ds[..|ds| - 1];
      CollectOk(init);
      assert forall b :: 0 <= b < |init| ==> init[b] == ds[b];
    }
  }

  /** The records of a run that did not stop: one per decision that is a
      record, and nothing else. */
  lemma {:induction false} CollectRecords(ds: seq<Result<Option<SimpleCommitStruct>>>, s: SimpleCommitStruct)
    requires Collect(ds).Ok?
    ensures s in Collect(ds).value <==> exists b :: 0 <= b < |ds| && ds[b] == Ok(Some(s))
    decreases |ds|
  {
    if ds != [] {
      var init := ds[..|ds| - 1];
      CollectRecords(init, s);
      assert forall b :: 0 <= b < |init| ==> init[b] == ds[b];
      if exists b :: 0 <= b < |ds| && ds[b] == Ok(Some(s)) {
        var b :| 0 <= b < |ds| && ds[b] == Ok(Some(s));
        if b < |init| {
          assert init[b] == Ok(Some(s));
        }
      }
    }
  }

  /** The scan stops exactly when the record of one of the files met cannot
      be computed; otherwise its records are those of the files met. */
  lemma StageAllMeaning(t: Tree, ps: seq<Path>, hash: string -> Digest, s: SimpleCommitStruct)
    requires forall b :: 0 <= b < |ps| ==> ps[b] in t && t[ps[b]].File?
    ensures StageAll(t, ps, hash).Ok? <==>
      forall b :: 0 <= b < |ps| ==> Decide(t, KeyString(ps[b]), t[ps[b]].data, hash).Ok?
    ensures StageAll(t, ps, hash).Ok? ==> (s in StageAll(t, ps, hash).value <==>
      exists b :: 0 <= b < |ps| && Decide(t, KeyString(ps[b]), t[ps[b]].data, hash) == Ok(Some(s)))
  {
    var ds := Decisions(t, ps, hash);
    assert StageAll(t, ps, hash) == Collect(ds);
    assert forall b :: 0 <= b < |ps| ==> ds[b] == Decide(t, KeyString(ps[b]), t[ps[b]].data, hash);
    CollectOk(ds);
    if Collect(ds).Ok? {
      CollectRecords(ds, s);
    }
  }

  /** The deletion records: one for each known key the scan did not meet,
      with empty contents. */
  lemma {:induction false} DeletionsMeaning(known: seq<string>, foundKeys: seq<string>, s: SimpleCommitStruct)
    ensures s in Deletions(known, foundKeys) <==>
      s.key in known && s.key !in foundKeys && s == SimpleCommitStruct(s.key, "", "", None)
    ensures s in Deletions(known, foundKeys) ==> Classify(s) == Deleted
    decreases |known|
  {
    if known != [] {
      var init := known[..|known| - 1];
      DeletionsMeaning(init, foundKeys, s);
      assert known == init + [known[|known| - 1]];
    }
  }

  /** A deletion record names a key of the store whose file is no longer in
      the working tree, and every such key has one. */
  lemma DeletedKeysExactly(t: Tree, known: seq<string>, found: seq<Path>, rel: Path)
    requires KeysOf(t, known) && FoundAll(t, Spell(found), found)
    requires IsKey(t, rel)
    ensures SimpleCommitStruct(KeyString(rel), "", "", None) in Deletions(known, Spell(found)) <==> !VisibleFile(t, rel)
  {
    var k := KeyString(rel);
    DeletionsMeaning(known, Spell(found), SimpleCommitStruct(k, "", "", None));
    if k in Spell(found) {
      var b :| 0 <= b < |found| && Spell(found)[b] == k;
      KeyStringInjective(found[b], rel);
    }
    if VisibleFile(t, rel) {
      var b :| 0 <= b < |found| && found[b] == rel;
      assert Spell(found)[b] == k;
    }
  }

  // ---------------------------------------------------------------------------
  // Reporting

  /** How `PrintDiffs` describes a record. */
  datatype Status = BinaryChanged | Added | Deleted | Changed

  function Classify(s: SimpleCommitStruct): Status
  {
    if s.binaryContent.Some? then BinaryChanged
    else if s.oldContent == "" && s.newContent != "" then Added
    else if s.newContent == "" then Deleted
    else Changed
  }

  /** The line `PrintDiffs` prints for a record. */
  function Message(s: SimpleCommitStruct): string
  {
    match Classify(s)
    case BinaryChanged => "Binary file " + s.key + " has changed.\n"
    case Added => "New file " + s.key + " added.\n"
    case Deleted => "File " + s.key + " deleted.\n"
    case Changed => "Changes in file " + s.key + ".\n"
  }

  /** `PrintDiffs`: the lines it prints, one per record, in order. */
  method PrintDiffs(diffs: seq<SimpleCommitStruct>) returns (out: seq<string>)
    ensures |out| == |diffs|
    ensures forall i :: 0 <= i < |diffs| ==> out[i] == Message(diffs[i])
  {
    out := [];
    for i := 0 to |diffs|
      invariant |out| == i
      invariant forall k :: 0 <= k < i ==> out[k] == Message(diffs[k])
    {
      var diff := diffs[i];
      if diff.binaryContent.Some? {
        out := out + ["Binary file " + diff.key + " has changed.\n"];
        continue;
      } else if diff.oldContent == "" && diff.newContent != "" {
        out := out + ["New file " + diff.key + " added.\n"];
        continue;
      } else if diff.newContent == "" {
        out := out + ["File " + diff.key + " deleted.\n"];
        continue;
      } else {
        out := out + ["Changes in file " + diff.key + ".\n"];
      }
    }
  }
}
