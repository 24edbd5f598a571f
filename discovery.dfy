/** Known-key discovery, shared by `FullCommit` and `DiffForCommit`: a walk
    over the key store `.vc/keys` that starts from its entries, keeps every
    folder that has a `.commits` entry as a key, and queues the children of
    every other folder. */
module Discovery {
  import opened Errors
  import opened GoStrings
  import opened FileSystem
  import opened Replay
  import opened Walk

  /** Where `.vc/keys` resolves. */
  const Store: Path := [".vc", "keys"]

  /** `os.Stat(".vc/keys/<key>/.commits")` succeeds. */
  ghost predicate HasCommits(t: Tree, rel: Path)
  {
    Store + rel + [".commits"] in t
  }

  /** No folder strictly above `rel` in the key store is a key. */
  ghost predicate NoKeyAbove(t: Tree, rel: Path)
  {
    forall k :: 1 <= k < |rel| ==> !HasCommits(t, rel[..k])
  }

  /** A key: a key-store folder with a `.commits` entry that lies below no
      other key. */
  ghost predicate IsKey(t: Tree, rel: Path)
  {
    rel != [] && ValidPath(rel) && Store + rel in t && HasCommits(t, rel) && NoKeyAbove(t, rel)
  }

  /** The walk cannot finish: the key store is missing or is a file, or a
      file lies in it below no key, where the walk would list it. */
  ghost predicate StoreBroken(t: Tree)
  {
    || Store !in t || t[Store].File?
    || exists rel :: rel != [] && Store + rel in t && t[Store + rel].File? && NoKeyAbove(t, rel)
  }

  lemma ResolveStore()
    ensures Resolve(".vc/keys") == Store
  {
    assert ".vc/keys" == ".vc" + "/" + "keys";
    ResolveChild(".vc", "keys");
    ResolveName(".vc");
  }

  /** The key-store folder of a key spelled from its path. */
  lemma ResolveKeyDir(rel: Path)
    requires ValidPath(rel)
    ensures Resolve(KeyDir(KeyString(rel))) == Store + rel
  {
    var k := KeyString(rel);
    assert KeyDir(k) == ".vc/keys" + "/" + k;
    ResolveConcat(".vc/keys", k);
    ResolveStore();
    ResolveKeyString(rel);
  }

  /** The commits folder of a key spelled from its path. */
  lemma ResolveCommitsDir(rel: Path)
    requires ValidPath(rel)
    ensures Resolve(CommitsDir(KeyString(rel))) == Store + rel + [".commits"]
  {
    var k := KeyString(rel);
    assert CommitsDir(k) == KeyDir(k) + "/" + ".commits";
    ResolveChild(KeyDir(k), ".commits");
    ResolveKeyDir(rel);
  }

  // ---------------------------------------------------------------------------
  // The walk's invariant

  /** The queue: key spellings, their paths below the store, and the paths
      themselves; every top-level store entry is queued. */
  ghost predicate Walked(t: Tree, known: seq<string>, rels: seq<Path>, qs: seq<Path>)
  {
    && |known| == |rels| == |qs|
    && (forall a :: 0 <= a < |qs| ==>
          ValidPath(rels[a]) && rels[a] != [] && known[a] == KeyString(rels[a])
          && qs[a] == Store + rels[a] && NoKeyAbove(t, rels[a]))
    && Store in t && t[Store].Dir?
    && (forall n :: n in t[Store].entries ==> Store + [n] in qs)
  }

  /** Every folder taken from the queue before `ki` that is not a key had
      its children queued. */
  ghost predicate Expanded(t: Tree, rels: seq<Path>, qs: seq<Path>, ki: nat)
    requires ki <= |rels| == |qs|
  {
    forall a :: 0 <= a < ki && !HasCommits(t, rels[a]) ==>
      qs[a] in t && t[qs[a]].Dir? && forall n :: n in t[qs[a]].entries ==> qs[a] + [n] in qs
  }

  /** The keys collected so far: the key folders taken from the queue before
      `ki`, in queue order. */
  ghost predicate Collected(t: Tree, known: seq<string>, rels: seq<Path>, ki: nat,
                            keys: seq<string>, keyIdx: seq<nat>)
    requires ki <= |known| == |rels|
  {
    && |keyIdx| == |keys|
    && (forall m :: 0 <= m < |keyIdx| ==>
          keyIdx[m] < ki && keys[m] == known[keyIdx[m]] && HasCommits(t, rels[keyIdx[m]]))
    && (forall m1, m2 :: 0 <= m1 < m2 < |keyIdx| ==> keyIdx[m1] < keyIdx[m2])
    && (forall a :: 0 <= a < ki && HasCommits(t, rels[a]) ==> known[a] in keys)
  }

  /** Queueing child `n` of the folder at `ki`. */
  lemma PushChild(t: Tree, known: seq<string>, rels: seq<Path>, qs: seq<Path>, ki: nat,
                  keys: seq<string>, keyIdx: seq<nat>, n: string)
    requires Walked(t, known, rels, qs) && ki < |qs| && Expanded(t, rels, qs, ki)
    requires Collected(t, known, rels, ki, keys, keyIdx)
    requires ValidName(n) && !HasCommits(t, rels[ki])
    ensures var rel := rels[ki] + [n];
      && Walked(t, known + [known[ki] + "/" + n], rels + [rel], qs + [qs[ki] + [n]])
      && Expanded(t, rels + [rel], qs + [qs[ki] + [n]], ki)
      && Collected(t, known + [known[ki] + "/" + n], rels + [rel], ki, keys, keyIdx)
  {
    var rel := rels[ki] + [n];
    KeyChild(rels[ki], n);
    assert NoKeyAbove(t, rel) by {
      forall k | 1 <= k < |rel| ensures !HasCommits(t, rel[..k]) {
        if k < |rels[ki]| {
          assert rel[..k] == rels[ki][..k];
        } else {
          assert rel[..k] == rels[ki];
        }
      }
    }
  }

  /** The whole invariant of the walk while the folder at `ki` is being
      expanded; its children with names in `seen` are queued. */
  ghost predicate Discovering(t: Tree, known: seq<string>, rels: seq<Path>, qs: seq<Path>, par: seq<nat>,
                              init: nat, ki: nat, mark: nat, seen: seq<string>,
                              keys: seq<string>, keyIdx: seq<nat>)
  {
    && ki <= |qs| && Walked(t, known, rels, qs)
    && Queue(t, qs, par, init, 3, ki, mark, seen)
    && Expanded(t, rels, qs, ki)
    && Collected(t, known, rels, ki, keys, keyIdx)
    && (ki < |qs| ==> forall n :: n in seen ==> qs[ki] + [n] in qs)
  }

  /** The folder at `ki` is a key: it is collected, not expanded. */
  lemma StepKey(t: Tree, known: seq<string>, rels: seq<Path>, qs: seq<Path>, par: seq<nat>,
                init: nat, ki: nat, keys: seq<string>, keyIdx: seq<nat>)
    requires Discovering(t, known, rels, qs, par, init, ki, |qs|, [], keys, keyIdx)
    requires ki < |qs| && HasCommits(t, rels[ki])
    ensures Discovering(t, known, rels, qs, par, init, ki + 1, |qs|, [], keys + [known[ki]], keyIdx + [ki])
  {
    QueueAdvance(t, qs, par, init, 3, ki, |qs|, []);
    ExpandedKey(t, rels, qs, ki);
    CollectKey(t, known, rels, ki, keys, keyIdx);
  }

  lemma ExpandedKey(t: Tree, rels: seq<Path>, qs: seq<Path>, ki: nat)
    requires ki < |rels| == |qs| && Expanded(t, rels, qs, ki) && HasCommits(t, rels[ki])
    ensures Expanded(t, rels, qs, ki + 1)
  {
  }

  lemma CollectKey(t: Tree, known: seq<string>, rels: seq<Path>, ki: nat, keys: seq<string>, keyIdx: seq<nat>)
    requires ki < |known| == |rels| && Collected(t, known, rels, ki, keys, keyIdx) && HasCommits(t, rels[ki])
    ensures Collected(t, known, rels, ki + 1, keys + [known[ki]], keyIdx + [ki])
  {
    var keys', keyIdx' := keys + [known[ki]], keyIdx + [ki];
    assert forall m :: 0 <= m < |keyIdx| ==> keyIdx'[m] == keyIdx[m] && keys'[m] == keys[m];
  }

  /** Queueing the `j`-th child of the folder at `ki`. */
  lemma StepChild(t: Tree, known: seq<string>, rels: seq<Path>, qs: seq<Path>, par: seq<nat>,
                  init: nat, ki: nat, mark: nat, entries: seq<string>, j: nat,
                  keys: seq<string>, keyIdx: seq<nat>)
    requires j < |entries| && StrictlySorted(entries)
    requires Discovering(t, known, rels, qs, par, init, ki, mark, entries[..j], keys, keyIdx)
    requires ki < |qs| && !HasCommits(t, rels[ki])
    requires ValidName(entries[j]) && qs[ki] + [entries[j]] in t
    ensures
      var n := entries[j];
      Discovering(t, known + [known[ki] + "/" + n], rels + [rels[ki] + [n]], qs + [qs[ki] + [n]], par + [ki],
                  init, ki, mark, entries[..j + 1], keys, keyIdx)
  {
    var n := entries[j];
    SortedFresh(entries, j);
    TakeOneMore(entries, j);
    QueuePush(t, qs, par, init, 3, ki, mark, entries[..j], n);
    PushChild(t, known, rels, qs, ki, keys, keyIdx, n);
    SeenPush(qs, ki, entries[..j], n);
  }

  /** The children named so far stay queued when one more is queued. */
  lemma SeenPush(qs: seq<Path>, ki: nat, seen: seq<string>, n: string)
    requires ki < |qs| && forall m :: m in seen ==> qs[ki] + [m] in qs
    ensures var qs' := qs + [qs[ki] + [n]];
      forall m :: m in seen + [n] ==> qs'[ki] + [m] in qs'
  {
  }

  /** The folder at `ki` has been expanded. */
  lemma StepExpanded(t: Tree, known: seq<string>, rels: seq<Path>, qs: seq<Path>, par: seq<nat>,
                     init: nat, ki: nat, mark: nat, keys: seq<string>, keyIdx: seq<nat>)
    requires ki < |qs| && qs[ki] in t && t[qs[ki]].Dir?
    requires Discovering(t, known, rels, qs, par, init, ki, mark, t[qs[ki]].entries, keys, keyIdx)
    requires !HasCommits(t, rels[ki])
    ensures Discovering(t, known, rels, qs, par, init, ki + 1, |qs|, [], keys, keyIdx)
  {
    QueueAdvance(t, qs, par, init, 3, ki, mark, t[qs[ki]].entries);
    ExpandedStep(t, rels, qs, ki);
    CollectSkip(t, known, rels, ki, keys, keyIdx);
  }

  lemma ExpandedStep(t: Tree, rels: seq<Path>, qs: seq<Path>, ki: nat)
    requires ki < |rels| == |qs| && Expanded(t, rels, qs, ki)
    requires qs[ki] in t && t[qs[ki]].Dir? && forall n :: n in t[qs[ki]].entries ==> qs[ki] + [n] in qs
    ensures Expanded(t, rels, qs, ki + 1)
  {
  }

  lemma CollectSkip(t: Tree, known: seq<string>, rels: seq<Path>, ki: nat, keys: seq<string>, keyIdx: seq<nat>)
    requires ki < |known| == |rels| && Collected(t, known, rels, ki, keys, keyIdx) && !HasCommits(t, rels[ki])
    ensures Collected(t, known, rels, ki + 1, keys, keyIdx)
  {
  }

  /** The listing of a folder of a well-formed tree names valid, existing
      children, in sorted order. */
  lemma ListedChildren(t: Tree, p: Path)
    requires WellFormed(t) && p in t && t[p].Dir?
    ensures StrictlySorted(t[p].entries)
    ensures forall n :: n in t[p].entries ==> ValidName(n) && p + [n] in t
  {
  }

  /** The inner loop of the walk: queues every entry of the folder at `ki`,
      which is not a key, under `key + "/" + name`. */
  method ExpandFolder(listing: seq<DirEntry>, key: string, knownKeys: seq<string>, ghost t: Tree,
                      ghost rels: seq<Path>, ghost qs: seq<Path>, ghost par: seq<nat>, ghost init: nat,
                      ghost ki: nat, ghost keys: seq<string>, ghost keyIdx: seq<nat>)
    returns (known': seq<string>, ghost rels': seq<Path>, ghost qs': seq<Path>, ghost par': seq<nat>)
    requires Discovering(t, knownKeys, rels, qs, par, init, ki, |qs|, [], keys, keyIdx)
    requires ki < |qs| && key == knownKeys[ki] && !HasCommits(t, rels[ki])
    requires qs[ki] in t && t[qs[ki]].Dir?
    requires |listing| == |t[qs[ki]].entries|
    requires forall j :: 0 <= j < |listing| ==> listing[j].name == t[qs[ki]].entries[j]
    requires StrictlySorted(t[qs[ki]].entries)
    requires forall n :: n in t[qs[ki]].entries ==> ValidName(n) && qs[ki] + [n] in t
    ensures Discovering(t, known', rels', qs', par', init, ki + 1, |qs'|, [], keys, keyIdx)
  {
    ghost var entries := t[qs[ki]].entries;
    ghost var mark := |qs|;
    known', rels', qs', par' := knownKeys, rels, qs, par;
    assert entries[..0] == [];
    for j := 0 to |listing|
      invariant Discovering(t, known', rels', qs', par', init, ki, mark, entries[..j], keys, keyIdx)
      invariant ki < |qs'| && qs'[ki] == qs[ki] && known'[ki] == key
    {
      var name := listing[j].name;
      assert name == entries[j] && name in entries;
      StepChild(t, known', rels', qs', par', init, ki, mark, entries, j, keys, keyIdx);
      known' := known' + [key + "/" + name];
      rels' := rels' + [rels'[ki] + [name]];
      qs' := qs' + [qs'[ki] + [name]];
      par' := par' + [ki];
    }
    assert entries[..|entries|] == entries;
    StepExpanded(t, known', rels', qs', par', init, ki, mark, keys, keyIdx);
  }

  /** The start of the walk: every entry of the key store, spelled
      `./<name>`. */
  method QueueTop(listing: seq<DirEntry>, ghost t: Tree)
    returns (knownKeys: seq<string>, ghost rels: seq<Path>, ghost qs: seq<Path>, ghost par: seq<nat>)
    requires Store in t && t[Store].Dir?
    requires |listing| == |t[Store].entries|
    requires forall j :: 0 <= j < |listing| ==> listing[j].name == t[Store].entries[j]
    requires StrictlySorted(t[Store].entries)
    requires forall n :: n in t[Store].entries ==> ValidName(n) && Store + [n] in t
    ensures Discovering(t, knownKeys, rels, qs, par, |qs|, 0, |qs|, [], [], [])
  {
    ghost var top := t[Store].entries;
    knownKeys := [];
    rels := [];
    for i := 0 to |listing|
      invariant |knownKeys| == |rels| == i
      invariant forall a :: 0 <= a < i ==> rels[a] == [top[a]] && knownKeys[a] == KeyString(rels[a])
    {
      assert Join([top[i]], '/') == top[i];
      knownKeys := knownKeys + ["./" + listing[i].name];
      rels := rels + [[top[i]]];
    }
    qs := seq(|rels|, a requires 0 <= a < |rels| => Store + rels[a]);
    SortedDistinct(top);
    forall a, b | 0 <= a < b < |qs| ensures qs[a] != qs[b] {
      assert qs[a][2] == top[a] && qs[b][2] == top[b];
    }
    QueueStart(t, qs, 3);
    par := seq(|qs|, _ => 0);
    forall n | n in top ensures Store + [n] in qs {
      var a :| 0 <= a < |top| && top[a] == n;
      assert qs[a] == Store + [n];
    }
    forall a | 0 <= a < |qs| ensures NoKeyAbove(t, rels[a]) && ValidPath(rels[a]) {
      assert top[a] in top;
    }
  }

  /** What the walk knows of a queued folder. */
  lemma QueuedFolder(t: Tree, known: seq<string>, rels: seq<Path>, qs: seq<Path>, ki: nat)
    requires Walked(t, known, rels, qs) && ki < |qs|
    ensures ValidPath(rels[ki]) && known[ki] == KeyString(rels[ki]) && qs[ki] == Store + rels[ki]
  {
  }

  /** One turn of the walk: the folder at `ki` is kept as a key when it has
      a `.commits` entry, and has its entries queued otherwise. */
  method VisitFolder(fs: FileSystem, knownKeys: seq<string>, ghost rels: seq<Path>, ghost qs: seq<Path>,
                     ghost par: seq<nat>, ghost init: nat, ki: nat, keysWithCommits: seq<string>,
                     ghost keyIdx: seq<nat>)
    returns (err: Option<Error>, known': seq<string>, ghost rels': seq<Path>, ghost qs': seq<Path>,
             ghost par': seq<nat>, keys': seq<string>, ghost keyIdx': seq<nat>)
    requires fs.Valid()
    requires Discovering(fs.tree, knownKeys, rels, qs, par, init, ki, |qs|, [], keysWithCommits, keyIdx)
    requires ki < |knownKeys|
    ensures err.None? ==> Discovering(fs.tree, known', rels', qs', par', init, ki + 1, |qs'|, [], keys', keyIdx')
    ensures err.Some? ==> StoreBroken(fs.tree)
  {
    ghost var t := fs.tree;
    known', rels', qs', par', keys', keyIdx' := knownKeys, rels, qs, par, keysWithCommits, keyIdx;
    var key := knownKeys[ki];
    QueuedFolder(t, knownKeys, rels, qs, ki);
    ResolveCommitsDir(rels[ki]);
    if Exists(fs.tree, CommitsDir(key)) {
      StepKey(t, knownKeys, rels, qs, par, init, ki, keysWithCommits, keyIdx);
      keys' := keysWithCommits + [key];
      keyIdx' := keyIdx + [ki];
      return None, known', rels', qs', par', keys', keyIdx';
    }
    ResolveKeyDir(rels[ki]);
    var filesAndFolders := ReadDir(fs.tree, KeyDir(key));
    if filesAndFolders.Err? {
      assert qs[ki] in t;
      assert Store + rels[ki] in t && t[Store + rels[ki]].File? && NoKeyAbove(t, rels[ki]);
      return Some(filesAndFolders.error), known', rels', qs', par', keys', keyIdx';
    }
    ListedChildren(t, qs[ki]);
    known', rels', qs', par' := ExpandFolder(filesAndFolders.value, key, knownKeys, t, rels, qs, par,
                                             init, ki, keysWithCommits, keyIdx);
    err := None;
  }

  /** Once the walk is over, every key-store folder below no key has been
      queued. */
  lemma {:induction false} ReachedAll(t: Tree, known: seq<string>, rels: seq<Path>, qs: seq<Path>, rel: Path)
    requires ParentsList(t) && Walked(t, known, rels, qs) && Expanded(t, rels, qs, |qs|)
    requires rel != [] && Store + rel in t && NoKeyAbove(t, rel)
    ensures Store + rel in qs
    decreases |rel|
  {
    var p := Store + rel;
    assert Parent(p) in t && t[Parent(p)].Dir? && Last(p) in t[Parent(p)].entries;
    if |rel| == 1 {
      assert Parent(p) == Store && p == Store + [Last(p)];
    } else {
      var prel := rel[..|rel| - 1];
      assert Parent(p) == Store + prel;
      assert NoKeyAbove(t, prel) by {
        forall k | 1 <= k < |prel| ensures !HasCommits(t, prel[..k]) {
          assert prel[..k] == rel[..k];
        }
      }
      ReachedAll(t, known, rels, qs, prel);
      var a :| 0 <= a < |qs| && qs[a] == Store + prel;
      assert rels[a] == prel by {
        assert (Store + rels[a])[2..] == rels[a];
        assert (Store + prel)[2..] == prel;
      }
      assert !HasCommits(t, rel[..|rel| - 1]);
      assert p == qs[a] + [Last(p)];
    }
  }

  /** A finished walk leaves no file of the store below no key unlisted. */
  lemma NotBroken(t: Tree, known: seq<string>, rels: seq<Path>, qs: seq<Path>)
    requires ParentsList(t) && Walked(t, known, rels, qs) && Expanded(t, rels, qs, |qs|)
    ensures !StoreBroken(t)
  {
    forall rel | rel != [] && Store + rel in t && NoKeyAbove(t, rel) ensures t[Store + rel].Dir? {
      ReachedAll(t, known, rels, qs, rel);
      var a :| 0 <= a < |qs| && qs[a] == Store + rel;
      assert rels[a] == rel by {
        assert (Store + rels[a])[2..] == rels[a];
        assert (Store + rel)[2..] == rel;
      }
      if HasCommits(t, rel) {
        assert Parent(Store + rel + [".commits"]) == Store + rel;
      }
    }
  }

  /** What a finished walk has found. */
  lemma DiscoveryResult(t: Tree, known: seq<string>, rels: seq<Path>, qs: seq<Path>,
                        keys: seq<string>, keyIdx: seq<nat>)
    requires ParentsList(t) && Walked(t, known, rels, qs) && Expanded(t, rels, qs, |qs|)
    requires Collected(t, known, rels, |qs|, keys, keyIdx)
    requires forall a, b :: 0 <= a < b < |qs| ==> qs[a] != qs[b]
    ensures forall k :: k in keys ==> k == KeyString(Resolve(k)) && IsKey(t, Resolve(k))
    ensures forall rel :: IsKey(t, rel) ==> KeyString(rel) in keys
    ensures forall i, j :: 0 <= i < j < |keys| ==> keys[i] != keys[j]
  {
    forall rel | IsKey(t, rel) ensures KeyString(rel) in keys {
      ReachedAll(t, known, rels, qs, rel);
      var a :| 0 <= a < |qs| && qs[a] == Store + rel;
      assert rels[a] == rel by {
        assert (Store + rels[a])[2..] == rels[a];
        assert (Store + rel)[2..] == rel;
      }
    }
    forall k | k in keys ensures k == KeyString(Resolve(k)) && IsKey(t, Resolve(k)) {
      var m :| 0 <= m < |keys| && keys[m] == k;
      var rel := rels[keyIdx[m]];
      ResolveKeyString(rel);
      assert Parent(Store + rel + [".commits"]) == Store + rel;
    }
    forall i, j | 0 <= i < j < |keys| ensures keys[i] != keys[j] {
      var a, b := keyIdx[i], keyIdx[j];
      if keys[i] == keys[j] {
        KeyStringInjective(rels[a], rels[b]);
      }
    }
  }

  /** `FullCommit`/`DiffForCommit` step 1: the keys of the key store, in the
      order the walk meets them. */
  method DiscoverKeys(fs: FileSystem) returns (r: Result<seq<string>>)
    requires fs.Valid()
    ensures r.Ok? ==> forall k :: k in r.value ==> k == KeyString(Resolve(k)) && IsKey(fs.tree, Resolve(k))
    ensures r.Ok? ==> forall rel :: IsKey(fs.tree, rel) ==> KeyString(rel) in r.value
    ensures r.Ok? ==> forall i, j :: 0 <= i < j < |r.value| ==> r.value[i] != r.value[j]
    ensures r.Ok? <==> !StoreBroken(fs.tree)
  {
    ghost var t := fs.tree;
    ResolveStore();
    var keys := ReadDir(fs.tree, ".vc/keys");
    if keys.Err? {
      return Err(keys.error);
    }
    ListedChildren(t, Store);
    ghost var rels, qs, par;
    var knownKeys;
    knownKeys, rels, qs, par := QueueTop(keys.value, t);
    ghost var init := |qs|;
    var keysWithCommits: seq<string> := [];
    ghost var keyIdx: seq<nat> := [];
    var ki := 0;
    while ki < |knownKeys|
      invariant Discovering(t, knownKeys, rels, qs, par, init, ki, |qs|, [], keysWithCommits, keyIdx)
      decreases |t.Keys| - ki
    {
      QueueBound(t, qs, par, init, 3, ki, |qs|, []);
      var err;
      err, knownKeys, rels, qs, par, keysWithCommits, keyIdx :=
        VisitFolder(fs, knownKeys, rels, qs, par, init, ki, keysWithCommits, keyIdx);
      if err.Some? {
        return Err(err.value);
      }
      ki := ki + 1;
    }
    DiscoveryResult(t, knownKeys, rels, qs, keysWithCommits, keyIdx);
    NotBroken(t, knownKeys, rels, qs);
    return Ok(keysWithCommits);
  }
}
