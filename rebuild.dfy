/** `Rebuild`: recreates the working tree from the key store.  A walk over
    `.vc/keys` lists every queued folder and then lists each of its entries:
    an entry whose listing starts with `.commits` is a key, any other entry
    is queued.  Once the walk is over, every key's latest content (`LastCat`)
    is written at the key's own path. */
module Rebuilding {
  import opened Errors
  import opened GoStrings
  import opened FileSystem
  import opened Walk
  import opened Replay
  import opened Discovery
  import Commit
  import Committing

  // ---------------------------------------------------------------------------
  // Spellings

  /** How the walk spells a store folder: "./" for the store itself, and one
      "/" and one name more per level below it, so `a/b` is ".//a/b". */
  function WalkName(rel: Path): string
  {
    if rel == [] then "./" else ".//" + Join(rel, '/')
  }

  /** `folder + "/" + name` spells the child path. */
  lemma WalkNameChild(rel: Path, n: string)
    ensures WalkName(rel) + "/" + n == WalkName(rel + [n])
  {
    if rel == [] {
      assert rel + [n] == [n];
      assert Join([n], '/') == n;
    } else {
      JoinSnoc(rel, n, '/');
    }
  }

  lemma ResolveDotSlash()
    ensures Resolve("./") == []
  {
    assert "./" == "." + "/" + "";
    ResolveConcat(".", "");
    assert Split(".", '/') == ["."];
    assert Components(["."]) == [];
    assert Split("", '/') == [""];
    assert Components([""]) == [];
  }

  /** A walk spelling names its path, both below the store and in the
      working tree. */
  lemma ResolveWalkName(rel: Path)
    requires ValidPath(rel)
    ensures Resolve(WalkName(rel)) == rel
  {
    ResolveDotSlash();
    if rel != [] {
      var j := Join(rel, '/');
      ResolveKeyString(rel);
      assert KeyString(rel) == "." + "/" + j;
      ResolveConcat(".", j);
      assert Split(".", '/') == ["."];
      assert Components(["."]) == [];
      assert WalkName(rel) == "./" + "/" + j;
      ResolveConcat("./", j);
    }
  }

  /** `.vc/keys/<folder>` is the store folder of the walk spelling. */
  lemma ResolveStoreFolder(rel: Path)
    requires ValidPath(rel)
    ensures Resolve(".vc/keys/" + WalkName(rel)) == Store + rel
    ensures Resolve(KeyDir(WalkName(rel))) == Store + rel
  {
    assert ".vc/keys/" + WalkName(rel) == ".vc/keys" + "/" + WalkName(rel);
    ResolveConcat(".vc/keys", WalkName(rel));
    ResolveStore();
    ResolveWalkName(rel);
  }

  /** `.vc/keys/<folder>/<name>` is the store path of the child. */
  lemma ResolveStoreEntry(rel: Path, n: string)
    requires ValidPath(rel) && ValidName(n)
    ensures Resolve(".vc/keys/" + WalkName(rel) + "/" + n) == Store + rel + [n]
  {
    ResolveChild(".vc/keys/" + WalkName(rel), n);
    ResolveStoreFolder(rel);
  }

  /** The commits folder `LastCat` lists for a key found by the walk. */
  lemma ResolveWalkCommits(rel: Path)
    requires ValidPath(rel)
    ensures Resolve(CommitsDir(WalkName(rel))) == Store + rel + [".commits"]
  {
    assert CommitsDir(WalkName(rel)) == ".vc/keys/" + WalkName(rel) + "/" + ".commits";
    ResolveStoreEntry(rel, ".commits");
  }

  /** The parent folder `Rebuild` creates for a key is the walk spelling of
      the key's parent. */
  lemma WalkNameParent(rel: Path, n: string)
    requires ValidName(n)
    ensures Commit.JoinedParent(WalkName(rel + [n])) == WalkName(rel)
  {
    var s := WalkName(rel);
    WalkNameChild(rel, n);
    assert WalkName(rel + [n]) == s + ['/'] + n;
    SplitConcat(s, '/', n);
    SplitNoSepIsSingleton(n, '/');
    var parts := Split(s, '/') + [n];
    assert parts[..|parts| - 1] == Split(s, '/');
    JoinSplit(s, '/');
  }

  // ---------------------------------------------------------------------------
  // What the walk finds

  /** `os.ReadDir` of the store folder `p` lists `.commits` first. */
  ghost predicate CommitsFirst(t: Tree, p: Path)
  {
    p in t && t[p].Dir? && |t[p].entries| > 0 && t[p].entries[0] == ".commits"
  }

  /** The walk descends through `rel`: no store folder from `rel[..1]` down
      to `rel` itself lists `.commits` first. */
  ghost predicate Open(t: Tree, rel: Path)
  {
    forall k :: 1 <= k <= |rel| ==> !CommitsFirst(t, Store + rel[..k])
  }

  /** A key as `Rebuild` sees it: a store folder that lists `.commits`
      first, below folders the walk descends through. */
  ghost predicate IsStoredKey(t: Tree, rel: Path)
  {
    rel != [] && ValidPath(rel) && CommitsFirst(t, Store + rel) && Open(t, rel[..|rel| - 1])
  }

  /** The walk fails: the store is missing or a file, or a file lies in a
      folder the walk descends through, where listing it fails. */
  ghost predicate RebuildBroken(t: Tree)
  {
    || Store !in t || t[Store].File?
    || exists rel :: rel != [] && Store + rel in t && t[Store + rel].File? && Open(t, rel[..|rel| - 1])
  }

  /** `keys` are the walk spellings of exactly the stored keys. */
  ghost predicate StoredKeys(t: Tree, keys: seq<string>)
  {
    && (forall k :: k in keys ==> k == WalkName(Resolve(k)) && IsStoredKey(t, Resolve(k)))
    && (forall rel :: IsStoredKey(t, rel) ==> WalkName(rel) in keys)
  }

  // ---------------------------------------------------------------------------
  // The walk's invariant

  /** The queue: walk spellings, their paths below the store, and the store
      paths themselves, starting with the store; every queued folder is one
      the walk descends through. */
  ghost predicate Queued(t: Tree, folders: seq<string>, rels: seq<Path>, qs: seq<Path>)
  {
    && |folders| == |rels| == |qs| > 0 && rels[0] == []
    && (forall a :: 0 <= a < |qs| ==>
          ValidPath(rels[a]) && folders[a] == WalkName(rels[a]) && qs[a] == Store + rels[a]
          && Open(t, rels[a]) && qs[a] in t && t[qs[a]].Dir?)
  }

  /** The keys kept so far, with their paths. */
  ghost predicate KeptKeys(t: Tree, keys: seq<string>, keyRels: seq<Path>)
  {
    |keys| == |keyRels| && forall m :: 0 <= m < |keys| ==> keys[m] == WalkName(keyRels[m]) && IsStoredKey(t, keyRels[m])
  }

  /** The entry `c` of a listed folder was listed in turn, and is either
      kept as a key or queued. */
  ghost predicate Classified(t: Tree, c: Path, qs: seq<Path>, keyRels: seq<Path>)
  {
    Store + c in t && t[Store + c].Dir? && (if CommitsFirst(t, Store + c) then c in keyRels else Store + c in qs)
  }

  /** Every folder taken from the queue before `cur` had its entries
      classified. */
  ghost predicate Expanded(t: Tree, rels: seq<Path>, qs: seq<Path>, keyRels: seq<Path>, cur: nat)
    requires cur <= |rels| == |qs|
  {
    forall a :: 0 <= a < cur ==>
      qs[a] in t && t[qs[a]].Dir? && forall n :: n in t[qs[a]].entries ==> Classified(t, rels[a] + [n], qs, keyRels)
  }

  /** The whole invariant of the walk while the folder at `cur` is being
      listed; its entries with names in `seen` are classified. */
  ghost predicate Walking(t: Tree, folders: seq<string>, rels: seq<Path>, qs: seq<Path>, par: seq<nat>,
                          cur: nat, mark: nat, seen: seq<string>, keys: seq<string>, keyRels: seq<Path>)
  {
    && Queued(t, folders, rels, qs)
    && Queue(t, qs, par, 1, 2, cur, mark, seen)
    && KeptKeys(t, keys, keyRels)
    && Expanded(t, rels, qs, keyRels, cur)
    && (cur < |qs| ==> forall n :: n in seen ==> Classified(t, rels[cur] + [n], qs, keyRels))
    && KeysPlaced(rels, keyRels, cur, seen)
  }

  /** No key is kept twice: each kept path lies in a folder listed before
      the one at `cur`, or in that folder under a name already seen. */
  ghost predicate KeysPlaced(rels: seq<Path>, keyRels: seq<Path>, cur: nat, seen: seq<string>)
  {
    && cur <= |rels|
    && (forall a, b :: 0 <= a < b < |keyRels| ==> keyRels[a] != keyRels[b])
    && (forall m :: 0 <= m < |keyRels| ==> PlacedAt(rels, keyRels[m], cur, seen))
  }

  ghost predicate PlacedAt(rels: seq<Path>, k: Path, cur: nat, seen: seq<string>)
  {
    && k != [] && cur <= |rels|
    && (Parent(k) in rels[..cur] || (cur < |rels| && Parent(k) == rels[cur] && Last(k) in seen))
  }

  /** Distinct queued folders have distinct paths below the store. */
  lemma RelsDistinct(t: Tree, folders: seq<string>, rels: seq<Path>, qs: seq<Path>, par: seq<nat>,
                     cur: nat, mark: nat, seen: seq<string>)
    requires Queued(t, folders, rels, qs) && Queue(t, qs, par, 1, 2, cur, mark, seen)
    ensures forall a, b :: 0 <= a < b < |rels| ==> rels[a] != rels[b]
  {
  }

  /** A name not seen yet in the folder at `cur` gives a path not kept yet. */
  lemma KeyFresh(rels: seq<Path>, keyRels: seq<Path>, cur: nat, seen: seq<string>, n: string)
    requires KeysPlaced(rels, keyRels, cur, seen) && cur < |rels| && n !in seen
    requires forall a, b :: 0 <= a < b < |rels| ==> rels[a] != rels[b]
    ensures rels[cur] + [n] !in keyRels
  {
    var c := rels[cur] + [n];
    assert Parent(c) == rels[cur] && Last(c) == n;
    forall m | 0 <= m < |keyRels| ensures keyRels[m] != c {
      if Parent(keyRels[m]) in rels[..cur] {
        var a :| 0 <= a < cur && rels[..cur][a] == Parent(keyRels[m]);
        assert rels[a] != rels[cur];
      }
    }
  }

  /** Keeping the fresh path `rels[cur] + [n]`. */
  lemma PlacedKey(rels: seq<Path>, keyRels: seq<Path>, cur: nat, seen: seq<string>, n: string)
    requires KeysPlaced(rels, keyRels, cur, seen) && cur < |rels| && rels[cur] + [n] !in keyRels
    ensures KeysPlaced(rels, keyRels + [rels[cur] + [n]], cur, seen + [n])
  {
    var c := rels[cur] + [n];
    var keyRels' := keyRels + [c];
    assert Parent(c) == rels[cur] && Last(c) == n;
    forall m | 0 <= m < |keyRels'| ensures PlacedAt(rels, keyRels'[m], cur, seen + [n]) {
      if m < |keyRels| {
        assert keyRels'[m] == keyRels[m] && PlacedAt(rels, keyRels[m], cur, seen);
      }
    }
    forall a, b | 0 <= a < b < |keyRels'| ensures keyRels'[a] != keyRels'[b] {
      assert keyRels'[a] == keyRels[a];
      if b == |keyRels| {
        assert keyRels'[b] == c;
      } else {
        assert keyRels'[b] == keyRels[b];
      }
    }
  }

  /** Queueing a folder and moving past a name keeps the kept paths placed. */
  lemma PlacedFolder(rels: seq<Path>, keyRels: seq<Path>, cur: nat, seen: seq<string>, c: Path, n: string)
    requires KeysPlaced(rels, keyRels, cur, seen) && cur < |rels|
    ensures KeysPlaced(rels + [c], keyRels, cur, seen + [n])
  {
    var rels' := rels + [c];
    assert rels'[..cur] == rels[..cur] && rels'[cur] == rels[cur];
    forall m | 0 <= m < |keyRels| ensures PlacedAt(rels', keyRels[m], cur, seen + [n]) {
      assert PlacedAt(rels, keyRels[m], cur, seen);
    }
  }

  /** Moving on to the next folder. */
  lemma PlacedAdvance(rels: seq<Path>, keyRels: seq<Path>, cur: nat, seen: seq<string>)
    requires KeysPlaced(rels, keyRels, cur, seen) && cur < |rels|
    ensures KeysPlaced(rels, keyRels, cur + 1, [])
  {
    forall m | 0 <= m < |keyRels| ensures PlacedAt(rels, keyRels[m], cur + 1, []) {
      assert PlacedAt(rels, keyRels[m], cur, seen);
      assert rels[..cur + 1] == rels[..cur] + [rels[cur]];
    }
  }

  /** Distinct kept paths are spelled differently. */
  lemma KeysDistinct(t: Tree, keys: seq<string>, keyRels: seq<Path>)
    requires KeptKeys(t, keys, keyRels)
    requires forall a, b :: 0 <= a < b < |keyRels| ==> keyRels[a] != keyRels[b]
    ensures forall a, b :: 0 <= a < b < |keys| ==> keys[a] != keys[b]
  {
    forall a, b | 0 <= a < b < |keys| ensures keys[a] != keys[b] {
      ResolveWalkName(keyRels[a]);
      ResolveWalkName(keyRels[b]);
    }
  }

  /** The walk starts from the store alone. */
  lemma StartWalk(t: Tree)
    requires Store in t && t[Store].Dir?
    ensures Walking(t, ["./"], [[]], [Store], [0], 0, 1, [], [], [])
  {
    QueueStart(t, [Store], 2);
    assert seq(1, _ => 0) == [0];
    assert Store + [][..0] == Store;
  }

  lemma ClassifiedGrows(t: Tree, c: Path, qs: seq<Path>, keyRels: seq<Path>, qs': seq<Path>, keyRels': seq<Path>)
    requires Classified(t, c, qs, keyRels) && qs <= qs' && keyRels <= keyRels'
    ensures Classified(t, c, qs', keyRels')
  {
    if CommitsFirst(t, Store + c) {
      var m :| 0 <= m < |keyRels| && keyRels[m] == c;
      assert keyRels'[m] == c;
    } else {
      var a :| 0 <= a < |qs| && qs[a] == Store + c;
      assert qs'[a] == Store + c;
    }
  }

  /** Queueing a folder or keeping a key leaves what was classified
      classified. */
  lemma ExpandedGrows(t: Tree, rels: seq<Path>, qs: seq<Path>, keyRels: seq<Path>, cur: nat,
                      rels': seq<Path>, qs': seq<Path>, keyRels': seq<Path>)
    requires cur <= |rels| == |qs| && Expanded(t, rels, qs, keyRels, cur)
    requires rels <= rels' && qs <= qs' && |rels'| == |qs'| && keyRels <= keyRels'
    ensures Expanded(t, rels', qs', keyRels', cur)
  {
    forall a, n | 0 <= a < cur && n in t[qs[a]].entries
      ensures Classified(t, rels'[a] + [n], qs', keyRels')
    {
      assert rels'[a] == rels[a] && qs'[a] == qs[a];
      ClassifiedGrows(t, rels[a] + [n], qs, keyRels, qs', keyRels');
    }
  }

  /** The entries of the current folder classified so far stay classified. */
  lemma SeenGrows(t: Tree, c0: Path, seen: seq<string>, qs: seq<Path>, keyRels: seq<Path>,
                  qs': seq<Path>, keyRels': seq<Path>)
    requires forall n :: n in seen ==> Classified(t, c0 + [n], qs, keyRels)
    requires qs <= qs' && keyRels <= keyRels'
    ensures forall n :: n in seen ==> Classified(t, c0 + [n], qs', keyRels')
  {
    forall n | n in seen ensures Classified(t, c0 + [n], qs', keyRels') {
      ClassifiedGrows(t, c0 + [n], qs, keyRels, qs', keyRels');
    }
  }

  /** The entry `n` of the folder at `cur` lists `.commits` first: it is kept
      as a key. */
  lemma StepKey(t: Tree, folders: seq<string>, rels: seq<Path>, qs: seq<Path>, par: seq<nat>,
                cur: nat, mark: nat, entries: seq<string>, j: nat, keys: seq<string>, keyRels: seq<Path>)
    requires j < |entries| && StrictlySorted(entries)
    requires Walking(t, folders, rels, qs, par, cur, mark, entries[..j], keys, keyRels)
    requires cur < |qs| && ValidName(entries[j]) && CommitsFirst(t, qs[cur] + [entries[j]])
    ensures
      var n := entries[j];
      Walking(t, folders, rels, qs, par, cur, mark, entries[..j + 1],
              keys + [folders[cur] + "/" + n], keyRels + [rels[cur] + [n]])
  {
    var n := entries[j];
    var c := rels[cur] + [n];
    var keys', keyRels' := keys + [folders[cur] + "/" + n], keyRels + [c];
    TakeOneMore(entries, j);
    QueueSkip(t, qs, par, 1, 2, cur, mark, entries[..j], n);
    WalkNameChild(rels[cur], n);
    assert qs[cur] + [n] == Store + c;
    assert c[..|c| - 1] == rels[cur];
    assert IsStoredKey(t, c);
    KeptKeysPush(t, keys, keyRels, folders[cur] + "/" + n, c);
    ExpandedGrows(t, rels, qs, keyRels, cur, rels, qs, keyRels');
    SeenGrows(t, rels[cur], entries[..j], qs, keyRels, qs, keyRels');
    assert keyRels'[|keyRels|] == c;
    SeenAdd(t, rels[cur], entries[..j], n, qs, keyRels');
    SortedFresh(entries, j);
    RelsDistinct(t, folders, rels, qs, par, cur, mark, entries[..j]);
    KeyFresh(rels, keyRels, cur, entries[..j], n);
    PlacedKey(rels, keyRels, cur, entries[..j], n);
  }

  lemma KeptKeysPush(t: Tree, keys: seq<string>, keyRels: seq<Path>, k: string, c: Path)
    requires KeptKeys(t, keys, keyRels) && k == WalkName(c) && IsStoredKey(t, c)
    ensures KeptKeys(t, keys + [k], keyRels + [c])
  {
    var keys', keyRels' := keys + [k], keyRels + [c];
    assert forall m :: 0 <= m < |keys| ==> keys'[m] == keys[m] && keyRels'[m] == keyRels[m];
  }

  /** Classifying entry `n` as well. */
  lemma SeenAdd(t: Tree, c0: Path, seen: seq<string>, n: string, qs: seq<Path>, keyRels: seq<Path>)
    requires forall x :: x in seen ==> Classified(t, c0 + [x], qs, keyRels)
    requires Classified(t, c0 + [n], qs, keyRels)
    ensures forall x :: x in seen + [n] ==> Classified(t, c0 + [x], qs, keyRels)
  {
  }

  /** The entry `n` of the folder at `cur` is a folder that does not list
      `.commits` first: it is queued. */
  lemma StepFolder(t: Tree, folders: seq<string>, rels: seq<Path>, qs: seq<Path>, par: seq<nat>,
                   cur: nat, mark: nat, entries: seq<string>, j: nat, keys: seq<string>, keyRels: seq<Path>)
    requires j < |entries| && StrictlySorted(entries)
    requires Walking(t, folders, rels, qs, par, cur, mark, entries[..j], keys, keyRels)
    requires cur < |qs| && ValidName(entries[j])
    requires qs[cur] + [entries[j]] in t && t[qs[cur] + [entries[j]]].Dir?
    requires !CommitsFirst(t, qs[cur] + [entries[j]])
    ensures
      var n := entries[j];
      Walking(t, folders + [folders[cur] + "/" + n], rels + [rels[cur] + [n]], qs + [qs[cur] + [n]], par + [cur],
              cur, mark, entries[..j + 1], keys, keyRels)
  {
    var n := entries[j];
    var c := rels[cur] + [n];
    var folders', rels', qs' := folders + [folders[cur] + "/" + n], rels + [c], qs + [qs[cur] + [n]];
    TakeOneMore(entries, j);
    SortedFresh(entries, j);
    QueuePush(t, qs, par, 1, 2, cur, mark, entries[..j], n);
    WalkNameChild(rels[cur], n);
    assert qs[cur] + [n] == Store + c;
    OpenChild(t, rels[cur], n);
    QueuedPush(t, folders, rels, qs, c, folders[cur] + "/" + n);
    ExpandedGrows(t, rels, qs, keyRels, cur, rels', qs', keyRels);
    SeenGrows(t, rels[cur], entries[..j], qs, keyRels, qs', keyRels);
    assert qs'[|qs|] == Store + c;
    PlacedFolder(rels, keyRels, cur, entries[..j], c, n);
  }

  /** A folder that does not list `.commits` first, below an open folder, is
      open. */
  lemma OpenChild(t: Tree, rel: Path, n: string)
    requires Open(t, rel) && !CommitsFirst(t, Store + rel + [n])
    ensures Open(t, rel + [n])
  {
    var c := rel + [n];
    forall k | 1 <= k <= |c| ensures !CommitsFirst(t, Store + c[..k]) {
      if k <= |rel| {
        assert c[..k] == rel[..k];
      } else {
        assert c[..k] == c && Store + c == Store + rel + [n];
      }
    }
  }

  lemma QueuedPush(t: Tree, folders: seq<string>, rels: seq<Path>, qs: seq<Path>, c: Path, f: string)
    requires Queued(t, folders, rels, qs)
    requires ValidPath(c) && f == WalkName(c) && Open(t, c) && Store + c in t && t[Store + c].Dir?
    ensures Queued(t, folders + [f], rels + [c], qs + [Store + c])
  {
    var folders', rels', qs' := folders + [f], rels + [c], qs + [Store + c];
    assert forall a :: 0 <= a < |qs| ==> folders'[a] == folders[a] && rels'[a] == rels[a] && qs'[a] == qs[a];
  }

  /** Every entry of the folder at `cur` is classified: the walk moves on. */
  lemma StepDone(t: Tree, folders: seq<string>, rels: seq<Path>, qs: seq<Path>, par: seq<nat>,
                 cur: nat, mark: nat, keys: seq<string>, keyRels: seq<Path>)
    requires cur < |qs| && qs[cur] in t && t[qs[cur]].Dir?
    requires Walking(t, folders, rels, qs, par, cur, mark, t[qs[cur]].entries, keys, keyRels)
    ensures Walking(t, folders, rels, qs, par, cur + 1, |qs|, [], keys, keyRels)
  {
    QueueAdvance(t, qs, par, 1, 2, cur, mark, t[qs[cur]].entries);
    PlacedAdvance(rels, keyRels, cur, t[qs[cur]].entries);
  }

  /** Once the walk is over, every store folder it descends through has been
      queued. */
  lemma {:induction false} ReachedAll(t: Tree, folders: seq<string>, rels: seq<Path>, qs: seq<Path>, par: seq<nat>,
                                      keys: seq<string>, keyRels: seq<Path>, rel: Path)
    requires ParentsList(t) && Walking(t, folders, rels, qs, par, |qs|, |qs|, [], keys, keyRels)
    requires Store + rel in t && Open(t, rel)
    ensures Store + rel in qs
    decreases |rel|
  {
    if rel == [] {
      assert qs[0] == Store + rel;
    } else {
      var prel := rel[..|rel| - 1];
      assert Open(t, prel) by {
        forall k | 1 <= k <= |prel| ensures !CommitsFirst(t, Store + prel[..k]) {
          assert prel[..k] == rel[..k];
        }
      }
      var p := Store + rel;
      assert Parent(p) == Store + prel;
      ReachedAll(t, folders, rels, qs, par, keys, keyRels, prel);
      ListedEntry(t, folders, rels, qs, par, keys, keyRels, rel);
      assert rel[..|rel|] == rel;
    }
  }

  /** A store path whose parent folder was queued was classified when that
      folder was listed. */
  lemma ListedEntry(t: Tree, folders: seq<string>, rels: seq<Path>, qs: seq<Path>, par: seq<nat>,
                    keys: seq<string>, keyRels: seq<Path>, rel: Path)
    requires ParentsList(t) && Walking(t, folders, rels, qs, par, |qs|, |qs|, [], keys, keyRels)
    requires rel != [] && Store + rel in t && Store + rel[..|rel| - 1] in qs
    ensures Classified(t, rel, qs, keyRels)
  {
    var prel := rel[..|rel| - 1];
    StorePathParts(rel);
    var a :| 0 <= a < |qs| && qs[a] == Store + prel;
    StoreInjective(rels[a], prel);
    assert Last(rel) in t[qs[a]].entries;
  }

  /** The parent and last name of a store path. */
  lemma StorePathParts(rel: Path)
    requires rel != []
    ensures Parent(Store + rel) == Store + rel[..|rel| - 1] && Last(Store + rel) == Last(rel)
    ensures rel[..|rel| - 1] + [Last(rel)] == rel
  {
  }

  /** Different paths below the store are different store paths. */
  lemma StoreInjective(a: Path, b: Path)
    requires Store + a == Store + b
    ensures a == b
  {
    assert (Store + a)[2..] == a;
    assert (Store + b)[2..] == b;
  }

  /** A store path whose parent folder the walk descends through was
      classified. */
  lemma Reached(t: Tree, folders: seq<string>, rels: seq<Path>, qs: seq<Path>, par: seq<nat>,
                keys: seq<string>, keyRels: seq<Path>, rel: Path)
    requires ParentsList(t) && Walking(t, folders, rels, qs, par, |qs|, |qs|, [], keys, keyRels)
    requires rel != [] && Store + rel in t && Open(t, rel[..|rel| - 1])
    ensures Classified(t, rel, qs, keyRels)
  {
    var prel := rel[..|rel| - 1];
    assert Parent(Store + rel) == Store + prel;
    ReachedAll(t, folders, rels, qs, par, keys, keyRels, prel);
    ListedEntry(t, folders, rels, qs, par, keys, keyRels, rel);
  }

  /** A finished walk met no file where it lists. */
  lemma WalkNotBroken(t: Tree, folders: seq<string>, rels: seq<Path>, qs: seq<Path>, par: seq<nat>,
                      keys: seq<string>, keyRels: seq<Path>)
    requires ParentsList(t) && Walking(t, folders, rels, qs, par, |qs|, |qs|, [], keys, keyRels)
    ensures !RebuildBroken(t)
  {
    assert qs[0] == Store + rels[0] && rels[0] == [] && Store + [] == Store;
    assert qs[0] in t && t[qs[0]].Dir?;
    forall rel | rel != [] && Store + rel in t && Open(t, rel[..|rel| - 1]) ensures t[Store + rel].Dir? {
      Reached(t, folders, rels, qs, par, keys, keyRels, rel);
    }
  }

  /** What a finished walk has found: exactly the stored keys. */
  lemma WalkResult(t: Tree, folders: seq<string>, rels: seq<Path>, qs: seq<Path>, par: seq<nat>,
                   keys: seq<string>, keyRels: seq<Path>)
    requires ParentsList(t) && Walking(t, folders, rels, qs, par, |qs|, |qs|, [], keys, keyRels)
    ensures StoredKeys(t, keys)
    ensures forall a, b :: 0 <= a < b < |keys| ==> keys[a] != keys[b]
  {
    KeysDistinct(t, keys, keyRels);
    forall rel | IsStoredKey(t, rel) ensures WalkName(rel) in keys {
      Reached(t, folders, rels, qs, par, keys, keyRels, rel);
      var m :| 0 <= m < |keyRels| && keyRels[m] == rel;
      assert keys[m] == WalkName(rel);
    }
    KeptSound(t, keys, keyRels);
  }

  lemma KeptSound(t: Tree, keys: seq<string>, keyRels: seq<Path>)
    requires KeptKeys(t, keys, keyRels)
    ensures forall k :: k in keys ==> k == WalkName(Resolve(k)) && IsStoredKey(t, Resolve(k))
  {
    forall k | k in keys ensures k == WalkName(Resolve(k)) && IsStoredKey(t, Resolve(k)) {
      var m :| 0 <= m < |keys| && keys[m] == k;
      ResolveWalkName(keyRels[m]);
    }
  }

  // ---------------------------------------------------------------------------
  // The walk

  /** The error of a listing under a folder the walk descends through: the
      entry is a file. */
  lemma ListedFile(t: Tree, rel: Path, n: string)
    requires WellFormed(t) && Store + rel in t && t[Store + rel].Dir? && n in t[Store + rel].entries
    requires Open(t, rel) && ReadDir(t, ".vc/keys/" + WalkName(rel) + "/" + n).Err? && ValidPath(rel)
    ensures RebuildBroken(t)
  {
    var c := rel + [n];
    assert ValidName(n) && Store + rel + [n] in t;
    ResolveStoreEntry(rel, n);
    assert Store + c == Store + rel + [n] && c[..|c| - 1] == rel;
    NotListedIsFile(t, ".vc/keys/" + WalkName(rel) + "/" + n);
  }

  /** A node that cannot be listed is a file. */
  lemma NotListedIsFile(t: Tree, path: string)
    requires Resolve(path) in t && ReadDir(t, path).Err?
    ensures t[Resolve(path)].File?
  {
  }

  /** Lists every entry of the folder at `i` in turn: an entry that lists
      `.commits` first is kept as a key, any other is queued. */
  method ClassifyEntries(fs: FileSystem, listing: seq<DirEntry>, i: nat, folders: seq<string>,
                         ghost rels: seq<Path>, ghost qs: seq<Path>, ghost par: seq<nat>,
                         keys: seq<string>, ghost keyRels: seq<Path>)
    returns (err: Option<Error>, folders': seq<string>, ghost rels': seq<Path>, ghost qs': seq<Path>,
             ghost par': seq<nat>, keys': seq<string>, ghost keyRels': seq<Path>)
    requires fs.Valid() && Walking(fs.tree, folders, rels, qs, par, i, |qs|, [], keys, keyRels) && i < |qs|
    requires |listing| == |fs.tree[qs[i]].entries|
    requires forall j :: 0 <= j < |listing| ==> listing[j].name == fs.tree[qs[i]].entries[j]
    ensures err.None? ==> Walking(fs.tree, folders', rels', qs', par', i + 1, |qs'|, [], keys', keyRels')
    ensures err.Some? ==> RebuildBroken(fs.tree)
  {
    ghost var t := fs.tree;
    ghost var entries := t[qs[i]].entries;
    ghost var mark := |qs|;
    ghost var rel := rels[i];
    var folder := folders[i];
    folders', rels', qs', par', keys', keyRels' := folders, rels, qs, par, keys, keyRels;
    assert entries[..0] == [];
    for j := 0 to |listing|
      invariant Walking(t, folders', rels', qs', par', i, mark, entries[..j], keys', keyRels')
      invariant i < |qs'| && folders'[i] == folder && rels'[i] == rel && qs'[i] == qs[i]
    {
      var name := listing[j].name;
      assert name == entries[j] && name in entries;
      assert ValidName(name) && qs[i] + [name] in t;
      ResolveStoreEntry(rel, name);
      var content := ReadDir(fs.tree, ".vc/keys/" + folder + "/" + name);
      if content.Err? {
        ListedFile(t, rel, name);
        return Some(content.error), folders', rels', qs', par', keys', keyRels';
      }
      assert qs[i] + [name] == Store + rel + [name];
      if |content.value| > 0 && content.value[0].name == ".commits" {
        StepKey(t, folders', rels', qs', par', i, mark, entries, j, keys', keyRels');
        keys' := keys' + [folder + "/" + name];
        keyRels' := keyRels' + [rel + [name]];
      } else {
        StepFolder(t, folders', rels', qs', par', i, mark, entries, j, keys', keyRels');
        folders' := folders' + [folder + "/" + name];
        rels' := rels' + [rel + [name]];
        qs' := qs' + [qs[i] + [name]];
        par' := par' + [i];
      }
    }
    assert entries[..|entries|] == entries;
    StepDone(t, folders', rels', qs', par', i, mark, keys', keyRels');
    err := None;
  }

  /** One turn of the walk: lists the folder at `i`, then classifies its
      entries.  The first turn lists the store itself. */
  method VisitFolder(fs: FileSystem, i: nat, folders: seq<string>, ghost rels: seq<Path>, ghost qs: seq<Path>,
                     ghost par: seq<nat>, keys: seq<string>, ghost keyRels: seq<Path>)
    returns (err: Option<Error>, folders': seq<string>, ghost rels': seq<Path>, ghost qs': seq<Path>,
             ghost par': seq<nat>, keys': seq<string>, ghost keyRels': seq<Path>)
    requires fs.Valid() && i < |folders|
    requires (i == 0 && folders == ["./"] && keys == [])
          || (i > 0 && Walking(fs.tree, folders, rels, qs, par, i, |qs|, [], keys, keyRels))
    ensures err.None? ==> Walking(fs.tree, folders', rels', qs', par', i + 1, |qs'|, [], keys', keyRels')
    ensures err.Some? ==> RebuildBroken(fs.tree)
  {
    ghost var t := fs.tree;
    folders', rels', qs', par', keys', keyRels' := folders, rels, qs, par, keys, keyRels;
    if i == 0 {
      ResolveStoreFolder([]);
      assert Store + [] == Store;
    } else {
      ResolveStoreFolder(rels[i]);
    }
    var filesOrFolders := ReadDir(fs.tree, ".vc/keys/" + folders[i]);
    if filesOrFolders.Err? {
      return Some(filesOrFolders.error), folders', rels', qs', par', keys', keyRels';
    }
    if i == 0 {
      StartWalk(t);
      rels', qs', par', keyRels' := [[]], [Store], [0], [];
    }
    assert Resolve(".vc/keys/" + folders[i]) == qs'[i];
    err, folders', rels', qs', par', keys', keyRels' :=
      ClassifyEntries(fs, filesOrFolders.value, i, folders', rels', qs', par', keys', keyRels');
  }

  /** The walk of `Rebuild`: the walk spellings of the stored keys, or the
      error of the first listing that fails. */
  method FindKeys(fs: FileSystem) returns (r: Result<seq<string>>)
    requires fs.Valid()
    ensures r.Ok? <==> !RebuildBroken(fs.tree)
    ensures r.Ok? ==> StoredKeys(fs.tree, r.value)
    ensures r.Ok? ==> forall a, b :: 0 <= a < b < |r.value| ==> r.value[a] != r.value[b]
  {
    ghost var t := fs.tree;
    var keys: seq<string> := [];
    var foldersToNavigate := ["./"];
    ghost var rels: seq<Path>, qs: seq<Path>, par: seq<nat>, keyRels: seq<Path> := [], [], [], [];
    var i := 0;
    while i < |foldersToNavigate|
      invariant (i == 0 && foldersToNavigate == ["./"] && keys == [])
             || (i > 0 && Walking(t, foldersToNavigate, rels, qs, par, i, |qs|, [], keys, keyRels))
      decreases |t.Keys| + 1 - i
    {
      if i > 0 {
        QueueBound(t, qs, par, 1, 2, i, |qs|, []);
      }
      var err;
      err, foldersToNavigate, rels, qs, par, keys, keyRels :=
        VisitFolder(fs, i, foldersToNavigate, rels, qs, par, keys, keyRels);
      if err.Some? {
        return Err(err.value);
      }
      i := i + 1;
    }
    WalkResult(t, foldersToNavigate, rels, qs, par, keys, keyRels);
    WalkNotBroken(t, foldersToNavigate, rels, qs, par, keys, keyRels);
    return Ok(keys);
  }

  // ---------------------------------------------------------------------------
  // Writing the keys back

  /** The disk after some keys were written back, and the error that stopped
      the writing, if any. */
  datatype Restored = Restored(tree: Tree, err: Option<Error>)

  /** One key written back: its latest content, at the key's path, once its
      parent folder was created.  Only a failing `LastCat` is an error; the
      errors of creating the folder and of writing the file are ignored. */
  function RestoreKey(t: Tree, key: string): Restored
  {
    match LastCatIn(t, key)
    case Err(e) => Restored(t, Some(e))
    case Ok(content) =>
      var t1 := Committing.TreeOr(MkdirAllIn(t, Resolve(Commit.JoinedParent(key))), t);
      Restored(Committing.TreeOr(WriteFileIn(t1, key, content), t1), None)
  }

  /** The keys written back in order, up to the first that fails. */
  function RestoreAll(t: Tree, keys: seq<string>): Restored
    decreases |keys|
  {
    if keys == [] then Restored(t, None)
    else
      var prev := RestoreAll(t, keys[..|keys| - 1]);
      if prev.err.Some? then prev else RestoreKey(prev.tree, keys[|keys| - 1])
  }

  /** After the first failure nothing more is written. */
  lemma {:induction false} RestoreAllStops(t: Tree, keys: seq<string>, k: nat)
    requires k <= |keys| && RestoreAll(t, keys[..k]).err.Some?
    ensures RestoreAll(t, keys) == RestoreAll(t, keys[..k])
    decreases |keys|
  {
    if k < |keys| {
      assert keys[..|keys| - 1][..k] == keys[..k];
      RestoreAllStops(t, keys[..|keys| - 1], k);
    } else {
      assert keys[..k] == keys;
    }
  }

  /** Every key's `LastCat` succeeds on the disk left by the keys before
      it. */
  ghost predicate AllReadable(t: Tree, keys: seq<string>)
  {
    forall i :: 0 <= i < |keys| ==> Readable(t, keys, i)
  }

  /** The `i`-th key's `LastCat` succeeds on the disk left by the keys
      before it. */
  ghost predicate Readable(t: Tree, keys: seq<string>, i: nat)
    requires i < |keys|
  {
    LastCatIn(RestoreAll(t, keys[..i]).tree, keys[i]).Ok?
  }

  lemma AllReadableSnoc(t: Tree, keys: seq<string>)
    requires keys != []
    ensures AllReadable(t, keys) <==>
      AllReadable(t, keys[..|keys| - 1]) && Readable(t, keys, |keys| - 1)
  {
    var n := |keys| - 1;
    forall i | 0 <= i < n ensures Readable(t, keys[..n], i) <==> Readable(t, keys, i) {
      ReadablePrefix(t, keys, n, i);
    }
  }

  /** Whether key `i` reads back does not depend on the keys after it. */
  lemma ReadablePrefix(t: Tree, keys: seq<string>, n: nat, i: nat)
    requires i < n <= |keys|
    ensures Readable(t, keys[..n], i) <==> Readable(t, keys, i)
  {
    assert keys[..n][..i] == keys[..i] && keys[..n][i] == keys[i];
  }

  /** Writing back fails exactly when some key's `LastCat` fails on the disk
      left by the keys before it. */
  lemma {:induction false} RestoreAllOk(t: Tree, keys: seq<string>)
    ensures RestoreAll(t, keys).err.None? <==> AllReadable(t, keys)
    decreases |keys|
  {
    if keys != [] {
      RestoreAllOk(t, keys[..|keys| - 1]);
      AllReadableSnoc(t, keys);
    }
  }

  /** Key `i` is the one whose `LastCat` failed with `e`, on the disk left
      by the keys before it, all of which were written back. */
  ghost predicate FailsAt(t: Tree, keys: seq<string>, i: nat, e: Error)
  {
    i < |keys| && RestoreAll(t, keys[..i]).err.None? && LastCatIn(RestoreAll(t, keys[..i]).tree, keys[i]) == Err(e)
  }

  /** The error of writing back is that of the first key whose `LastCat`
      fails. */
  lemma {:induction false} RestoreAllFirstError(t: Tree, keys: seq<string>)
    requires RestoreAll(t, keys).err.Some?
    ensures exists i: nat :: FailsAt(t, keys, i, RestoreAll(t, keys).err.value)
    decreases |keys|
  {
    var n := |keys| - 1;
    var init := keys[..n];
    var prev := RestoreAll(t, init);
    if prev.err.Some? {
      assert RestoreAll(t, keys) == prev;
      RestoreAllFirstError(t, init);
      var i: nat :| FailsAt(t, init, i, prev.err.value);
      FailsAtPrefix(t, keys, n, i, prev.err.value);
    } else {
      var r := RestoreKey(prev.tree, keys[n]);
      assert RestoreAll(t, keys) == r;
      RestoreKeyError(prev.tree, keys[n]);
      assert FailsAt(t, keys, n, r.err.value);
    }
  }

  /** A failure among the first `n` keys is a failure among all of them. */
  lemma FailsAtPrefix(t: Tree, keys: seq<string>, n: nat, i: nat, e: Error)
    requires n <= |keys| && FailsAt(t, keys[..n], i, e)
    ensures FailsAt(t, keys, i, e)
  {
    assert keys[..n][..i] == keys[..i] && keys[..n][i] == keys[i];
  }

  /** Writing back one key fails exactly with its `LastCat` error. */
  lemma RestoreKeyError(t: Tree, key: string)
    ensures RestoreKey(t, key).err.Some? <==> LastCatIn(t, key).Err?
    ensures RestoreKey(t, key).err.Some? ==> LastCatIn(t, key) == Err(RestoreKey(t, key).err.value)
  {
  }

  /** A key found by the walk is written back at its own path in the working
      tree: with its latest content when the parent folder can be created
      and the path is not a folder, and not at all when the parent folder
      cannot be created.  A failing `LastCat` changes nothing. */
  lemma RestoreKeyMeaning(t: Tree, rel: Path)
    requires WellFormed(t) && rel != [] && ValidPath(rel)
    ensures var key := WalkName(rel);
      && (LastCatIn(t, key).Err? ==> RestoreKey(t, key) == Restored(t, Some(LastCatIn(t, key).error)))
      && (LastCatIn(t, key).Ok? ==> RestoreKey(t, key).err.None?)
    ensures var key := WalkName(rel);
      LastCatIn(t, key).Ok? && MkdirAllIn(t, Parent(rel)).Ok? && !(rel in t && t[rel].Dir?) ==>
        ReadFile(RestoreKey(t, key).tree, key) == LastCatIn(t, key)
    ensures var key := WalkName(rel);
      MkdirAllIn(t, Parent(rel)).Err? ==> RestoreKey(t, key).tree == t
  {
    var key := WalkName(rel);
    KeyParent(rel);
    if LastCatIn(t, key).Ok? && MkdirAllIn(t, Parent(rel)).Ok? && !(rel in t && t[rel].Dir?) {
      RestoreKeyWrites(t, rel);
    }
    if MkdirAllIn(t, Parent(rel)).Err? {
      RestoreKeyNoFolder(t, rel);
    }
  }

  /** When the key's folder cannot be made, nothing is written. */
  lemma RestoreKeyNoFolder(t: Tree, rel: Path)
    requires WellFormed(t) && rel != [] && ValidPath(rel)
    requires Resolve(Commit.JoinedParent(WalkName(rel))) == Parent(rel)
    requires MkdirAllIn(t, Parent(rel)).Err?
    ensures RestoreKey(t, WalkName(rel)).tree == t
  {
    ResolveWalkName(rel);
    if Parent(rel) in t && t[Parent(rel)].Dir? {
      Committing.MkdirAllExisting(t, Parent(rel));
    }
  }

  /** The folder `RestoreKey` creates for a key is the parent of its path. */
  lemma KeyParent(rel: Path)
    requires rel != [] && ValidPath(rel)
    ensures Resolve(Commit.JoinedParent(WalkName(rel))) == Parent(rel)
  {
    var prel, n := Parent(rel), Last(rel);
    assert rel == prel + [n] && ValidName(n);
    WalkNameParent(prel, n);
    ResolveWalkName(prel);
    ResolveWalkName(rel);
  }

  /** Once its folder exists, the key's file holds what `LastCat` rebuilt. */
  lemma RestoreKeyWrites(t: Tree, rel: Path)
    requires WellFormed(t) && rel != [] && ValidPath(rel)
    requires Resolve(Commit.JoinedParent(WalkName(rel))) == Parent(rel)
    requires LastCatIn(t, WalkName(rel)).Ok? && MkdirAllIn(t, Parent(rel)).Ok? && !(rel in t && t[rel].Dir?)
    ensures ReadFile(RestoreKey(t, WalkName(rel)).tree, WalkName(rel)) == LastCatIn(t, WalkName(rel))
  {
    var key := WalkName(rel);
    var content := LastCatIn(t, key).value;
    ResolveWalkName(rel);
    MkdirAllWellFormed(t, Parent(rel));
    MkdirAllOnlyAdds(t, Parent(rel));
    var t1 := MkdirAllIn(t, Parent(rel)).value;
    assert !(rel <= Parent(rel));
    assert WriteFileIn(t1, key, content).Ok?;
    WriteThenRead(t1, key, content);
  }

  lemma RestoreStep(t: Tree, keys: seq<string>, k: nat)
    requires k < |keys| && RestoreAll(t, keys[..k]).err.None?
    ensures RestoreAll(t, keys[..k + 1]) == RestoreKey(RestoreAll(t, keys[..k]).tree, keys[k])
  {
    assert keys[..k + 1][..k] == keys[..k] && keys[..k + 1][k] == keys[k];
  }

  /** The second half of `Rebuild`: for each key in turn, `LastCat`, then
      create the parent folder and write the file, ignoring both errors. */
  method RestoreKeys(fs: FileSystem, keys: seq<string>) returns (err: Option<Error>)
    modifies fs
    ensures Restored(fs.tree, err) == RestoreAll(old(fs.tree), keys)
  {
    ghost var t0 := fs.tree;
    for k := 0 to |keys|
      invariant RestoreAll(t0, keys[..k]) == Restored(fs.tree, None)
    {
      var key := keys[k];
      RestoreStep(t0, keys, k);
      ghost var t := fs.tree;
      var lastCat := LastCat(fs, key);
      if lastCat.Err? {
        RestoreAllStops(t0, keys, k + 1);
        return Some(lastCat.error);
      }
      var parentDirSlice := Split(key, '/');
      var parentDir := Join(parentDirSlice[..|parentDirSlice| - 1], '/');
      var _ := fs.MkdirAll(parentDir);
      var _ := fs.WriteFile(key, lastCat.value);
      assert Restored(fs.tree, None) == RestoreKey(t, key);
    }
    assert keys[..|keys|] == keys;
    err := None;
  }

  /** `Rebuild`: when the walk fails nothing is written; otherwise the keys
      found are exactly the stored keys, and they are written back in the
      order the walk found them. */
  method Rebuild(fs: FileSystem) returns (err: Option<Error>, ghost keys: seq<string>)
    requires fs.Valid()
    modifies fs
    ensures RebuildBroken(old(fs.tree)) ==> err.Some? && fs.tree == old(fs.tree)
    ensures !RebuildBroken(old(fs.tree)) ==>
      StoredKeys(old(fs.tree), keys) && Restored(fs.tree, err) == RestoreAll(old(fs.tree), keys)
    ensures forall a, b :: 0 <= a < b < |keys| ==> keys[a] != keys[b]
  {
    var found := FindKeys(fs);
    if found.Err? {
      return Some(found.error), [];
    }
    keys := found.value;
    err := RestoreKeys(fs, found.value);
  }
}
