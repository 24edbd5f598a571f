/** The working-tree scan of `DiffForCommit` and `FullCommit`: a queue of
    folders that starts with "./", lists each folder, queues every
    sub-folder except `.vc`, `.git` and `.commits`, and meets every other
    entry as a file whose key is the folder's spelling followed by its
    name. */
module Scan {
  import opened GoStrings
  import opened FileSystem
  import opened Walk

  /** Folder names the scan never enters. */
  predicate Skipped(n: string)
  {
    n == ".vc" || n == ".git" || n == ".commits"
  }

  /** A folder the scan enters: the root, or a folder reached through
      folders none of which is skipped. */
  ghost predicate VisibleDir(t: Tree, p: Path)
  {
    p in t && t[p].Dir? && forall i :: 0 <= i < |p| ==> !Skipped(p[i])
  }

  /** A file the scan meets: a regular file in a visible folder (its own
      name may be anything). */
  ghost predicate VisibleFile(t: Tree, p: Path)
  {
    p != [] && p in t && t[p].File? && forall i :: 0 <= i < |p| - 1 ==> !Skipped(p[i])
  }

  // ---------------------------------------------------------------------------
  // The scan's invariant

  /** The keys of the files `ps`. */
  function Spell(ps: seq<Path>): seq<string>
  {
    seq(|ps|, b requires 0 <= b < |ps| => KeyString(ps[b]))
  }

  /** The spellings of the folders `qs`. */
  function FolderSpell(qs: seq<Path>): seq<string>
  {
    seq(|qs|, a requires 0 <= a < |qs| => FolderString(qs[a]))
  }

  lemma SpellSnoc(ps: seq<Path>, p: Path)
    ensures Spell(ps + [p]) == Spell(ps) + [KeyString(p)]
  {
  }

  lemma FolderSpellSnoc(qs: seq<Path>, q: Path)
    ensures FolderSpell(qs + [q]) == FolderSpell(qs) + [FolderString(q)]
  {
  }

  /** The queued folders and the files met so far, with their spellings. */
  ghost predicate Scanned(t: Tree, folders: seq<string>, qs: seq<Path>, foundKeys: seq<string>, found: seq<Path>)
  {
    && folders == FolderSpell(qs) && foundKeys == Spell(found)
    && (forall a :: 0 <= a < |qs| ==> ValidPath(qs[a]) && VisibleDir(t, qs[a]))
    && (forall b :: 0 <= b < |found| ==> ValidPath(found[b]) && VisibleFile(t, found[b]))
    && (forall b1, b2 :: 0 <= b1 < b2 < |found| ==> found[b1] != found[b2])
  }

  /** Entry `n` of folder `p` has been dealt with: a visible sub-folder is
      queued, a file is met. */
  ghost predicate ChildSeen(t: Tree, p: Path, n: string, qs: seq<Path>, found: seq<Path>)
  {
    && (p + [n] in t && t[p + [n]].Dir? && !Skipped(n) ==> p + [n] in qs)
    && (p + [n] in t && t[p + [n]].File? ==> p + [n] in found)
  }

  ghost predicate ListedIn(t: Tree, p: Path, names: seq<string>, qs: seq<Path>, found: seq<Path>)
  {
    forall n :: n in names ==> ChildSeen(t, p, n, qs, found)
  }

  /** Every folder taken from the queue before `fi` has been listed whole. */
  ghost predicate ScanExpanded(t: Tree, qs: seq<Path>, found: seq<Path>, fi: nat)
    requires fi <= |qs|
  {
    forall a :: 0 <= a < fi ==> qs[a] in t && t[qs[a]].Dir? && ListedIn(t, qs[a], t[qs[a]].entries, qs, found)
  }

  /** Each file met is an entry of a folder taken from the queue, and those
      of the folder at `cur` have their names among `seen`. */
  ghost predicate FoundFrom(found: seq<Path>, fpar: seq<nat>, qs: seq<Path>, cur: nat, seen: seq<string>)
  {
    && |fpar| == |found|
    && forall b :: 0 <= b < |found| ==>
         found[b] != [] && fpar[b] <= cur && fpar[b] < |qs| && Parent(found[b]) == qs[fpar[b]]
         && (fpar[b] == cur ==> Last(found[b]) in seen)
  }

  /** The whole invariant of the scan while the folder at `fi` is listed; its
      entries with names in `seen` have been dealt with. */
  ghost predicate Scanning(t: Tree, folders: seq<string>, qs: seq<Path>, par: seq<nat>, fi: nat, mark: nat,
                           seen: seq<string>, foundKeys: seq<string>, found: seq<Path>, fpar: seq<nat>)
  {
    && fi <= |qs| && |qs| >= 1 && qs[0] == []
    && Scanned(t, folders, qs, foundKeys, found)
    && Queue(t, qs, par, 1, 0, fi, mark, seen)
    && ScanExpanded(t, qs, found, fi)
    && FoundFrom(found, fpar, qs, fi, seen)
    && (fi < |qs| ==> ListedIn(t, qs[fi], seen, qs, found))
  }

  /** The scan starts from the root folder "./". */
  lemma ScanStart(t: Tree)
    requires [] in t && t[[]].Dir?
    ensures Scanning(t, ["./"], [[]], [0], 0, 1, [], [], [], [])
  {
    assert FolderSpell([[]]) == ["./"];
    QueueStart(t, [[]], 0);
    assert seq(1, _ => 0) == [0];
  }

  // ---------------------------------------------------------------------------
  // Steps

  /** The pieces of the invariant that do not mention the entry just met. */
  lemma ListedInSnoc(t: Tree, p: Path, names: seq<string>, n: string, qs: seq<Path>, found: seq<Path>,
                     qs': seq<Path>, found': seq<Path>)
    requires ListedIn(t, p, names, qs, found)
    requires forall x :: x in qs ==> x in qs'
    requires forall x :: x in found ==> x in found'
    requires ChildSeen(t, p, n, qs', found')
    ensures ListedIn(t, p, names + [n], qs', found')
  {
  }

  lemma ExpandedGrow(t: Tree, qs: seq<Path>, found: seq<Path>, fi: nat, qs': seq<Path>, found': seq<Path>)
    requires fi <= |qs| <= |qs'| && qs'[..|qs|] == qs
    requires ScanExpanded(t, qs, found, fi)
    requires forall x :: x in found ==> x in found'
    ensures ScanExpanded(t, qs', found', fi)
  {
    forall a | 0 <= a < fi
      ensures qs'[a] in t && t[qs'[a]].Dir? && ListedIn(t, qs'[a], t[qs'[a]].entries, qs', found')
    {
      assert qs'[a] == qs[a];
      forall x | x in qs ensures x in qs' {
        var i :| 0 <= i < |qs| && qs[i] == x;
        assert qs'[i] == x;
      }
    }
  }

  /** Entry `n` of the folder at `fi` is a visible folder: it is queued. */
  lemma StepFolder(t: Tree, folders: seq<string>, qs: seq<Path>, par: seq<nat>, fi: nat, mark: nat,
                   seen: seq<string>, foundKeys: seq<string>, found: seq<Path>, fpar: seq<nat>, n: string)
    requires Scanning(t, folders, qs, par, fi, mark, seen, foundKeys, found, fpar)
    requires fi < |qs| && ValidName(n) && n !in seen && !Skipped(n)
    requires qs[fi] + [n] in t && t[qs[fi] + [n]].Dir?
    ensures Scanning(t, folders + [folders[fi] + n + "/"], qs + [qs[fi] + [n]], par + [fi], fi, mark,
                     seen + [n], foundKeys, found, fpar)
  {
    var p := qs[fi] + [n];
    var qs' := qs + [p];
    QueuePush(t, qs, par, 1, 0, fi, mark, seen, n);
    assert qs'[..|qs|] == qs;
    ExpandedGrow(t, qs, found, fi, qs', found);
    ListedInSnoc(t, qs[fi], seen, n, qs, found, qs', found);
    ScannedPushFolder(t, folders, qs, foundKeys, found, fi, n);
  }

  lemma ScannedPushFolder(t: Tree, folders: seq<string>, qs: seq<Path>, foundKeys: seq<string>, found: seq<Path>,
                          fi: nat, n: string)
    requires Scanned(t, folders, qs, foundKeys, found) && fi < |qs|
    requires ValidName(n) && !Skipped(n) && qs[fi] + [n] in t && t[qs[fi] + [n]].Dir?
    ensures Scanned(t, folders + [folders[fi] + n + "/"], qs + [qs[fi] + [n]], foundKeys, found)
  {
    var p := qs[fi] + [n];
    assert folders[fi] == FolderString(qs[fi]);
    FolderOfChild(qs[fi], n);
    FolderSpellSnoc(qs, p);
    assert VisibleDir(t, p) by {
      forall i | 0 <= i < |p| ensures !Skipped(p[i]) {
        if i < |qs[fi]| {
          assert p[i] == qs[fi][i];
        }
      }
    }
    assert ValidPath(p) by {
      forall i | 0 <= i < |p| ensures ValidName(p[i]) {
        if i < |qs[fi]| {
          assert p[i] == qs[fi][i];
        }
      }
    }
  }

  /** Entry `n` of the folder at `fi` is a skipped folder: it is passed over. */
  lemma StepSkip(t: Tree, folders: seq<string>, qs: seq<Path>, par: seq<nat>, fi: nat, mark: nat,
                 seen: seq<string>, foundKeys: seq<string>, found: seq<Path>, fpar: seq<nat>, n: string)
    requires Scanning(t, folders, qs, par, fi, mark, seen, foundKeys, found, fpar)
    requires fi < |qs| && Skipped(n) && qs[fi] + [n] in t && t[qs[fi] + [n]].Dir?
    ensures Scanning(t, folders, qs, par, fi, mark, seen + [n], foundKeys, found, fpar)
  {
    QueueSkip(t, qs, par, 1, 0, fi, mark, seen, n);
    ListedInSnoc(t, qs[fi], seen, n, qs, found, qs, found);
    assert forall b :: 0 <= b < |found| && fpar[b] == fi ==> Last(found[b]) in seen + [n];
  }

  /** Entry `n` of the folder at `fi` is a file: it is met, under the key
      `folder + n`. */
  lemma StepFile(t: Tree, folders: seq<string>, qs: seq<Path>, par: seq<nat>, fi: nat, mark: nat,
                 seen: seq<string>, foundKeys: seq<string>, found: seq<Path>, fpar: seq<nat>, n: string)
    requires Scanning(t, folders, qs, par, fi, mark, seen, foundKeys, found, fpar)
    requires fi < |qs| && ValidName(n) && n !in seen
    requires qs[fi] + [n] in t && t[qs[fi] + [n]].File?
    ensures Scanning(t, folders, qs, par, fi, mark, seen + [n], foundKeys + [folders[fi] + n],
                     found + [qs[fi] + [n]], fpar + [fi])
  {
    var p := qs[fi] + [n];
    var found' := found + [p];
    QueueSkip(t, qs, par, 1, 0, fi, mark, seen, n);
    assert Parent(p) == qs[fi] && Last(p) == n;
    forall b | 0 <= b < |found| ensures found[b] != p {
      if fpar[b] < fi {
        assert qs[fpar[b]] != qs[fi];
      }
    }
    assert forall x :: x in found ==> x in found';
    ListedInSnoc(t, qs[fi], seen, n, qs, found, qs, found');
    ExpandedGrow(t, qs, found, fi, qs, found');
    ScannedPushFile(t, folders, qs, foundKeys, found, fi, n);
    FoundFromPush(found, fpar, qs, fi, seen, n);
  }

  lemma ScannedPushFile(t: Tree, folders: seq<string>, qs: seq<Path>, foundKeys: seq<string>, found: seq<Path>,
                        fi: nat, n: string)
    requires Scanned(t, folders, qs, foundKeys, found) && fi < |qs|
    requires ValidName(n) && qs[fi] + [n] in t && t[qs[fi] + [n]].File?
    requires forall b :: 0 <= b < |found| ==> found[b] != qs[fi] + [n]
    ensures Scanned(t, folders, qs, foundKeys + [folders[fi] + n], found + [qs[fi] + [n]])
  {
    var p := qs[fi] + [n];
    assert folders[fi] == FolderString(qs[fi]);
    FolderChild(qs[fi], n);
    SpellSnoc(found, p);
    assert VisibleFile(t, p) by {
      forall i | 0 <= i < |p| - 1 ensures !Skipped(p[i]) {
        assert p[i] == qs[fi][i];
      }
    }
    assert ValidPath(p) by {
      forall i | 0 <= i < |p| ensures ValidName(p[i]) {
        if i < |qs[fi]| {
          assert p[i] == qs[fi][i];
        }
      }
    }
  }

  lemma FoundFromPush(found: seq<Path>, fpar: seq<nat>, qs: seq<Path>, fi: nat, seen: seq<string>, n: string)
    requires FoundFrom(found, fpar, qs, fi, seen) && fi < |qs|
    ensures FoundFrom(found + [qs[fi] + [n]], fpar + [fi], qs, fi, seen + [n])
  {
    var p := qs[fi] + [n];
    assert Parent(p) == qs[fi] && Last(p) == n;
    var found', fpar' := found + [p], fpar + [fi];
    forall b | 0 <= b < |found'|
      ensures found'[b] != [] && fpar'[b] <= fi && fpar'[b] < |qs| && Parent(found'[b]) == qs[fpar'[b]]
        && (fpar'[b] == fi ==> Last(found'[b]) in seen + [n])
    {
      if b < |found| {
        assert found'[b] == found[b] && fpar'[b] == fpar[b];
      }
    }
  }

  /** The folder at `fi` has been listed whole. */
  lemma StepNextFolder(t: Tree, folders: seq<string>, qs: seq<Path>, par: seq<nat>, fi: nat, mark: nat,
                       foundKeys: seq<string>, found: seq<Path>, fpar: seq<nat>)
    requires fi < |qs| && qs[fi] in t && t[qs[fi]].Dir?
    requires Scanning(t, folders, qs, par, fi, mark, t[qs[fi]].entries, foundKeys, found, fpar)
    ensures Scanning(t, folders, qs, par, fi + 1, |qs|, [], foundKeys, found, fpar)
  {
    QueueAdvance(t, qs, par, 1, 0, fi, mark, t[qs[fi]].entries);
  }

  // ---------------------------------------------------------------------------
  // Completeness

  /** Once the scan is over, every visible folder has been queued. */
  lemma {:induction false} ReachedDir(t: Tree, qs: seq<Path>, found: seq<Path>, p: Path)
    requires ParentsList(t) && |qs| >= 1 && qs[0] == [] && ScanExpanded(t, qs, found, |qs|)
    requires VisibleDir(t, p)
    ensures p in qs
    decreases |p|
  {
    if p != [] {
      var q := Parent(p);
      assert q in t && t[q].Dir? && Last(p) in t[q].entries;
      assert VisibleDir(t, q) by {
        forall i | 0 <= i < |q| ensures !Skipped(q[i]) {
          assert q[i] == p[i];
        }
      }
      ReachedDir(t, qs, found, q);
      var a :| 0 <= a < |qs| && qs[a] == q;
      ParentLast(p);
      assert ChildSeen(t, q, Last(p), qs, found);
    }
  }

  /** Once the scan is over, every visible file has been met. */
  lemma ReachedFile(t: Tree, qs: seq<Path>, found: seq<Path>, p: Path)
    requires ParentsList(t) && |qs| >= 1 && qs[0] == [] && ScanExpanded(t, qs, found, |qs|)
    requires VisibleFile(t, p)
    ensures p in found
  {
    var q := Parent(p);
    assert q in t && t[q].Dir? && Last(p) in t[q].entries;
    assert VisibleDir(t, q) by {
      forall i | 0 <= i < |q| ensures !Skipped(q[i]) {
        assert q[i] == p[i];
      }
    }
    ReachedDir(t, qs, found, q);
    var a :| 0 <= a < |qs| && qs[a] == q;
    ParentLast(p);
    assert ChildSeen(t, q, Last(p), qs, found);
  }

  /** The files a finished scan has met: exactly the visible files, each
      once, spelled by their keys. */
  ghost predicate FoundAll(t: Tree, foundKeys: seq<string>, found: seq<Path>)
  {
    && foundKeys == Spell(found)
    && (forall b :: 0 <= b < |found| ==> ValidPath(found[b]) && VisibleFile(t, found[b]))
    && (forall p :: VisibleFile(t, p) ==> p in found)
    && (forall b1, b2 :: 0 <= b1 < b2 < |found| ==> found[b1] != found[b2])
  }

  lemma ScanResult(t: Tree, folders: seq<string>, qs: seq<Path>, par: seq<nat>, foundKeys: seq<string>,
                   found: seq<Path>, fpar: seq<nat>)
    requires ParentsList(t)
    requires Scanning(t, folders, qs, par, |qs|, |qs|, [], foundKeys, found, fpar)
    ensures FoundAll(t, foundKeys, found)
  {
    forall p | VisibleFile(t, p) ensures p in found {
      ReachedFile(t, qs, found, p);
    }
  }
}
