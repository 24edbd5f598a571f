/** The queue walks of the engine: a slice of folders that grows while it is
    indexed.  Over a finite, well-formed tree such a walk ends because no
    folder is queued twice; this module states the bookkeeping that shows
    it, and the path spellings the walks build. */
module Walk {
  import opened GoStrings
  import opened FileSystem

  // ---------------------------------------------------------------------------
  // Termination

  /** The walk's ghost view: `qs` are the queued paths; the first `init`
      are the starting paths, all `depth` long; every later one is a child
      of the path at `par`, which was taken from the queue before the one
      at `cur`, except the children of `cur` queued since `mark`, whose
      names are among `seen`. */
  ghost predicate Queue(t: Tree, qs: seq<Path>, par: seq<nat>, init: nat, depth: nat,
                        cur: nat, mark: nat, seen: seq<string>)
  {
    && |par| == |qs| && init <= mark && cur <= mark <= |qs|
    && (forall a :: 0 <= a < |qs| ==> qs[a] in t && |qs[a]| >= depth)
    && (forall a, b :: 0 <= a < b < |qs| ==> qs[a] != qs[b])
    && (forall a :: 0 <= a < init ==> |qs[a]| == depth)
    && (forall a :: init <= a < |qs| ==> qs[a] != [] && par[a] < |qs| && Parent(qs[a]) == qs[par[a]])
    && (forall a :: init <= a < mark ==> par[a] < cur)
    && (forall a :: mark <= a < |qs| ==> par[a] == cur && Last(qs[a]) in seen)
  }

  /** The starting paths of a walk. */
  lemma QueueStart(t: Tree, qs: seq<Path>, depth: nat)
    requires forall a :: 0 <= a < |qs| ==> qs[a] in t && |qs[a]| == depth
    requires forall a, b :: 0 <= a < b < |qs| ==> qs[a] != qs[b]
    ensures Queue(t, qs, seq(|qs|, _ => 0), |qs|, depth, 0, |qs|, [])
  {
  }

  /** Queueing a child of the current path whose name was not seen yet. */
  lemma QueuePush(t: Tree, qs: seq<Path>, par: seq<nat>, init: nat, depth: nat,
                  cur: nat, mark: nat, seen: seq<string>, n: string)
    requires Queue(t, qs, par, init, depth, cur, mark, seen)
    requires cur < |qs| && qs[cur] + [n] in t && n !in seen
    ensures Queue(t, qs + [qs[cur] + [n]], par + [cur], init, depth, cur, mark, seen + [n])
  {
    var x := qs[cur] + [n];
    var qs' := qs + [x];
    var par' := par + [cur];
    assert Parent(x) == qs[cur] && Last(x) == n;
    forall a | 0 <= a < |qs| ensures qs[a] != x {
      if init <= a < mark {
        assert qs[par[a]] != qs[cur];
      }
    }
    forall a, b | 0 <= a < b < |qs'| ensures qs'[a] != qs'[b] {
      if b < |qs| {
        assert qs'[a] == qs[a] && qs'[b] == qs[b];
      } else {
        assert qs'[a] == qs[a] && qs'[b] == x;
      }
    }
    forall a | init <= a < |qs'| ensures qs'[a] != [] && par'[a] < |qs'| && Parent(qs'[a]) == qs'[par'[a]] {
      if a < |qs| {
        assert qs'[par[a]] == qs[par[a]];
      }
    }
    assert forall a :: mark <= a < |qs| ==> Last(qs[a]) in seen + [n];
  }

  /** A name that is looked at but not queued. */
  lemma QueueSkip(t: Tree, qs: seq<Path>, par: seq<nat>, init: nat, depth: nat,
                  cur: nat, mark: nat, seen: seq<string>, n: string)
    requires Queue(t, qs, par, init, depth, cur, mark, seen)
    ensures Queue(t, qs, par, init, depth, cur, mark, seen + [n])
  {
    assert forall a :: mark <= a < |qs| ==> Last(qs[a]) in seen + [n];
  }

  /** Moving on to the next queued path. */
  lemma QueueAdvance(t: Tree, qs: seq<Path>, par: seq<nat>, init: nat, depth: nat,
                     cur: nat, mark: nat, seen: seq<string>)
    requires Queue(t, qs, par, init, depth, cur, mark, seen) && cur < |qs|
    ensures Queue(t, qs, par, init, depth, cur + 1, |qs|, [])
  {
  }

  /** Distinct nodes of a tree are no more than its nodes. */
  lemma {:induction false} DistinctBound(qs: seq<Path>, s: set<Path>)
    requires forall a :: 0 <= a < |qs| ==> qs[a] in s
    requires forall a, b :: 0 <= a < b < |qs| ==> qs[a] != qs[b]
    ensures |qs| <= |s|
    decreases |qs|
  {
    if qs != [] {
      var x := qs[|qs| - 1];
      var rest := qs[..|qs| - 1];
      forall a | 0 <= a < |rest| ensures rest[a] in s - {x} {
        assert rest[a] == qs[a];
      }
      DistinctBound(rest, s - {x});
    }
  }

  /** A walk never queues more paths than the tree has nodes. */
  lemma QueueBound(t: Tree, qs: seq<Path>, par: seq<nat>, init: nat, depth: nat,
                   cur: nat, mark: nat, seen: seq<string>)
    requires Queue(t, qs, par, init, depth, cur, mark, seen)
    ensures |qs| <= |t.Keys|
  {
    DistinctBound(qs, t.Keys);
  }

  /** A strictly sorted listing names nothing twice. */
  lemma SortedDistinct(s: seq<string>)
    requires StrictlySorted(s)
    ensures forall a, b :: 0 <= a < b < |s| ==> s[a] != s[b]
  {
    forall a, b | 0 <= a < b < |s| ensures s[a] != s[b] {
      assert LexLess(s[a], s[b]);
      LexLessIrreflexive(s[a]);
    }
  }

  /** A name listed after the `j` names before it is not among them. */
  lemma SortedFresh(s: seq<string>, j: nat)
    requires StrictlySorted(s) && j < |s|
    ensures s[j] !in s[..j]
  {
    if s[j] in s[..j] {
      var k :| 0 <= k < j && s[..j][k] == s[j];
      assert LexLess(s[k], s[j]);
      LexLessIrreflexive(s[j]);
    }
  }

  /** The first `j + 1` names are the first `j` and the next one. */
  lemma TakeOneMore(s: seq<string>, j: nat)
    requires j < |s|
    ensures s[..j + 1] == s[..j] + [s[j]]
  {
  }

  // ---------------------------------------------------------------------------
  // Path spellings

  /** How the walks spell a path below their starting folder: "./" and the
      components joined by "/". */
  function KeyString(p: Path): string
  {
    "./" + Join(p, '/')
  }

  /** How the working-tree scan spells a queued folder: "./" for the root,
      otherwise the key spelling and a trailing "/". */
  function FolderString(p: Path): string
  {
    if p == [] then "./" else KeyString(p) + "/"
  }

  lemma {:induction false} JoinSnoc(parts: seq<string>, x: string, sep: char)
    requires parts != []
    ensures Join(parts + [x], sep) == Join(parts, sep) + [sep] + x
    decreases |parts|
  {
    if |parts| == 1 {
      assert (parts + [x])[1..] == [x];
    } else {
      assert (parts + [x])[1..] == parts[1..] + [x];
      JoinSnoc(parts[1..], x, sep);
    }
  }

  /** The scan's name for entry `n` of folder `p` is the key spelling of the
      child path. */
  lemma FolderChild(p: Path, n: string)
    ensures FolderString(p) + n == KeyString(p + [n])
  {
    if p == [] {
      assert [] + [n] == [n];
      assert Join([n], '/') == n;
    } else {
      JoinSnoc(p, n, '/');
    }
  }

  /** `folder + name + "/"` is the folder spelling of the child path. */
  lemma FolderOfChild(p: Path, n: string)
    ensures FolderString(p) + n + "/" == FolderString(p + [n])
  {
    FolderChild(p, n);
  }

  /** `key + "/" + name` is the key spelling of the child path, when the
      key names a non-empty path. */
  lemma KeyChild(p: Path, n: string)
    requires p != []
    ensures KeyString(p) + "/" + n == KeyString(p + [n])
  {
    JoinSnoc(p, n, '/');
  }

  /** A key spelling resolves to its path. */
  lemma ResolveKeyString(p: Path)
    requires ValidPath(p)
    ensures Resolve(KeyString(p)) == p
  {
    if p == [] {
      assert KeyString(p) == "." + "/" + "";
      ResolveConcat(".", "");
      assert Split(".", '/') == ["."];
      assert Components(["."]) == [];
      assert Split("", '/') == [""];
      assert Components([""]) == [];
    } else {
      assert KeyString(p) == "." + "/" + Join(p, '/');
      ResolveConcat(".", Join(p, '/'));
      assert Split(".", '/') == ["."];
      assert Components(["."]) == [];
      forall i | 0 <= i < |p| ensures '/' !in p[i] {
      }
      SplitJoin(p, '/');
      ValidComponents(p);
    }
  }

  lemma {:induction false} ValidComponents(p: Path)
    requires ValidPath(p)
    ensures Components(p) == p
    decreases |p|
  {
    if p != [] {
      assert ValidPath(p[1..]) by {
        forall i | 0 <= i < |p[1..]| ensures ValidName(p[1..][i]) {
          assert p[1..][i] == p[i + 1];
        }
      }
      ValidComponents(p[1..]);
      assert [p[0]] + p[1..] == p;
    }
  }

  /** A folder spelling resolves to its path. */
  lemma ResolveFolderString(p: Path)
    requires ValidPath(p)
    ensures Resolve(FolderString(p)) == p
  {
    if p == [] {
      ResolveKeyString(p);
      assert FolderString(p) == KeyString(p);
    } else {
      ResolveKeyString(p);
      ResolveTrailingSlash(KeyString(p));
    }
  }

  /** Different paths are spelled differently. */
  lemma KeyStringInjective(p: Path, q: Path)
    requires ValidPath(p) && ValidPath(q) && KeyString(p) == KeyString(q)
    ensures p == q
  {
    ResolveKeyString(p);
    ResolveKeyString(q);
  }
}
