/** Recording one file: `SimpleCommit` writes the diff payload of a text
    file under a `d` id, `BinarySimpleCommit` the raw bytes under a `b` id,
    both in the key's `.commits` directory. */
module Commit {
  import opened Errors
  import opened GoStrings
  import opened FileSystem
  import opened Utils
  import opened Differ
  import opened Payload
  import opened Replay
  import opened CommitIds
  import opened Walk

  /** The payload `SimpleCommit` writes for a change from `oldContent` to
      `newContent`: the encoded changes `Diff` computes. */
  function DiffPayload(oldContent: string, newContent: string): string
  {
    EncodeChanges(Changes(Split(oldContent, '\n'), Split(newContent, '\n')))
  }

  /** `SimpleCommit`: refuses a change that changes nothing; otherwise encodes
      the diff one change at a time and writes it under
      `d<ts>+<hash of the new content>`, returning that id. */
  method SimpleCommit(fs: FileSystem, key: string, oldContent: string, newContent: string,
                      ts: nat, hash: string -> Digest) returns (r: Result<string>)
    modifies fs
    ensures oldContent == newContent ==> r == Err(NoChanges) && fs.tree == old(fs.tree)
    ensures oldContent != newContent ==>
      var id := CommitId('d', ts, hash(newContent));
      var w := WriteFileIn(old(fs.tree), CommitPath(key, id), DiffPayload(oldContent, newContent));
      && (w.Ok? ==> r == Ok(id) && fs.tree == w.value)
      && (w.Err? ==> r == Err(w.error) && fs.tree == old(fs.tree))
  {
    if oldContent == newContent {
      return Err(NoChanges);
    }
    var diffs := Diff(oldContent, newContent);
    var stringDiff := EncodeDiffs(diffs);
    var hashString := hash(newContent);
    var commitId := "d" + NatToString(ts) + "+" + hashString;
    var err := fs.WriteFile(CommitPath(key, commitId), stringDiff);
    if err.Some? {
      return Err(err.value);
    }
    return Ok(commitId);
  }

  /** The loop of `SimpleCommit` that renders the changes: `=<line>\n` for
      `=`, `+<value>\n` for `+`, nothing for any other op. */
  method EncodeDiffs(diffs: seq<Change>) returns (stringDiff: string)
    ensures stringDiff == EncodeChanges(diffs)
  {
    stringDiff := "";
    for i := 0 to |diffs|
      invariant stringDiff == EncodeChanges(diffs[..i])
    {
      var change := diffs[i];
      EncodeStep(diffs, i);
      if change.op == "=" {
        AppendLine(stringDiff, "=", IntToString(change.line));
        stringDiff := stringDiff + "=" + IntToString(change.line) + "\n";
      } else if change.op == "+" {
        AppendLine(stringDiff, "+", change.value);
        stringDiff := stringDiff + "+" + change.value + "\n";
      }
    }
    assert diffs[..|diffs|] == diffs;
  }

  /** Appending an op, its text and "\n" appends the one payload line. */
  lemma AppendLine(acc: string, op: string, text: string)
    ensures acc + op + text + "\n" == acc + (op + text + "\n")
  {
  }

  /** Encoding the first `i + 1` changes appends the line of change `i`. */
  lemma EncodeStep(diffs: seq<Change>, i: nat)
    requires i < |diffs|
    ensures EncodeChanges(diffs[..i + 1]) == EncodeChanges(diffs[..i]) + EncodeChange(diffs[i])
  {
    EncodeChangesSnoc(diffs[..i], diffs[i]);
    assert diffs[..i + 1] == diffs[..i] + [diffs[i]];
  }

  /** `BinarySimpleCommit`: writes the bytes unchanged under
      `b<ts>+<hash of the bytes>` and returns that id. */
  method BinarySimpleCommit(fs: FileSystem, key: string, content: string, ts: nat, hash: string -> Digest)
    returns (r: Result<string>)
    modifies fs
    ensures
      var id := CommitId('b', ts, hash(content));
      var w := WriteFileIn(old(fs.tree), CommitPath(key, id), content);
      && (w.Ok? ==> r == Ok(id) && fs.tree == w.value)
      && (w.Err? ==> r == Err(w.error) && fs.tree == old(fs.tree))
  {
    var hashString := hash(content);
    var commitId := "b" + NatToString(ts) + "+" + hashString;
    var err := fs.WriteFile(CommitPath(key, commitId), content);
    if err.Some? {
      return Err(err.value);
    }
    return Ok(commitId);
  }

  // ---------------------------------------------------------------------------
  // What a commit records

  /** The id of either kind of commit carries the hash that change detection
      compares against, and its first letter tells replay whether to skip it. */
  lemma CommitIdShape(kind: char, ts: nat, d: Digest)
    ensures HashPart(CommitId(kind, ts, d)) == Ok(d)
    ensures IsBinaryName(CommitId(kind, ts, d)) <==> kind == 'b'
  {
    DigestHasNoPlus(d);
    HashPartOfCommitId(kind, ts, d);
  }

  /** A diff commit, once written, reads back as its payload, and replaying
      that payload over the old content's lines gives the new content: the
      next diff is built against what was committed.  As written this needs
      every blank line of the new content to occur in the old content. */
  lemma SimpleCommitReplays(t: Tree, key: string, oldContent: string, newContent: string, ts: nat, d: Digest)
    requires WellFormed(t)
    requires WriteFileIn(t, CommitPath(key, CommitId('d', ts, d)), DiffPayload(oldContent, newContent)).Ok?
    requires |Split(oldContent, '\n')| <= MaxInt64
    requires "" in Split(newContent, '\n') ==> "" in Split(oldContent, '\n')
    ensures
      var t' := WriteFileIn(t, CommitPath(key, CommitId('d', ts, d)), DiffPayload(oldContent, newContent)).value;
      ReadFile(t', CommitPath(key, CommitId('d', ts, d))) == Ok(DiffPayload(oldContent, newContent))
    ensures ApplyPayload(Split(oldContent, '\n'), DiffPayload(oldContent, newContent), Dropped).Ok?
    ensures Join(ApplyPayload(Split(oldContent, '\n'), DiffPayload(oldContent, newContent), Dropped).value, '\n')
      == newContent
  {
    WriteThenRead(t, CommitPath(key, CommitId('d', ts, d)), DiffPayload(oldContent, newContent));
    ReplayRoundTripText(oldContent, newContent, Dropped);
  }

  /** A binary commit reads back as the bytes themselves. */
  lemma BinaryCommitReadsBack(t: Tree, key: string, content: string, ts: nat, d: Digest)
    requires WellFormed(t)
    requires WriteFileIn(t, CommitPath(key, CommitId('b', ts, d)), content).Ok?
    ensures
      var t' := WriteFileIn(t, CommitPath(key, CommitId('b', ts, d)), content).value;
      ReadFile(t', CommitPath(key, CommitId('b', ts, d))) == Ok(content)
  {
    WriteThenRead(t, CommitPath(key, CommitId('b', ts, d)), content);
  }

  /** Ids made at a later time with as many digits outrank every earlier id
      of either kind, so a new diff commit becomes the key's latest. */
  lemma NewDiffIdOutranks(kind: char, ts0: nat, tag0: string, ts: nat, tag: string)
    requires kind == 'b' || kind == 'd'
    requires ts0 < ts && |NatToString(ts0)| == |NatToString(ts)|
    ensures LexLess(CommitId(kind, ts0, tag0), CommitId('d', ts, tag))
  {
    if kind == 'b' {
      DiffOutranksBinary(CommitId('d', ts, tag), CommitId(kind, ts0, tag0));
    } else {
      LaterIdIsGreater(ts0, ts, tag0, tag);
    }
  }

  /** The greatest name of a listing is the one every other name is below. */
  lemma GreatestIsDominating(names: seq<string>, top: string)
    requires top in names && "" !in names
    requires forall n :: n in names && n != top ==> LexLess(n, top)
    ensures Greatest(names) == top
  {
    GreatestIsMaximum(names);
    var g := Greatest(names);
    if g != top {
      LexLessAsymmetric(g, top);
    }
  }

  // ---------------------------------------------------------------------------
  // The parent folder of a key

  /** `strings.TrimSuffix`. */
  function TrimSuffix(s: string, suffix: string): (r: string)
    ensures r <= s
  {
    if |suffix| <= |s| && s[|s| - |suffix|..] == suffix then s[..|s| - |suffix|] else s
  }

  /** The parent folder of a deleted key: the key without "/" and its last
      "/"-separated segment. */
  function KeyParent(key: string): string
  {
    var parts := Split(key, '/');
    TrimSuffix(key, "/" + parts[|parts| - 1])
  }

  /** The parent folder as `Rebuild` computes it: all segments but the last,
      joined by "/". */
  function JoinedParent(key: string): string
  {
    var parts := Split(key, '/');
    Join(parts[..|parts| - 1], '/')
  }

  /** Both ways of computing a key's parent agree whenever the key has a
      "/"; without one, trimming leaves the key whole while joining gives "". */
  lemma KeyParentIsJoinedParent(key: string)
    ensures '/' in key ==> KeyParent(key) == JoinedParent(key)
    ensures '/' !in key ==> KeyParent(key) == key && JoinedParent(key) == ""
  {
    var parts := Split(key, '/');
    JoinSplit(key, '/');
    if '/' !in key {
      SplitNoSepIsSingleton(key, '/');
      assert parts[..0] == [];
    } else {
      SplitNoSep(key, '/');
      var init := parts[..|parts| - 1];
      var last := parts[|parts| - 1];
      assert parts == init + [last];
      JoinSnoc(init, last, '/');
      assert key == Join(init, '/') + ("/" + last);
    }
  }
}
