/** `Cat` and `LastCat`: rebuild a key's content by replaying the diff
    commits stored in `.vc/keys/<key>/.commits`, in the order the directory
    lists them (by name).  Binary commits (names starting with `b`) are
    skipped; replay stops after the commit whose name is the requested id. */
module Replay {
  import opened Errors
  import opened GoStrings
  import opened FileSystem
  import opened Differ
  import opened Payload

  /** The key store's directory for `key`. */
  function KeyDir(key: string): string
  {
    ".vc/keys/" + key
  }

  /** Where a key's commits live. */
  function CommitsDir(key: string): string
  {
    KeyDir(key) + "/.commits"
  }

  function CommitPath(key: string, name: string): string
  {
    CommitsDir(key) + "/" + name
  }

  /** `strings.HasPrefix(name, "b")`: a binary commit. */
  predicate IsBinaryName(name: string)
  {
    |name| > 0 && name[0] == 'b'
  }

  // ---------------------------------------------------------------------------
  // Specification

  /** The lines replay reaches from `content` through the commits `names`:
      binary commits are skipped, each diff commit's file is read and
      applied, and the commit named `id` is the last one applied. */
  function CatFrom(t: Tree, key: string, names: seq<string>, id: string, content: seq<string>): Result<seq<string>>
    decreases |names|
  {
    if names == [] then Ok(content)
    else if IsBinaryName(names[0]) then CatFrom(t, key, names[1..], id, content)
    else
      var payload :- ReadFile(t, CommitPath(key, names[0]));
      var next :- ApplyPayload(content, payload, Dropped);
      if names[0] == id then Ok(next) else CatFrom(t, key, names[1..], id, next)
  }

  /** What `Cat(key, id)` returns: the replayed lines, starting from the
      one-line content [""], joined by "\n". */
  function CatIn(t: Tree, key: string, id: string): Result<string>
  {
    var entries :- ReadDir(t, CommitsDir(key));
    var lines :- CatFrom(t, key, Names(entries), id, [""]);
    Ok(Join(lines, '\n'))
  }

  /** The running maximum Go's `>` keeps over a listing, starting from "". */
  function Greatest(names: seq<string>): string
    decreases |names|
  {
    if names == [] then ""
    else
      var g := Greatest(names[..|names| - 1]);
      if LexLess(g, names[|names| - 1]) then names[|names| - 1] else g
  }

  /** What `LastCat(key)` returns: an error for an empty chain, otherwise
      `Cat` up to the greatest commit name. */
  function LastCatIn(t: Tree, key: string): Result<string>
  {
    var entries :- ReadDir(t, CommitsDir(key));
    if entries == [] then Err(NoCommits(key))
    else CatIn(t, key, Greatest(Names(entries)))
  }

  // ---------------------------------------------------------------------------
  // Replaying a chain of payloads

  /** Applies the payloads one after the other. */
  function ReplayAll(content: seq<string>, payloads: seq<string>, rule: BlankRule): Result<seq<string>>
    decreases |payloads|
  {
    if payloads == [] then Ok(content)
    else
      var next :- ApplyPayload(content, payloads[0], rule);
      ReplayAll(next, payloads[1..], rule)
  }

  lemma {:induction false} ReplayAllAppend(content: seq<string>, payloads: seq<string>, p: string, rule: BlankRule)
    ensures ReplayAll(content, payloads + [p], rule) ==
      (match ReplayAll(content, payloads, rule)
       case Ok(lines) => ApplyPayload(lines, p, rule)
       case Err(e) => Err(e))
    decreases |payloads|
  {
    if payloads == [] {
      assert payloads + [p] == [p] && [p][1..] == [];
    } else {
      assert (payloads + [p])[1..] == payloads[1..] + [p];
      var next := ApplyPayload(content, payloads[0], rule);
      if next.Ok? {
        ReplayAllAppend(next.value, payloads[1..], p, rule);
      }
    }
  }

  /** Replay reconstructs what was committed, commit after commit: if the
      chain so far replays to `lines`, and the next commit is the diff from
      the text those lines make to `newContent`, the longer chain replays
      to the lines of `newContent`.  As written this needs the replayed
      lines to be non-empty and every blank line of `newContent` to occur in
      them. */
  lemma ChainRoundTrip(payloads: seq<string>, lines: seq<string>, newContent: string, rule: BlankRule)
    requires ReplayAll([""], payloads, rule) == Ok(lines)
    requires lines != [] && |lines| <= MaxInt64
    requires forall k :: 0 <= k < |lines| ==> '\n' !in lines[k]
    requires rule == Dropped ==> ("" in Split(newContent, '\n') ==> "" in lines)
    ensures ReplayAll([""], payloads + [EncodeChanges(Changes(Split(Join(lines, '\n'), '\n'), Split(newContent, '\n')))], rule)
      == Ok(Split(newContent, '\n'))
  {
    SplitJoin(lines, '\n');
    ReplayAllAppend([""], payloads, EncodeChanges(Changes(lines, Split(newContent, '\n'))), rule);
    SplitNoSep(newContent, '\n');
    ReplayRoundTrip(lines, Split(newContent, '\n'), rule);
  }

  /** Over a chain of diff commits that does not stop early, `CatFrom`
      applies every payload in order. */
  lemma {:induction false} CatFromReplaysChain(t: Tree, key: string, names: seq<string>, id: string,
                                               content: seq<string>, payloads: seq<string>)
    requires |payloads| == |names|
    requires forall i :: 0 <= i < |names| ==> !IsBinaryName(names[i]) && ReadFile(t, CommitPath(key, names[i])) == Ok(payloads[i])
    requires forall i :: 0 <= i < |names| - 1 ==> names[i] != id
    ensures CatFrom(t, key, names, id, content) == ReplayAll(content, payloads, Dropped)
    decreases |names|
  {
    if names != [] {
      var next := ApplyPayload(content, payloads[0], Dropped);
      if next.Ok? && names[0] != id {
        CatFromReplaysChain(t, key, names[1..], id, next.value, payloads[1..]);
      } else if next.Ok? {
        assert |names| == 1;
        assert payloads[1..] == [];
      }
    }
  }

  /** Commits listed after the requested diff commit are never read. */
  lemma {:induction false} CatStopsAtId(t: Tree, key: string, names: seq<string>, later: seq<string>,
                                        id: string, content: seq<string>)
    requires id in names && !IsBinaryName(id)
    ensures CatFrom(t, key, names + later, id, content) == CatFrom(t, key, names, id, content)
    decreases |names|
  {
    assert (names + later)[0] == names[0];
    assert (names + later)[1..] == names[1..] + later;
    if names[0] != id {
      var payload := ReadFile(t, CommitPath(key, names[0]));
      if IsBinaryName(names[0]) {
        CatStopsAtId(t, key, names[1..], later, id, content);
      } else if payload.Ok? && ApplyPayload(content, payload.value, Dropped).Ok? {
        CatStopsAtId(t, key, names[1..], later, id, ApplyPayload(content, payload.value, Dropped).value);
      }
    }
  }

  /** A binary commit is never the stopping point: asking for it replays
      exactly what asking for a name that is not listed would. */
  lemma {:induction false} BinaryIdReplaysAll(t: Tree, key: string, names: seq<string>, id: string, other: string,
                                              content: seq<string>)
    requires IsBinaryName(id) && other !in names
    ensures CatFrom(t, key, names, id, content) == CatFrom(t, key, names, other, content)
    decreases |names|
  {
    if names != [] {
      var payload := ReadFile(t, CommitPath(key, names[0]));
      if IsBinaryName(names[0]) {
        BinaryIdReplaysAll(t, key, names[1..], id, other, content);
      } else if payload.Ok? && ApplyPayload(content, payload.value, Dropped).Ok? {
        BinaryIdReplaysAll(t, key, names[1..], id, other, ApplyPayload(content, payload.value, Dropped).value);
      }
    }
  }

  // ---------------------------------------------------------------------------
  // The greatest commit name

  /** `Greatest` is the maximum of a non-empty listing under Go's order. */
  lemma {:induction false} GreatestIsMaximum(names: seq<string>)
    requires names != [] && "" !in names
    ensures Greatest(names) in names
    ensures forall n :: n in names ==> n == Greatest(names) || LexLess(n, Greatest(names))
    decreases |names|
  {
    var init := names[..|names| - 1];
    var last := names[|names| - 1];
    if init == [] {
      assert names == [last];
      assert LexLess("", last);
    } else {
      assert "" !in init by {
        forall k | 0 <= k < |init| ensures init[k] != "" {
          assert init[k] == names[k];
        }
      }
      GreatestIsMaximum(init);
      var g := Greatest(init);
      assert names == init + [last];
      forall n | n in names ensures n == Greatest(names) || LexLess(n, Greatest(names)) {
        if n in init {
          if LexLess(g, last) {
            if n != g {
              LexLessTransitive(n, g, last);
            }
          }
        } else {
          assert n == last;
          if !LexLess(g, last) && last != g {
            LexLessTotal(g, last);
          }
        }
      }
    }
  }

  /** Commit ids start with `d` (diff) or `b` (binary) followed by the
      timestamp, so the greatest name of a chain that holds any diff commit
      is a diff commit, whatever the timestamps. */
  lemma DiffOutranksBinary(d: string, b: string)
    requires d != [] && b != [] && d[0] == 'd' && b[0] == 'b'
    ensures LexLess(b, d) && !LexLess(d, b)
  {
    FirstByteDecides(b, d);
    LexLessAsymmetric(b, d);
  }

  // ---------------------------------------------------------------------------
  // The operations

  /** A payload that fails on one line fails as a whole. */
  lemma {:induction false} ApplyLinesStuck(content: seq<string>, lines: seq<string>, j: nat, rule: BlankRule)
    requires j <= |lines| && ApplyLines(content, lines[..j], rule).Err?
    ensures ApplyLines(content, lines, rule) == ApplyLines(content, lines[..j], rule)
    decreases |lines| - j
  {
    if j < |lines| {
      assert lines[..j + 1][..j] == lines[..j];
      ApplyLinesStuck(content, lines, j + 1, rule);
    } else {
      assert lines[..j] == lines;
    }
  }

  /** `Cat`'s inner loop: one commit's payload applied line by line to the
      previous content; a failing line stops the replay. */
  method ApplyDiff(content: seq<string>, diff: string) returns (r: Result<seq<string>>)
    ensures r == ApplyPayload(content, diff, Dropped)
  {
    var lines := Split(diff, '\n');
    var newContent := [];
    for j := 0 to |lines|
      invariant ApplyLines(content, lines[..j], Dropped) == Ok(newContent)
    {
      assert lines[..j + 1][..j] == lines[..j];
      var step := ApplyLine(content, lines[j], newContent, Dropped);
      if step.Err? {
        ApplyLinesStuck(content, lines, j + 1, Dropped);
        return Err(step.error);
      }
      newContent := step.value;
    }
    assert lines[..|lines|] == lines;
    return Ok(newContent);
  }

  /** `Cat`: lists the key's commits, then replays them one payload line at
      a time. */
  method Cat(fs: FileSystem, key: string, commitId: string) returns (r: Result<string>)
    ensures r == CatIn(fs.tree, key, commitId)
  {
    var fileslist := ReadDir(fs.tree, CommitsDir(key));
    if fileslist.Err? {
      return Err(fileslist.error);
    }
    var sortedFiles := Names(fileslist.value);
    var content := [""];
    var i := 0;
    while i < |sortedFiles|
      invariant 0 <= i <= |sortedFiles|
      invariant CatFrom(fs.tree, key, sortedFiles[i..], commitId, content) == CatFrom(fs.tree, key, sortedFiles, commitId, [""])
    {
      var file := sortedFiles[i];
      assert sortedFiles[i..][1..] == sortedFiles[i + 1..];
      if IsBinaryName(file) {
        i := i + 1;
        continue;
      }
      var breakAfter := file == commitId;
      var diff := ReadFile(fs.tree, CommitPath(key, file));
      if diff.Err? {
        return Err(diff.error);
      }
      var newContent := ApplyDiff(content, diff.value);
      if newContent.Err? {
        return Err(newContent.error);
      }
      content := newContent.value;
      if breakAfter {
        break;
      }
      i := i + 1;
    }
    return Ok(Join(content, '\n'));
  }

  /** `LastCat`: finds the greatest commit name, then runs `Cat` with it. */
  method LastCat(fs: FileSystem, key: string) returns (r: Result<string>)
    ensures r == LastCatIn(fs.tree, key)
  {
    var filesList := ReadDir(fs.tree, CommitsDir(key));
    if filesList.Err? {
      return Err(filesList.error);
    }
    if |filesList.value| == 0 {
      return Err(NoCommits(key));
    }
    var names := Names(filesList.value);
    var latestCommit := "";
    for i := 0 to |names|
      invariant latestCommit == Greatest(names[..i])
    {
      assert names[..i + 1][..i] == names[..i];
      if latestCommit == "" || LexLess(latestCommit, names[i]) {
        latestCommit := names[i];
      }
    }
    assert names[..|names|] == names;
    r := Cat(fs, key, latestCommit);
  }
}
