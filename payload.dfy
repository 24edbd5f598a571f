/** The text format of a diff commit and its replay.  A diff commit holds one
    line per change, `=<n>` or `+<text>`, each followed by "\n"; replaying
    it against the previous content's lines rebuilds the new content's
    lines.  The replay skips a `+` line whose text is empty, so a blank line
    that the old content did not have is lost; `BlankRule` selects that
    behaviour (`Dropped`) or the evidently intended one (`Kept`). */
module Payload {
  import opened Errors
  import opened GoStrings
  import opened Utils
  import opened Differ

  // ---------------------------------------------------------------------------
  // Encoding

  predicate Encodable(c: Change)
  {
    c.op == "=" || c.op == "+"
  }

  /** The payload line for one change, without its "\n". */
  function Body(c: Change): string
  {
    if c.op == "=" then "=" + IntToString(c.line) else "+" + c.value
  }

  /** `=<Line>\n` for `=`, `+<Value>\n` for `+`, nothing for any other op. */
  function EncodeChange(c: Change): string
  {
    if Encodable(c) then Body(c) + "\n" else ""
  }

  /** The strings of `parts`, one after the other. */
  function Concat(parts: seq<string>): string
    decreases |parts|
  {
    if parts == [] then "" else Concat(parts[..|parts| - 1]) + parts[|parts| - 1]
  }

  lemma {:induction false} ConcatAppend(a: seq<string>, b: seq<string>)
    ensures Concat(a + b) == Concat(a) + Concat(b)
    decreases |b|
  {
    if b == [] {
      assert a + b == a;
    } else {
      var ab := a + b;
      var init := b[..|b| - 1];
      assert ab[..|ab| - 1] == a + init;
      ConcatAppend(a, init);
    }
  }

  /** The payload `SimpleCommit` builds: the encoded changes, in order. */
  function EncodeChanges(cs: seq<Change>): string
  {
    Concat(seq(|cs|, i requires 0 <= i < |cs| => EncodeChange(cs[i])))
  }

  /** Encoding one more change appends its line to the payload. */
  lemma EncodeChangesSnoc(cs: seq<Change>, c: Change)
    ensures EncodeChanges(cs + [c]) == EncodeChanges(cs) + EncodeChange(c)
  {
    var parts := seq(|cs|, i requires 0 <= i < |cs| => EncodeChange(cs[i]));
    var longer := seq(|cs + [c]|, i requires 0 <= i < |cs + [c]| => EncodeChange((cs + [c])[i]));
    assert longer == parts + [EncodeChange(c)];
    ConcatAppend(parts, [EncodeChange(c)]);
    assert Concat([EncodeChange(c)]) == EncodeChange(c) by {
      assert [EncodeChange(c)][..0] == [];
    }
  }

  function Bodies(cs: seq<Change>): (r: seq<string>)
    ensures |r| == |cs|
  {
    seq(|cs|, i requires 0 <= i < |cs| => Body(cs[i]))
  }

  /** Each line followed by "\n". */
  function Terminated(lines: seq<string>): (r: seq<string>)
    ensures |r| == |lines|
  {
    seq(|lines|, i requires 0 <= i < |lines| => lines[i] + "\n")
  }

  /** Lines without "\n", each terminated and concatenated, split back into
      the lines and one final empty piece. */
  lemma {:induction false} SplitTerminated(lines: seq<string>)
    requires forall i :: 0 <= i < |lines| ==> '\n' !in lines[i]
    ensures Split(Concat(Terminated(lines)), '\n') == lines + [""]
    decreases |lines|
  {
    if lines == [] {
      assert Terminated(lines) == [];
    } else {
      var rest := lines[1..];
      assert Terminated(lines) == [lines[0] + "\n"] + Terminated(rest);
      ConcatAppend([lines[0] + "\n"], Terminated(rest));
      assert Concat([lines[0] + "\n"]) == lines[0] + "\n" by {
        assert [lines[0] + "\n"][..0] == [];
      }
      SplitTerminated(rest);
      assert lines[0] + "\n" + Concat(Terminated(rest)) == lines[0] + ['\n'] + Concat(Terminated(rest));
      SplitConcat(lines[0], '\n', Concat(Terminated(rest)));
      SplitNoSepIsSingleton(lines[0], '\n');
      assert [lines[0]] + rest == lines;
    }
  }

  lemma BodyHasNoNewline(c: Change)
    requires '\n' !in c.value
    ensures '\n' !in Body(c)
  {
    if c.op == "=" {
      if c.line < 0 {
        NatToStringHasNoSeparator(-c.line);
      } else {
        NatToStringHasNoSeparator(c.line);
      }
    }
  }

  /** The payload has one line per change, in order, and a final empty piece
      after the last "\n". */
  lemma SplitEncoded(cs: seq<Change>)
    requires forall i :: 0 <= i < |cs| ==> Encodable(cs[i]) && '\n' !in cs[i].value
    ensures Split(EncodeChanges(cs), '\n') == Bodies(cs) + [""]
  {
    var parts := seq(|cs|, i requires 0 <= i < |cs| => EncodeChange(cs[i]));
    assert parts == Terminated(Bodies(cs));
    forall i | 0 <= i < |cs| ensures '\n' !in Bodies(cs)[i] {
      BodyHasNoNewline(cs[i]);
    }
    SplitTerminated(Bodies(cs));
  }

  // ---------------------------------------------------------------------------
  // Replay

  /** What a `+` line with empty text does. */
  datatype BlankRule = Dropped | Kept

  /** An `=<n>` line: appends old line `n`.  An empty number appends nothing;
      a number that does not parse is an error; a number outside the old
      content makes the program panic, here an error of its own. */
  function ApplyReference(content: seq<string>, num: string, acc: seq<string>): Result<seq<string>>
  {
    if num == "" then Ok(acc)
    else match Atoi(num)
      case None => Err(InvalidLineNumber(num))
      case Some(n) => if 1 <= n <= |content| then Ok(acc + [content[n - 1]]) else Err(LineOutOfRange(n))
  }

  /** One payload line: empty lines and lines starting with anything but `=`
      or `+` are skipped. */
  function ApplyLine(content: seq<string>, line: string, acc: seq<string>, rule: BlankRule): Result<seq<string>>
  {
    if line == "" then Ok(acc)
    else if line[0] == '=' then ApplyReference(content, line[1..], acc)
    else if line[0] == '+' then
      if line[1..] == "" && rule == Dropped then Ok(acc) else Ok(acc + [line[1..]])
    else Ok(acc)
  }

  /** The new lines a payload's lines build from the old lines `content`. */
  function ApplyLines(content: seq<string>, lines: seq<string>, rule: BlankRule): Result<seq<string>>
    decreases |lines|
  {
    if lines == [] then Ok([])
    else
      var acc :- ApplyLines(content, lines[..|lines| - 1], rule);
      ApplyLine(content, lines[|lines| - 1], acc, rule)
  }

  /** Replaying a whole payload text. */
  function ApplyPayload(content: seq<string>, payload: string, rule: BlankRule): Result<seq<string>>
  {
    ApplyLines(content, Split(payload, '\n'), rule)
  }

  /** An `=` line written for a 1-based line number appends that old line. */
  lemma ApplyReferenceLine(content: seq<string>, n: int, acc: seq<string>, rule: BlankRule)
    requires 1 <= n <= |content| && n <= MaxInt64
    ensures ApplyLine(content, "=" + IntToString(n), acc, rule) == Ok(acc + [content[n - 1]])
  {
    var line := "=" + IntToString(n);
    AtoiIntToString(n);
    NatToStringDigits(n);
    assert line[1..] == IntToString(n);
  }

  /** The line written for new line `i` appends exactly that line. */
  lemma ApplyChangeLine(oldLines: seq<string>, newLines: seq<string>, i: nat, acc: seq<string>, rule: BlankRule)
    requires |oldLines| <= MaxInt64 && i < |newLines|
    requires rule == Dropped && newLines[i] == "" ==> "" in oldLines
    ensures ApplyLine(oldLines, Body(Changes(oldLines, newLines)[i]), acc, rule) == Ok(acc + [newLines[i]])
  {
    var c := Changes(oldLines, newLines)[i];
    if c.op == "=" {
      ApplyReferenceLine(oldLines, c.line, acc, rule);
    } else {
      var line := Body(c);
      assert line == "+" + newLines[i];
      assert line[1..] == newLines[i];
    }
  }

  /** Replaying the encoding of `Changes(old, new)` against `old` yields
      `new`, one line at a time.  Under `Dropped` this needs every empty new
      line to occur in the old lines (so that it is encoded as `=`); under
      `Kept` it holds unconditionally. */
  lemma {:induction false} ReplayPrefix(oldLines: seq<string>, newLines: seq<string>, rule: BlankRule, i: nat)
    requires |oldLines| <= MaxInt64
    requires rule == Dropped ==> forall k :: 0 <= k < |newLines| && newLines[k] == "" ==> "" in oldLines
    requires i <= |newLines|
    ensures ApplyLines(oldLines, Bodies(Changes(oldLines, newLines))[..i], rule) == Ok(newLines[..i])
    decreases i
  {
    if i > 0 {
      var cs := Changes(oldLines, newLines);
      ReplayPrefix(oldLines, newLines, rule, i - 1);
      ApplyChangeLine(oldLines, newLines, i - 1, newLines[..i - 1], rule);
      ReplayStep(oldLines, Bodies(cs), newLines, i, rule);
    }
  }

  /** One more payload line extends the replayed prefix by one line. */
  lemma ReplayStep(content: seq<string>, bs: seq<string>, news: seq<string>, i: nat, rule: BlankRule)
    requires 0 < i <= |bs| && i <= |news|
    requires ApplyLines(content, bs[..i - 1], rule) == Ok(news[..i - 1])
    requires ApplyLine(content, bs[i - 1], news[..i - 1], rule) == Ok(news[..i - 1] + [news[i - 1]])
    ensures ApplyLines(content, bs[..i], rule) == Ok(news[..i])
  {
    var pre := bs[..i];
    assert pre[..|pre| - 1] == bs[..i - 1];
    assert news[..i] == news[..i - 1] + [news[i - 1]];
  }

  /** The round trip of one commit: replaying the payload `SimpleCommit`
      writes for `Diff(old, new)` against the lines of `old` gives back the
      lines of `new`, provided every blank line of `new` also occurs in
      `old` (as written), or always (with blank additions kept). */
  lemma ReplayRoundTrip(oldLines: seq<string>, newLines: seq<string>, rule: BlankRule)
    requires |oldLines| <= MaxInt64
    requires forall k :: 0 <= k < |newLines| ==> '\n' !in newLines[k]
    requires rule == Dropped ==> forall k :: 0 <= k < |newLines| && newLines[k] == "" ==> "" in oldLines
    ensures ApplyPayload(oldLines, EncodeChanges(Changes(oldLines, newLines)), rule) == Ok(newLines)
  {
    var cs := Changes(oldLines, newLines);
    SplitEncoded(cs);
    var lines := Bodies(cs) + [""];
    ReplayPrefix(oldLines, newLines, rule, |newLines|);
    assert Bodies(cs)[..|newLines|] == Bodies(cs);
    assert newLines[..|newLines|] == newLines;
    assert lines[..|lines| - 1] == Bodies(cs);
  }

  /** The same round trip on whole texts: the replayed lines, joined, are
      the new text. */
  lemma ReplayRoundTripText(oldContent: string, newContent: string, rule: BlankRule)
    requires |Split(oldContent, '\n')| <= MaxInt64
    requires rule == Dropped ==> ("" in Split(newContent, '\n') ==> "" in Split(oldContent, '\n'))
    ensures ApplyPayload(Split(oldContent, '\n'),
      EncodeChanges(Changes(Split(oldContent, '\n'), Split(newContent, '\n'))), rule).Ok?
    ensures Join(ApplyPayload(Split(oldContent, '\n'),
      EncodeChanges(Changes(Split(oldContent, '\n'), Split(newContent, '\n'))), rule).value, '\n') == newContent
  {
    SplitNoSep(newContent, '\n');
    ReplayRoundTrip(Split(oldContent, '\n'), Split(newContent, '\n'), rule);
    JoinSplit(newContent, '\n');
  }

  /** The payload for committing "a\n\nb" over "a". */
  lemma BlankLineEncoding()
    ensures EncodeChanges(Changes(["a"], ["a", "", "b"])) == "=1\n+\n+b\n"
  {
    var cs := Changes(["a"], ["a", "", "b"]);
    BlankLineChanges();
    var c0, c1, c2 := Change("=", "", 1), Change("+", "", 2), Change("+", "b", 3);
    assert cs == [c0] + [c1] + [c2];
    EncodeOne(c0, "=1");
    EncodeOne(c1, "+");
    EncodeOne(c2, "+b");
    EncodeChangesSnoc([], c0);
    EncodeChangesSnoc([c0], c1);
    EncodeChangesSnoc([c0] + [c1], c2);
    assert EncodeChanges([]) == "";
    assert "" + "=1\n" + "+\n" + "+b\n" == "=1\n+\n+b\n";
  }

  /** The changes for inserting an empty line between `a` and `b`. */
  lemma BlankLineChanges()
    ensures Changes(["a"], ["a", "", "b"]) == [Change("=", "", 1), Change("+", "", 2), Change("+", "b", 3)]
  {
    var cs := Changes(["a"], ["a", "", "b"]);
    assert cs[0] == ChangeFor(["a"], "a", 0);
    assert cs[1] == ChangeFor(["a"], "", 1);
    assert cs[2] == ChangeFor(["a"], "b", 2);
  }

  /** The payload line of one change. */
  lemma EncodeOne(c: Change, body: string)
    requires Encodable(c) && Body(c) == body
    ensures EncodeChange(c) == body + "\n"
  {
  }

  lemma BlankLinePayloadLines()
    ensures Split("=1\n+\n+b\n", '\n') == ["=1", "+", "+b", ""]
  {
    assert "=1\n+\n+b\n" == "=1" + "\n" + "+" + "\n" + "+b" + "\n";
    SplitThreeLines("=1", "+", "+b");
  }

  /** Three lines, each ended by "\n", split into the lines and a final
      empty piece. */
  lemma SplitThreeLines(a: string, b: string, c: string)
    requires '\n' !in a && '\n' !in b && '\n' !in c
    ensures Split(a + "\n" + b + "\n" + c + "\n", '\n') == [a, b, c, ""]
  {
    var s3 := c + ['\n'] + "";
    var s2 := b + ['\n'] + s3;
    var s1 := a + ['\n'] + s2;
    assert s1 == a + "\n" + b + "\n" + c + "\n";
    SplitNoSepIsSingleton("", '\n');
    SplitLine(c, "");
    SplitLine(b, s3);
    SplitLine(a, s2);
  }

  /** A line without "\n", then "\n", then the rest. */
  lemma SplitLine(head: string, rest: string)
    requires '\n' !in head
    ensures Split(head + ['\n'] + rest, '\n') == [head] + Split(rest, '\n')
  {
    SplitConcat(head, '\n', rest);
    SplitNoSepIsSingleton(head, '\n');
  }

  lemma BlankLineReplay(rule: BlankRule)
    ensures ApplyLines(["a"], ["=1", "+", "+b", ""], rule) == Ok(if rule == Dropped then ["a", "b"] else ["a", "", "b"])
  {
    var lines := ["=1", "+", "+b", ""];
    var none: seq<string> := [];
    assert Atoi("1") == Some(1) by {
      AtoiIntToString(1);
      assert IntToString(1) == "1";
    }
    assert "=1"[0] == '=' && "=1"[1..] == "1";
    assert ApplyReference(["a"], "1", none) == Ok(["a"]) by {
      assert none + [["a"][0]] == ["a"];
    }
    assert lines[..1][..0] == none;
    assert ApplyLines(["a"], lines[..1], rule) == Ok(["a"]);
    var afterBlank := if rule == Dropped then ["a"] else ["a", ""];
    assert "+"[0] == '+' && "+"[1..] == "";
    assert lines[..2][..1] == lines[..1] && lines[..2][1] == "+";
    assert ApplyLine(["a"], "+", ["a"], rule) == Ok(afterBlank) by {
      assert ["a"] + [""] == ["a", ""];
    }
    assert ApplyLines(["a"], lines[..2], rule) == Ok(afterBlank);
    assert "+b"[0] == '+' && "+b"[1..] == "b";
    assert lines[..3][..2] == lines[..2];
    assert ApplyLines(["a"], lines[..3], rule) == Ok(afterBlank + ["b"]);
    assert lines[..3] == lines[..|lines| - 1] && lines[|lines| - 1] == "";
    assert afterBlank + ["b"] == if rule == Dropped then ["a", "b"] else ["a", "", "b"];
  }

  /** As written, a blank line added where the old text had none is lost:
      committing "a\n\nb" over "a" and replaying gives "a\nb"; keeping blank
      additions gives the committed text back. */
  lemma BlankLineDropped()
    ensures ApplyPayload(["a"], EncodeChanges(Changes(["a"], ["a", "", "b"])), Dropped) == Ok(["a", "b"])
    ensures ApplyPayload(["a"], EncodeChanges(Changes(["a"], ["a", "", "b"])), Kept) == Ok(["a", "", "b"])
  {
    BlankLineEncoding();
    BlankLinePayloadLines();
    BlankLineReplay(Dropped);
    BlankLineReplay(Kept);
  }

  /** A payload of one line replays as that line alone. */
  lemma ApplyOneLine(content: seq<string>, line: string, rule: BlankRule)
    requires '\n' !in line
    ensures ApplyPayload(content, line + "\n", rule) == ApplyLine(content, line, [], rule)
  {
    SplitConcat(line, '\n', "");
    assert line + "\n" == line + ['\n'] + "";
    SplitNoSepIsSingleton(line, '\n');
    var lines := [line, ""];
    var none: seq<string> := [];
    assert Split(line + "\n", '\n') == lines;
    assert lines[..1] == [line] && [line][..0] == none;
    assert ApplyLines(content, [line], rule) == ApplyLine(content, line, [], rule);
    assert ApplyLines(content, lines, rule) == ApplyLines(content, [line], rule);
  }

  lemma ClearedFileEncoding()
    ensures EncodeChanges(Changes(["a"], [""])) == "+\n"
  {
    var cs := Changes(["a"], [""]);
    assert cs[0] == ChangeFor(["a"], "", 0) == Change("+", "", 1);
    var parts := seq(|cs|, i requires 0 <= i < |cs| => EncodeChange(cs[i]));
    assert EncodeChange(cs[0]) == "+" + "" + "\n" == "+\n";
    assert parts == ["+\n"];
    var noParts: seq<string> := [];
    assert parts[..0] == noParts;
    assert Concat(parts) == Concat(noParts) + "+\n" == "+\n";
  }

  lemma ApplyBlankAddition(content: seq<string>, rule: BlankRule)
    ensures ApplyLine(content, "+", [], rule) == Ok(if rule == Dropped then [] else [""])
  {
    assert "+"[0] == '+' && "+"[1..] == "";
    var none: seq<string> := [];
    assert none + [""] == [""];
  }

  lemma ApplyFirstLineReference(content: seq<string>, rule: BlankRule)
    ensures ApplyLine(content, "=1", [], rule) == if content == [] then Err(LineOutOfRange(1)) else Ok([content[0]])
  {
    assert "=1"[0] == '=' && "=1"[1..] == "1";
    assert Atoi("1") == Some(1) by {
      AtoiIntToString(1);
      assert IntToString(1) == "1";
    }
    var none: seq<string> := [];
    assert ApplyLine(content, "=1", none, rule) == ApplyReference(content, "1", none);
    if content != [] {
      assert none + [content[0]] == [content[0]];
    }
  }

  lemma ClearedFileReplay(rule: BlankRule)
    ensures ApplyPayload(["a"], "+\n", rule) == Ok(if rule == Dropped then [] else [""])
  {
    ApplyOneLine(["a"], "+", rule);
    ApplyBlankAddition(["a"], rule);
  }

  lemma ReferenceAfterClear(content: seq<string>, rule: BlankRule)
    ensures ApplyPayload(content, "=1\n", rule) == if content == [] then Err(LineOutOfRange(1)) else Ok([content[0]])
  {
    ApplyOneLine(content, "=1", rule);
    assert "=1" + "\n" == "=1\n";
    ApplyFirstLineReference(content, rule);
  }

  /** The same rule empties a file's replayed lines altogether when its
      content is cleared: the later `=1` that a diff against the empty text
      emits then points past the end of the replayed lines (the program
      panics).  Keeping blank additions replays both commits. */
  lemma ClearedFileBreaksReplay()
    ensures EncodeChanges(Changes(["a"], [""])) == "+\n"
    ensures ApplyPayload(["a"], "+\n", Dropped) == Ok([])
    ensures ApplyPayload(["a"], "+\n", Kept) == Ok([""])
    ensures ApplyPayload([], "=1\n", Dropped) == Err(LineOutOfRange(1))
    ensures ApplyPayload([""], "=1\n", Kept) == Ok([""])
  {
    ClearedFileEncoding();
    ClearedFileReplay(Dropped);
    ClearedFileReplay(Kept);
    ReferenceAfterClear([], Dropped);
    ReferenceAfterClear([""], Kept);
  }
}
