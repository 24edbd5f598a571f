/** The greedy line differ: every line of the new text becomes either a
    reference to the first equal line of the old text (`=`) or a literal
    addition (`+`).  Nothing is ever deleted explicitly; old lines that are
    not referenced simply disappear on replay. */
module Differ {
  import opened Errors
  import opened GoStrings
  import opened Utils

  /** The index of the first line equal to `x`, if any. */
  function FirstMatch(lines: seq<string>, x: string): (r: Option<nat>)
    ensures r.None? <==> x !in lines
    ensures r.Some? ==> r.value < |lines| && lines[r.value] == x
    ensures r.Some? ==> forall j :: 0 <= j < r.value ==> lines[j] != x
    decreases |lines|
  {
    if lines == [] then None
    else if lines[0] == x then Some(0)
    else match FirstMatch(lines[1..], x)
      case None => None
      case Some(k) => Some(k + 1)
  }

  /** The change the differ emits for new line `i`. */
  function ChangeFor(oldLines: seq<string>, newLine: string, i: nat): Change
  {
    match FirstMatch(oldLines, newLine)
    case Some(j) => Change("=", "", j + 1)
    case None => Change("+", newLine, i + 1)
  }

  /** What `Diff` computes on split texts: one change per new line, in order.
      An `=` change names the first equal old line (1-based); a `+` change,
      emitted exactly when the line occurs nowhere in the old text, carries
      the line and its 1-based position in the new text. */
  function Changes(oldLines: seq<string>, newLines: seq<string>): (r: seq<Change>)
    ensures |r| == |newLines|
    ensures forall i :: 0 <= i < |r| ==> r[i].op == "=" || r[i].op == "+"
    ensures forall i :: 0 <= i < |r| && r[i].op == "=" ==>
      1 <= r[i].line <= |oldLines| && oldLines[r[i].line - 1] == newLines[i]
      && forall j :: 0 <= j < r[i].line - 1 ==> oldLines[j] != newLines[i]
    ensures forall i :: 0 <= i < |r| ==> (r[i].op == "+" <==> newLines[i] !in oldLines)
    ensures forall i :: 0 <= i < |r| && r[i].op == "+" ==> r[i].value == newLines[i] && r[i].line == i + 1
  {
    seq(|newLines|, i requires 0 <= i < |newLines| => ChangeFor(oldLines, newLines[i], i))
  }

  /** The inner loop of `Diff`: the first old line equal to `newLine`. */
  method FindLine(oldLines: seq<string>, newLine: string) returns (r: Option<nat>)
    ensures r == FirstMatch(oldLines, newLine)
  {
    var j := 0;
    while j < |oldLines|
      invariant 0 <= j <= |oldLines|
      invariant forall k :: 0 <= k < j ==> oldLines[k] != newLine
    {
      if newLine == oldLines[j] {
        return Some(j);
      }
      j := j + 1;
    }
    return None;
  }

  /** One more new line adds its change at the end. */
  lemma ChangesSnoc(oldLines: seq<string>, newLines: seq<string>, i: nat)
    requires i < |newLines|
    ensures Changes(oldLines, newLines[..i + 1])
         == Changes(oldLines, newLines[..i]) + [ChangeFor(oldLines, newLines[i], i)]
  {
    assert newLines[..i + 1] == newLines[..i] + [newLines[i]];
  }

  /** `Diff`: splits both texts on "\n" and matches every new line against
      the old lines, first match wins. */
  method Diff(oldContent: string, newContent: string) returns (diffs: seq<Change>)
    ensures diffs == Changes(Split(oldContent, '\n'), Split(newContent, '\n'))
  {
    diffs := [];
    var oldLines := Split(oldContent, '\n');
    var newLines := Split(newContent, '\n');
    for i := 0 to |newLines|
      invariant diffs == Changes(oldLines, newLines[..i])
    {
      var m := FindLine(oldLines, newLines[i]);
      ChangesSnoc(oldLines, newLines, i);
      if m.Some? {
        diffs := diffs + [Change("=", "", m.value + 1)];
      } else {
        diffs := diffs + [Change("+", newLines[i], i + 1)];
      }
    }
    assert newLines[..|newLines|] == newLines;
  }

  /** Against an empty old text, whose only line is "", every empty new line
      becomes `=1` and every other line an addition. */
  lemma DiffAgainstEmpty(newLines: seq<string>)
    ensures forall i :: 0 <= i < |newLines| ==>
      Changes([""], newLines)[i] == (if newLines[i] == "" then Change("=", "", 1) else Change("+", newLines[i], i + 1))
  {
    forall i | 0 <= i < |newLines|
      ensures Changes([""], newLines)[i] == (if newLines[i] == "" then Change("=", "", 1) else Change("+", newLines[i], i + 1))
    {
      assert ChangeFor([""], newLines[i], i) == Changes([""], newLines)[i];
    }
  }

  /** Changing the last line of a three-line text keeps the first two lines
      by reference and adds the new one. */
  lemma ChangeLastLine()
    ensures Changes(["A", "B", "C"], ["A", "B", "D"]) ==
      [Change("=", "", 1), Change("=", "", 2), Change("+", "D", 3)]
  {
    var r := Changes(["A", "B", "C"], ["A", "B", "D"]);
    assert r[0] == ChangeFor(["A", "B", "C"], "A", 0);
    assert r[1] == ChangeFor(["A", "B", "C"], "B", 1);
    assert r[2] == ChangeFor(["A", "B", "C"], "D", 2);
  }
}
