/** Commit ids and the history entry.  A diff commit is named
    `d<unix time>+<sha256 hex of the new content>`, a binary commit
    `b<unix time>+<sha256 hex of the bytes>`, and a deletion is recorded as
    `d<unix time>+deleted`.  The part after the first `+` is what change
    detection compares against a file's hash. */
module CommitIds {
  import opened Errors
  import opened GoStrings

  predicate IsHexDigit(c: char)
  {
    '0' <= c <= '9' || 'a' <= c <= 'f'
  }

  /** `fmt.Sprintf("%x", sha256.Sum256(data))`: 64 lower-case hex digits.
      SHA-256 itself is a parameter of the operations that need it. */
  type Digest = s: string | |s| == 64 && forall i :: 0 <= i < |s| ==> IsHexDigit(s[i])
    witness seq(64, _ => '0')

  /** The id of a commit of kind `d` or `b` made at time `ts`. */
  function CommitId(kind: char, ts: nat, tag: string): string
  {
    [kind] + NatToString(ts) + "+" + tag
  }

  /** `strings.Split(name[1:], "+")[1]`: the text after the first `+`
      following the kind letter, up to the next `+`.  An empty name or one
      without a `+` makes the program panic. */
  function HashPart(name: string): Result<string>
  {
    if name == [] then Err(MalformedCommitName(name))
    else
      var parts := Split(name[1..], '+');
      if |parts| < 2 then Err(MalformedCommitName(name)) else Ok(parts[1])
  }

  /** The hash part of an id is the tag it was made with, whenever the tag
      has no `+` (a hex digest never does, nor does "deleted"). */
  lemma HashPartOfCommitId(kind: char, ts: nat, tag: string)
    requires '+' !in tag
    ensures HashPart(CommitId(kind, ts, tag)) == Ok(tag)
  {
    var name := CommitId(kind, ts, tag);
    var stamp := NatToString(ts);
    assert name[1..] == stamp + ['+'] + tag;
    NatToStringHasNoSeparator(ts);
    SplitConcat(stamp, '+', tag);
    SplitNoSepIsSingleton(stamp, '+');
    SplitNoSepIsSingleton(tag, '+');
  }

  lemma DigestHasNoPlus(d: Digest)
    ensures '+' !in d && '\n' !in d && '/' !in d
  {
  }

  /** Ids of diff commits made at times with the same number of digits
      sort by time: a later commit is the greater name. */
  lemma LaterIdIsGreater(ts1: nat, ts2: nat, d1: string, d2: string)
    requires ts1 < ts2 && |NatToString(ts1)| == |NatToString(ts2)|
    ensures LexLess(CommitId('d', ts1, d1), CommitId('d', ts2, d2))
  {
    var a := NatToString(ts1);
    var b := NatToString(ts2);
    DigitsValueOfNatToString(ts1);
    DigitsValueOfNatToString(ts2);
    SameLengthDigitsOrder(a, b);
    LexLessPrefix(a, b, "+" + d1, "+" + d2);
    SameHead('d', a + ("+" + d1), b + ("+" + d2));
    CommitIdParts('d', ts1, d1);
    CommitIdParts('d', ts2, d2);
  }

  lemma CommitIdParts(kind: char, ts: nat, tag: string)
    ensures CommitId(kind, ts, tag) == [kind] + (NatToString(ts) + ("+" + tag))
  {
  }

  /** The same first character leaves the order to the rest. */
  lemma SameHead(k: char, u: string, v: string)
    requires LexLess(u, v)
    ensures LexLess([k] + u, [k] + v)
  {
    assert ([k] + u)[1..] == u && ([k] + v)[1..] == v;
  }

  /** Two digit runs of equal length compare like their values. */
  lemma {:induction false} SameLengthDigitsOrder(a: string, b: string)
    requires |a| == |b| && AllDigits(a) && AllDigits(b)
    requires DigitsValue(a) < DigitsValue(b)
    ensures LexLess(a, b)
    decreases |a|
  {
    var n := |a|;
    assert n > 0;
    var a0, b0 := a[..n - 1], b[..n - 1];
    assert AllDigits(a0) && AllDigits(b0) by {
      forall k | 0 <= k < n - 1 ensures IsDigit(a0[k]) && IsDigit(b0[k]) {
        assert a0[k] == a[k] && b0[k] == b[k];
      }
    }
    if DigitsValue(a0) < DigitsValue(b0) {
      SameLengthDigitsOrder(a0, b0);
      LexLessPrefix(a0, b0, [a[n - 1]], [b[n - 1]]);
      assert a == a0 + [a[n - 1]] && b == b0 + [b[n - 1]];
    } else {
      assert DigitsValue(a0) == DigitsValue(b0);
      DigitsValueInjective(a0, b0);
      assert DigitValue(a[n - 1]) < DigitValue(b[n - 1]);
      LastByteDecides(a0, a[n - 1], b[n - 1]);
      assert a == a0 + [a[n - 1]] && b == a0 + [b[n - 1]];
    }
  }

  lemma {:induction false} DigitsValueInjective(a: string, b: string)
    requires |a| == |b| && AllDigits(a) && AllDigits(b) && DigitsValue(a) == DigitsValue(b)
    ensures a == b
    decreases |a|
  {
    var n := |a|;
    if n > 0 {
      var a0, b0 := a[..n - 1], b[..n - 1];
      assert AllDigits(a0) && AllDigits(b0) by {
        forall k | 0 <= k < n - 1 ensures IsDigit(a0[k]) && IsDigit(b0[k]) {
          assert a0[k] == a[k] && b0[k] == b[k];
        }
      }
      assert DigitsValue(a0) == DigitsValue(b0) && DigitValue(a[n - 1]) == DigitValue(b[n - 1]);
      DigitsValueInjective(a0, b0);
      assert a == a0 + [a[n - 1]] && b == b0 + [b[n - 1]];
    }
  }

  /** A strictly smaller string stays smaller when equally long strings are
      extended. */
  lemma {:induction false} LexLessPrefix(a: string, b: string, x: string, y: string)
    requires |a| == |b| && LexLess(a, b)
    ensures LexLess(a + x, b + y)
    decreases |a|
  {
    assert (a + x)[0] == a[0] && (b + y)[0] == b[0];
    if a[0] == b[0] {
      assert (a + x)[1..] == a[1..] + x && (b + y)[1..] == b[1..] + y;
      LexLessPrefix(a[1..], b[1..], x, y);
    }
  }

  lemma {:induction false} LastByteDecides(p: string, c: char, d: char)
    requires c < d
    ensures LexLess(p + [c], p + [d])
    decreases |p|
  {
    if p != [] {
      assert (p + [c])[1..] == p[1..] + [c] && (p + [d])[1..] == p[1..] + [d];
      LastByteDecides(p[1..], c, d);
    }
  }

  // ---------------------------------------------------------------------------
  // References and the history entry

  /** A reference in the history entry: the key, its commits directory and
      the commit id. */
  function CommitRef(key: string, id: string): string
  {
    key + "/.commits/" + id
  }

  /** The reference recorded for a key that is no longer in the working
      tree; no file is written under this name. */
  function DeletionRef(key: string, ts: nat): string
  {
    CommitRef(key, CommitId('d', ts, "deleted"))
  }

  /** The history entry: the number of "\n"-separated parts of the message,
      the message, then one reference per line. */
  function HistoryText(message: string, refs: seq<string>): string
  {
    IntToString(|Split(message, '\n')|) + "\n" + message + "\n" + Join(refs, '\n')
  }

  /** Reading a history entry back: the first line gives the number of
      message lines, the remaining lines after those are the references. */
  function ParseHistory(text: string): Option<(string, seq<string>)>
  {
    var lines := Split(text, '\n');
    match Atoi(lines[0])
    case None => None
    case Some(n) =>
      if 1 <= n && n < |lines| then Some((Join(lines[1..1 + n], '\n'), lines[1 + n..])) else None
  }

  /** The history entry can be read back: its message and references are
      recovered exactly, provided no reference spans lines. */
  lemma ParseHistoryText(message: string, refs: seq<string>)
    requires refs != [] && forall i :: 0 <= i < |refs| ==> '\n' !in refs[i]
    requires |Split(message, '\n')| <= MaxInt64
    ensures ParseHistory(HistoryText(message, refs)) == Some((message, refs))
  {
    var m := Split(message, '\n');
    var count := IntToString(|m|);
    var text := HistoryText(message, refs);
    NatToStringHasNoSeparator(|m|);
    assert text == count + ['\n'] + (message + ['\n'] + Join(refs, '\n'));
    SplitConcat(count, '\n', message + ['\n'] + Join(refs, '\n'));
    SplitConcat(message, '\n', Join(refs, '\n'));
    SplitNoSepIsSingleton(count, '\n');
    SplitJoin(refs, '\n');
    var lines := Split(text, '\n');
    assert lines == [count] + m + refs;
    AtoiIntToString(|m|);
    assert lines[1..1 + |m|] == m;
    assert lines[1 + |m|..] == refs;
    JoinSplit(message, '\n');
  }
}
