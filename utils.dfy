/** The engine's shared records and its binary-content test.  File contents
    are strings whose characters stand for bytes; a zero byte is '\0'. */
module Utils {
  import opened Errors

  /** How many leading bytes `IsBinary` inspects. */
  const MaxCheck: nat := 8000

  /** One step of a line diff: `=` reuses old line `line` (1-based), `+`
      adds `value`, which was line `line` of the new text. */
  datatype Change = Change(op: string, value: string, line: int)

  /** A file the commit step has to record: text files carry their old and
      new content, binary files their bytes. */
  datatype SimpleCommitStruct = SimpleCommitStruct(
    key: string,
    oldContent: string,
    newContent: string,
    binaryContent: Option<string>)

  function Min(a: nat, b: nat): nat
  {
    if a < b then a else b
  }

  /** A zero byte occurs among the first `MaxCheck` bytes. */
  predicate Binary(data: string)
  {
    exists i :: 0 <= i < Min(MaxCheck, |data|) && data[i] == '\0'
  }

  /** `IsBinary`: scans at most the first 8000 bytes, and never past the end
      of the buffer, for a zero byte. */
  method IsBinary(data: string) returns (r: bool)
    ensures r == Binary(data)
  {
    var maxCheck := MaxCheck;
    if |data| < maxCheck {
      maxCheck := |data|;
    }
    var i := 0;
    while i < maxCheck
      invariant maxCheck == Min(MaxCheck, |data|)
      invariant 0 <= i <= maxCheck
      invariant forall j :: 0 <= j < i ==> data[j] != '\0'
    {
      if data[i] == '\0' {
        return true;
      }
      i := i + 1;
    }
    return false;
  }

  /** Bytes at index 8000 or beyond never change the classification. */
  lemma BinaryIgnoresTail(data: string, tail: string)
    requires |data| >= MaxCheck
    ensures Binary(data + tail) == Binary(data)
  {
    if Binary(data + tail) {
      var i :| 0 <= i < Min(MaxCheck, |data + tail|) && (data + tail)[i] == '\0';
      assert data[i] == '\0';
    }
    if Binary(data) {
      var i :| 0 <= i < Min(MaxCheck, |data|) && data[i] == '\0';
      assert (data + tail)[i] == '\0';
    }
  }

  /** Changing one byte at index 8000 or beyond never changes the
      classification. */
  lemma BinaryIgnoresFarByte(data: string, k: nat, c: char)
    requires MaxCheck <= k < |data|
    ensures Binary(data[k := c]) == Binary(data)
  {
    if Binary(data[k := c]) {
      var i :| 0 <= i < Min(MaxCheck, |data[k := c]|) && data[k := c][i] == '\0';
      assert data[i] == '\0';
    }
    if Binary(data) {
      var i :| 0 <= i < Min(MaxCheck, |data|) && data[i] == '\0';
      assert data[k := c][i] == '\0';
    }
  }

  /** An empty buffer is not binary. */
  lemma EmptyIsText()
    ensures !Binary("")
  {
  }

  /** Two buffers that agree on the inspected prefix, and are both at least
      that long, are classified alike. */
  lemma BinaryDependsOnPrefix(a: string, b: string, n: nat)
    requires n == Min(MaxCheck, |a|) && |b| >= n && a[..n] == b[..n]
    requires |a| >= MaxCheck ==> |b| >= MaxCheck
    requires |a| < MaxCheck ==> |b| == |a|
    ensures Binary(a) == Binary(b)
  {
    assert Min(MaxCheck, |b|) == n;
    if Binary(a) {
      var i :| 0 <= i < n && a[i] == '\0';
      assert a[..n][i] == b[..n][i];
    }
    if Binary(b) {
      var i :| 0 <= i < n && b[i] == '\0';
      assert a[..n][i] == b[..n][i];
    }
  }
}
