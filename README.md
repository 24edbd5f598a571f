# A verified model of a small line-diff version-control engine

This project models the engine of a small version-control tool. The tool
keeps the history of every tracked file under `.vc/keys/<key>/.commits/`.
Here `<key>` is the file's path relative to the working directory.

- A **commit** of a text file is a named file `d<unix-seconds>+<hex sha-256>`.
  Its payload is a line diff against the previous version.
- A **commit** of a binary file is named `b<unix-seconds>+<hex sha-256>`.
  It holds the whole content.
- **`Cat`** rebuilds a version by replaying the diff commits in name order.
  It starts from the one-line content `[""]` and skips binary commits.
- **`LastCat`** replays up to the greatest commit name.
- **`DiffForCommit`** discovers the known keys, scans the working tree and
  says what would be committed.
- **`FullCommit`** does the same and also writes:
  - commits for the changed files;
  - moves of deleted keys to `.vc/deleted/<ts>/`;
  - a history entry `.vc/history/<ts>`.
- **`Rebuild`** walks the key store and writes the last version of every key
  back into the working tree.

The model works over an in-memory file system, which stands in for the
operating system:

- A tree maps paths, which are sequences of names, to files and to folders.
- Folder entries are kept sorted, which is how `os.ReadDir` lists them.
- Path strings are resolved as the operating system would. A `""` or `"."`
  component is dropped, so `.//a/b` and `a/b` name the same node.
- `FileSystem.FileSystem` is a class whose `tree` field is updated in place
  by `WriteFile`, `MkdirAll` and `Rename`.
- Each of these methods is proved equal to a function on trees:
  `WriteFileIn`, `MkdirAllIn` or `RenameIn`. Each function keeps the tree
  well formed.

Some inputs are parameters:

- The SHA-256 digest is a function parameter `hash`. It returns 64 lowercase
  hex characters.
- The clock is a parameter `ts`.

Modules, one per concern:

- `Errors`: Result and Option.
- `GoStrings`: Go's `strings.Split`/`Join`, byte-wise string order and
  `strconv.Atoi`.
- `FileSystem`.
- `Walk`: the bookkeeping that makes the growing-queue walks terminate.
- `Utils`: `IsBinary`.
- `Differ`: `Diff`.
- `Payload`: the diff payload and its replay.
- `Replay`: `Cat` and `LastCat`.
- `CommitIds`: commit names and history entries.
- `Commit`: `SimpleCommit` and `BinarySimpleCommit`.
- `Discovery`: the key discovery shared by `DiffForCommit` and `FullCommit`.
- `Scan`: the working-tree scan.
- `Staging`: `DiffForCommit` and `PrintDiffs`.
- `Committing`: `FullCommit`.
- `Rebuilding`: `Rebuild`.

Walks are imperative methods with loop invariants. Each one is proved
against a specification predicate over the tree:

- the set of keys found;
- the set of files met;
- the records staged.

Each write sequence is proved equal to a fold over the tree. The meaning of
each fold is then proved in lemmas.

## Model

| member | source | states |
|---|---|---|
| Utils.IsBinary | utils.go:16-27 | The result is `Binary(data)`: some zero byte occurs among the first `min(8000, len)` bytes. |
| Utils.BinaryIgnoresTail | utils.go:17-20 | Bytes after the first 8000 never change the classification: appending to content of 8000 bytes or more keeps it. |
| Utils.BinaryIgnoresFarByte | utils.go:21-25 | Overwriting any byte at position 8000 or later keeps the classification. |
| Utils.EmptyIsText | utils.go:18-26 | Empty content is text. |
| Utils.BinaryDependsOnPrefix | utils.go:16-27 | Two contents that agree on the checked prefix (and on length below 8000) are classified alike. |
| Differ.FirstMatch | diff.go:20-25 | None exactly when the line does not occur in the old lines; otherwise the index of its first occurrence. |
| Differ.Changes | diff.go:12-33 | One change per new line; `=` with the 1-based number of the first equal old line exactly when the line occurs in the old content, otherwise `+` carrying the line and its 1-based position. |
| Differ.Diff | diff.go:12-33 | The loop over both line lists computes exactly `Changes` of the `\n`-split contents. |
| Differ.DiffAgainstEmpty | diff.go:14-30 | Against empty old content (one empty line) a new line is `=1` when empty and otherwise an addition at its position. |
| Differ.ChangeLastLine | diff.go:12-33 | The diff of `A,B,C` to `A,B,D` is `=1`, `=2`, `+D` at line 3. |
| Payload.SplitEncoded | commit.go:224-232 | Splitting the encoded payload at `\n` gives one line per change, in order, and a final empty piece. |
| Payload.EncodeChangesSnoc | commit.go:224-232 | The payload of one more change is the old payload followed by that change's line. |
| Payload.ApplyReferenceLine | cat.go:40-48 | Replaying `=n` for `1 <= n <= len(content)` appends the n-th line of the previous content. |
| Payload.ApplyChangeLine | cat.go:35-55 | Replaying the payload line of the i-th change appends the i-th new line (under the as-written rule, an empty new line is appended only when it also occurs in the old content). |
| Payload.ReplayPrefix | cat.go:35-56 | Replaying the first i payload lines of a diff yields the first i new lines. |
| Payload.ReplayRoundTrip | cat.go:35-56 | Replaying the payload of `Changes(old, new)` on `old` gives back `new`; under the corrected rule (`Kept`) for every input, under the as-written rule (`Dropped`) when every empty new line also occurs in the old content. |
| Payload.ReplayRoundTripText | commit.go:224-232 | The same round trip for whole contents: the replay succeeds and joining its lines gives the new content. |
| Payload.BlankLineEncoding | commit.go:224-232 | Inserting an empty line between `a` and `b` is encoded as `=1`, `+`, `+b`. |
| Payload.BlankLinePayloadLines | cat.go:33 | That payload splits into the lines `=1`, `+`, `+b` and a final empty piece. |
| Payload.BlankLineReplay | cat.go:35-55 | Replaying those lines on `a` gives `a,b` as written and `a,,b` under the corrected rule. |
| Payload.BlankLineDropped | cat.go:49-54 | The as-written replay of the diff from `a` to `a,,b` yields `a,b`: the inserted empty line is lost. |
| Payload.ClearedFileEncoding | commit.go:224-232 | Emptying a one-line file is encoded as the single line `+`. |
| Payload.ApplyBlankAddition | cat.go:49-54 | The line `+` appends nothing as written and one empty line under the corrected rule. |
| Payload.ApplyFirstLineReference | cat.go:40-48 | `=1` fails on empty content with an out-of-range line and otherwise appends the first line. |
| Payload.ClearedFileReplay | cat.go:33-56 | Replaying the cleared-file payload leaves no line as written and one empty line corrected. |
| Payload.ReferenceAfterClear | cat.go:33-56 | A following payload that starts with `=1` fails on the empty content and reads the first line otherwise. |
| Payload.ClearedFileBreaksReplay | cat.go:47 | After a file is emptied, the as-written replay of the next `=1` fails; under the corrected rule it reads back the empty line. |
| Replay.ReplayAllAppend | cat.go:23-60 | Replaying one more payload applies it to the result of the earlier ones, and an earlier failure stays the result. |
| Replay.ChainRoundTrip | cat.go:22-61 | Appending the diff from the replayed content to new content makes the chain replay to exactly the new content's lines. |
| Replay.CatFromReplaysChain | cat.go:23-60 | When no name before the last is the requested one and no commit is binary, `Cat`'s loop replays the payloads of the commits in order. |
| Replay.CatStopsAtId | cat.go:27-59 | Commits after the requested one never influence the result. |
| Replay.BinaryIdReplaysAll | cat.go:24-27 | Asking for a binary commit is the same as asking for a name not present: every diff commit is replayed. |
| Replay.GreatestIsMaximum | cat.go:72-77 | The latest commit is one of the names and no name is greater in byte order. |
| Replay.DiffOutranksBinary | cat.go:72-77 | A `d` name is greater than any `b` name, whatever their times. |
| Replay.ApplyDiff | cat.go:33-56 | The loop over one payload's lines computes `ApplyPayload` under the as-written rule, failing exactly where the payload does. |
| Replay.Cat | cat.go:11-62 | The method computes `CatIn`: a failed listing or read is an error; the replay starts from `[""]`, skips `b` commits, stops after the requested name, and the lines are joined with `\n`. Its meaning is given by the replay lemmas above. |
| Replay.LastCat | cat.go:64-80 | A failed listing or an empty folder is an error; otherwise `Cat` of the greatest name. |
| CommitIds.HashPartOfCommitId | diff.go:112-120 | The part after `+` of a commit name is the digest it was built from. |
| CommitIds.DigestHasNoPlus | commit.go:234-238 | A hex digest contains no `+`, `/` or newline, so a commit name splits at exactly one `+`. |
| CommitIds.LaterIdIsGreater | cat.go:72-77 | Of two diff commits with equally long times, the later one has the greater name. |
| CommitIds.ParseHistoryText | commit.go:193-199 | A history entry (line count, message, references) reads back as the same message and references. |
| Commit.SimpleCommit | commit.go:219-246 | Equal contents give "no changes" and write nothing; otherwise the diff payload is written at `d<ts>+<digest of the new content>`, and a failed write leaves the disk as it was. |
| Commit.EncodeDiffs | commit.go:224-232 | The loop builds exactly the payload `EncodeChanges` of the changes. |
| Commit.BinarySimpleCommit | commit.go:205-217 | The whole content is written at `b<ts>+<digest>`; a failed write changes nothing. |
| Commit.CommitIdShape | commit.go:234-238 | A commit name carries its digest after `+` and is binary exactly when built with `b`. |
| Commit.SimpleCommitReplays | commit.go:219-246 | A written diff commit reads back as its payload, and replaying that payload on the old content gives the new content. |
| Commit.BinaryCommitReadsBack | commit.go:205-217 | A written binary commit reads back as the content. |
| Commit.NewDiffIdOutranks | commit.go:234-238 | A new diff commit outranks every earlier commit of equally long time, so `LastCat` picks it. |
| Commit.GreatestIsDominating | cat.go:72-77 | A name greater than every other is the one `LastCat` picks. |
| Commit.KeyParentIsJoinedParent | rebuild.go:39-40 | The parent folder of a key computed by trimming the last component is the one obtained by splitting and re-joining. |
| Discovery.QueueTop | diff.go:37-50 | The top-level store folders are queued, one per entry of `.vc/keys`. |
| Discovery.ExpandFolder | diff.go:56-63 | A store folder without `.commits` has all of its entries queued beneath it. |
| Discovery.VisitFolder | diff.go:51-64 | Visiting a queued folder keeps the discovery invariant; an error means the store is broken. |
| Discovery.DiscoveryResult | diff.go:37-66 | At the end of the walk, every key found names a store folder with a `.commits` entry and no key above it, every such folder is found, and none twice. |
| Discovery.NotBroken | diff.go:37-66 | A walk that ran to its end shows that the store is not broken. |
| Discovery.DiscoverKeys | diff.go:37-66 | Succeeds exactly when the store is not broken, and then returns exactly the keys, each once. `commit.go:16-45` is the same walk. |
| Scan.ScanResult | diff.go:73-96 | The scan meets every file outside `.vc`, `.git` and `.commits` folders, each once, and spells each one as its key. |
| Staging.FindHash | diff.go:112-120 | The loop over the commit names computes `HashSeen`; see `HashSeenMeaning`. |
| Staging.HashSeenMeaning | diff.go:112-120 | When every name has a `+`, the digest is found exactly when some commit carries it. |
| Staging.LatestCommit | diff.go:137-142 | The loop computes the greatest commit name. |
| Staging.StageFile | diff.go:98-162 | The per-file decision `Decide`. Empty files are skipped. Binary content is staged unless some commit of the key carries its digest. Text is skipped when the latest commit carries its digest; otherwise it is staged with the content that commit replays to, or empty content when there is no commit. |
| Staging.DecideRecord | diff.go:98-162 | A staged record names its key and non-empty content; binary content yields a binary record, text an addition exactly when its old content, what the latest commit replays to, is empty, and a change otherwise. The old content is empty when the key has no commit yet, when it has only `b` commits, and when its last version is an emptied file. |
| Staging.CollectOk | diff.go:68-164 | Staging succeeds exactly when every file's decision succeeds. |
| Staging.CollectRecords | diff.go:68-164 | The records staged are exactly the decisions that staged something. |
| Staging.StageAllMeaning | diff.go:68-164 | Staging the met files succeeds exactly when every decision does, and a record is staged exactly when some file's decision stages it. |
| Staging.DeletedKeys | diff.go:170-180 | The loop computes one deletion record per known key that the scan did not meet. |
| Staging.DeletionsMeaning | diff.go:170-180 | A record is a deletion exactly when its key is known and not met, with empty contents; every such record prints as a deletion. |
| Staging.DeletedKeysExactly | diff.go:170-180 | A key gets a deletion record exactly when its file is no longer visible in the working tree. |
| Staging.ScanEntry | diff.go:80-163 | One entry keeps the scan invariant and the staged records; an error means some file's decision fails. |
| Staging.ScanFolder | diff.go:74-164 | One folder keeps the scan invariant; an error means some file fails. |
| Staging.ScanTree | diff.go:68-164 | When the scan succeeds, it met every visible file and staged exactly their decisions; otherwise some file fails. |
| Staging.DiffForCommit | diff.go:35-182 | The result is the records of the visible files in scan order, then one deletion per known key that was not met. A broken store is always an error, and any error comes from a broken store or a failing file. |
| Staging.PrintDiffs | diff.go:184-199 | One message per record: binary changed, added when the old content was empty and the new one not, deleted when the new content is empty, changed otherwise. |
| Committing.FullStageFile | commit.go:80-148 | The per-file step of `FullCommit` is `FullDecide`: binary content creates the commits folder when its digest is new; text creates the folder when it cannot be listed. A failure leaves the disk unchanged. |
| Committing.FullDecideTree | commit.go:100-118 | The per-file step changes the disk at most by creating the key's commits folder. |
| Committing.FullDecideFrame | commit.go:80-148 | The per-file step keeps the store usable and changes nothing outside `.vc`. |
| Committing.DecisionsAgree | commit.go:80-148 | For non-empty content, `FullCommit` stages the same record as `DiffForCommit`, unless creating the commits folder of a new binary file fails. |
| Committing.UnlistableCommitsFolder | commit.go:114-122 | A text file whose commits folder cannot be listed is staged as new. `DiffForCommit` does the same only when the folder is missing. |
| Committing.EmptyFileStaged | commit.go:113-148 | Unlike `DiffForCommit`, `FullCommit` stages an empty file with no earlier version, as an empty record. |
| Committing.FullStagedSnoc | commit.go:52-150 | Staging one more file either extends the staged records and threads the updated disk, or is the failure of the whole staging. |
| Committing.FullStageAllFrame | commit.go:52-150 | Staging all files keeps the store usable and changes nothing outside `.vc`, so later files read what was there at the start. |
| Committing.FullScanEntry | commit.go:58-149 | One entry keeps the scan invariant and the staged records over the disk as updated; an error is the staging failure at that file. |
| Committing.FullScanFile | commit.go:70-148 | One file's step extends the staged records or is the staging failure. |
| Committing.FullScanFolder | commit.go:53-150 | One folder keeps the scan invariant over the updated disk. |
| Committing.FullScanTree | commit.go:52-150 | The scan met every visible file of the starting disk, and the staged records and the final disk are those of `FullStageAll`; an error is its failure. |
| Committing.DeleteAllStops | commit.go:152-170 | The first failing move ends the deletions. |
| Committing.MoveDeletedKeys | commit.go:152-170 | The loop moves every known key that was not met to `.vc/deleted/<ts>/<key>`, in discovery order, and returns one reference per key; its first failure is the result. |
| Committing.DeleteAllRefs | commit.go:163-167 | The deletion references are one per deletion record of `DiffForCommit`, in the same order. |
| Committing.DeleteKeyMoves | commit.go:158-168 | After a move, the key's store folder is gone and its deleted copy exists. |
| Committing.CommitAllStops | commit.go:172-189 | The first failing commit ends the commits. |
| Committing.CommitStaged | commit.go:172-189 | The loop writes a binary or diff commit for every staged record, in order, and appends their references; its first failure is the result. |
| Committing.CommitAllRefs | commit.go:172-189 | The references are one per staged record, `<key>/<commit name>`. |
| Committing.CommitOneNoEqual | commit.go:219-222 | A text commit succeeds only for differing contents. |
| Committing.CommitAllNoEqual | commit.go:172-189 | After all commits succeed, no text record had equal contents. |
| Committing.FullCommit | commit.go:14-201 | Success means the store was not broken, the known keys and met files are exactly the store's and the working tree's, and the disk is `FullCommitIn`. A broken store fails with nothing written, and any other failure is `FullCommitIn`'s error. Whenever the store is not broken, the known keys are exactly the store's keys; after a failure, the files met are either exactly the working tree's visible files, or distinct visible files on which staging fails. |
| Committing.FullCommitHistory | commit.go:190-199 | A successful commit has at least one reference. Its history entry holds the message, the deletion references in discovery order, then one reference per staged record. |
| Committing.NothingToCommitExactly | commit.go:190-192 | The commit fails with "nothing to commit" exactly when there is neither a deletion nor a staged record. |
| Committing.FullCommitNoEqual | commit.go:172-199 | After a successful commit, no staged text record had equal contents. |
| Rebuilding.WalkNameParent | rebuild.go:39-40 | The parent spelled by splitting a key at `/` and re-joining all but the last part is the folder the walk came from. |
| Rebuilding.ResolveWalkName | rebuild.go:26-29 | The walk's spelling `.//a/b` of a store path names that path. |
| Rebuilding.ClassifyEntries | rebuild.go:19-31 | Every entry of a queued folder is a key if its first entry is `.commits`, and is queued otherwise. An entry that cannot be listed means the store is unusable for a rebuild. |
| Rebuilding.VisitFolder | rebuild.go:13-31 | One queued folder keeps the walk invariant; an error means the store is unusable. |
| Rebuilding.WalkNotBroken | rebuild.go:11-32 | A walk that ran to its end shows that neither the store nor any reached entry was unreadable. |
| Rebuilding.WalkResult | rebuild.go:11-32 | At the end, the keys are exactly the store folders whose first entry is `.commits` and which have no such folder above them, each found once. |
| Rebuilding.FindKeys | rebuild.go:11-32 | Succeeds exactly when the store is usable for a rebuild, and then returns exactly the keys, none of them twice. |
| Rebuilding.RestoreKeyMeaning | rebuild.go:34-43 | A key whose last version fails ends the rebuild with that error and changes nothing. Otherwise the key's file holds its last version, when its parent folders can be made and no folder stands in the way. Failures to make folders are ignored. |
| Rebuilding.RestoreAllStops | rebuild.go:34-43 | The first failing key ends the rebuild. |
| Rebuilding.RestoreAllOk | rebuild.go:34-43 | The rebuild of a list of keys reports no error exactly when each key's last version can be read once the earlier keys are written. |
| Rebuilding.RestoreKeyError | rebuild.go:35-38 | Writing back one key fails exactly when its last version cannot be rebuilt, and with that error. |
| Rebuilding.RestoreAllFirstError | rebuild.go:35-38 | A reported error is the last-version error of some key, all of whose predecessors were restored. |
| Rebuilding.RestoreKeys | rebuild.go:34-43 | The write-back loop computes `RestoreAll` of the keys on the disk. |
| Rebuilding.Rebuild | rebuild.go:9-45 | When the store is unusable, the rebuild fails with nothing written. Otherwise it found exactly the keys, each once, and the disk and the error are `RestoreAll` of them. |

## Left out

- `main.go` is not part of this model. It is a command-line front end and an
  older draft of the same engine.
- SHA-256 and its hex encoding are the parameter `hash`. Its results are
  64-character lowercase hex strings, and nothing else about it is assumed.
- The clock is the parameter `ts`. Time formatting of `<unix-seconds>` is
  `strconv`'s decimal spelling of a natural number.
- Console output (`fmt.Printf`) is not modelled. `PrintDiffs` returns its
  messages as strings, and the "skipping empty file" notice of
  `DiffForCommit` is dropped.
- Error messages are not modelled. Each error is a constructor that carries
  the failing kind, not the formatted text.
- Permission bits (`0755`, `0644`) are not modelled, and neither are file
  modes or symbolic links.
- Concurrent changes to the disk during a walk are not modelled. Each
  operation sees one tree.
- Go strings are sequences of `char`, standing for bytes. `IsBinary` looks
  for the character zero.
- A Go panic is modelled as an error result. This covers two cases:
  - an index out of range in `Cat` (`content[lineToAddInt-1]`, cat.go:47);
  - `strings.Split(name[1:], "+")[1]` on a commit name without a `+`
    (diff.go:115, diff.go:145, commit.go:90, commit.go:131), which the
    model reports as `MalformedCommitName`.
- `os.MkdirAll` on an existing folder succeeds without change, as in Go. The
  `os.IsExist` branches in `commit.go` therefore never fire.
- In `Cat`, `sort.StringSlice` only converts the slice and does not sort
  it. The names keep `os.ReadDir`'s order, which is already sorted by name.
  The model keeps listing order.
- Discovery.DiscoverKeys: states which keys are found and that none repeats,
  not the breadth-first order in which they are listed.
- Rebuilding.FindKeys: states which keys are found and that none repeats,
  not their order. The order matters only for which failing key is reported
  first, and `RestoreAllFirstError` covers that for whatever order is
  returned.
- Staging.ScanTree: the order in which files are met is a ghost output. It
  is characterised by the set of files met, not as a breadth-first order.
- Committing.FullScanTree: the order of the files met is a ghost output, as
  for `Staging.ScanTree`.
- Staging.DiffForCommit: on failure it states that the store is broken or
  that some file's decision fails, not which error is reported.
- Committing.FullCommit: after a failure past key discovery, it states the
  error, over the store's keys and the files the scan met, but not what the
  disk holds. The commits and moves made before the failure stay on disk.
- Renaming onto an existing path is always an error in `RenameIn`. POSIX
  `rename` would replace an existing file, or an empty folder when a folder
  is moved. In `FullCommit` this matters only when `.vc/deleted/<ts>/<key>`
  already exists, which the model reports as a failed move.
- `FullCommit` stages an empty untracked file as a record with two empty
  contents. `SimpleCommit` then fails with "no changes", so the whole
  commit fails. This is modelled as written; `EmptyFileStaged` and
  `CommitOneNoEqual` state the two halves.
- `Rebuild` queues a store entry unless its first listed entry is
  `.commits`. This is modelled as written. A key folder whose listing puts a
  name before `.commits` is treated as a folder.

## Findings

| source | as written | input that shows it | evidently intended | confidence | as-written member | corrected member |
|---|---|---|---|---|---|---|
| cat.go:49-54 | A `+` payload line with empty text appends nothing when replayed. The encoder writes exactly that line for an added empty line. | Old content `a`, new content `a\n\nb`: the payload is `=1\n+\n+b\n` and replays to `a\nb`. | An added empty line is replayed as an empty line, so that replaying a diff gives back the new content. | not executed | Payload.BlankLineDropped | Payload.ReplayRoundTrip |
| cat.go:47-54 | Once a file has been emptied, its last version replays to no lines at all. A later `=1` then indexes an empty slice. | Content `a`, then empty, then `\nx`: the second payload `+\n` replays to no lines, and the third payload `=1\n+x\n` fails at `=1`. | An emptied file replays to one empty line, and `=1` reads that line back. | not executed | Payload.ClearedFileBreaksReplay | Payload.ReplayRoundTrip |

In both rows the corrected rule is the value `Kept` of the rule parameter
that `Payload.ApplyPayload`, `Replay.ReplayAll` and the round-trip lemmas
take. For `Kept`, `Payload.ReplayRoundTrip` and `Replay.ChainRoundTrip`
need no condition on empty lines. `Replay.Cat` keeps the rule as written
(`Dropped`), so that its model stays the program's behaviour.
