# File modifier: a verified model of one processing pass

The program watches the current directory for files whose names match a mask. For each
matching file it applies a repeating 8-byte XOR key to the file's bytes. It writes the result to
`<outputPath>/<fileName>`. When that name is taken and overwriting is off, it uses the first free
`<outputPath>/<fileName>.<k>`, k = 1, 2, …. It removes the input if the delete option is on. It
runs either once (single-run mode) or on every tick of a poll timer.

This project models `processFiles`, the function that does one such pass, over an abstract
filesystem. It has four modules:

- `Transform` (transform.dfy) holds the key as eight bytes. `Xored` is the transform as a
  function. `XorInPlace` is the in-place loop over the byte buffer. `KeyOfWord` gives the
  little-endian memory image of the 64-bit key value.
- `Naming` (naming.dfy) covers output naming. `Decimal` gives `QString::number` for non-negative
  counters. `Candidate` and `Suffixed` build names. `ResolvedName` is the resolution as a
  function, and `ResolveOutputName` is the probing `while` loop. The existing paths are a finite
  set, and the loop's termination is argued by pigeonhole. The first choice and the taken probes
  are all distinct existing paths, so the chosen probe index k is at most |existing| and the
  loop's counter never exceeds |existing| + 1.
- `Storage` (storage.dfy) holds `DiskState`, a value made of the file table (path to bytes) and
  three fixed sets of paths. Those sets are the paths that cannot be opened for reading, cannot
  be opened for writing, and cannot be removed. The class `FileStore` is the filesystem object:
  its file table changes in place through `Read`, `Write` and `Remove`.
- `Processing` (processing.dfy) holds `Step`, one iteration of the loop over the listed files, and
  `Run`, the whole pass as a fold over the list in order. `ProcessFiles` is the loop itself, proved
  equal to `Run`. The lemmas about `Run` state the batch's guarantees. A failing file is isolated.
  An output is resolved against the files as they are at that moment, so outputs written earlier
  in the same pass count. Existing files are never clobbered without overwrite. Inputs are removed
  only after a successful write. Each output holds the transform of its input.

The code only logs per-file failures. The model adds a per-file `Outcome` (succeeded, unreadable,
unwritable) so that the two `continue` branches can be stated.

The bytes of the 64-bit key are read in memory order (main.cpp:46). On a little-endian host, key
`0x00000000000000FF` therefore changes only byte 0 of each 8-byte block, so `[0x01, 0x02, 0x03]`
becomes `[0xFE, 0x02, 0x03]` (`LowByteKeyExample`). The code never checks what `write` returns
(main.cpp:69), so a source is removed once its output was opened for writing; the model takes
such a write to store the whole buffer.

## Model

| member | source | states |
|---|---|---|
| Transform.XoredAt | main.cpp:45-47 | the transformed buffer has the input's length, and byte i is input byte i XOR key byte i mod 8 |
| Transform.XoredInvolution | main.cpp:45-47 | transforming twice with the same key gives back the original buffer |
| Transform.XoredZeroKey | main.cpp:45-47 | the all-zero key leaves every buffer unchanged |
| Transform.DefaultKeyIsZero | main.cpp:108 | the default key value 0 gives the all-zero key bytes, so by default a file is copied unchanged |
| Transform.KeyWordRoundTrip | main.cpp:46 | reading the 64-bit key as its eight little-endian memory bytes and back loses nothing, both ways |
| Transform.LowByteKeyExample | main.cpp:46 | key 0xFF turns bytes 01 02 03 into FE 02 03 (only byte 0 of the block changes), and back |
| Transform.XorInPlace | main.cpp:45-47 | after the loop the buffer holds the transform of its old contents |
| Naming.Decimal | main.cpp:56 | the counter's text is non-empty, all decimal digits, with a leading '0' exactly for 0 |
| Naming.DecimalRoundTrip | main.cpp:56 | the counter's decimal text reads back as the counter, so different counters give different texts |
| Naming.SuffixedInjective | main.cpp:56 | two probe names `<name>.<a>` and `<name>.<b>` are equal only when a = b |
| Naming.CandidateDistinct | main.cpp:50 | different file names give different first-choice output names in the same output directory |
| Naming.CandidateHasSlash | main.cpp:50 | a first-choice output name contains '/' and is longer than the file name |
| Naming.ProbesMembers | main.cpp:54-58 | `<name>.k` is among the first n probes exactly when 1 <= k <= n |
| Naming.ProbesCount | main.cpp:54-58 | the first n probes are n distinct names |
| Naming.Pigeonhole | main.cpp:54-58 | if probes 1..n all exist, at least n paths exist (bounds the probing loop) |
| Naming.PigeonholeWithBase | main.cpp:53-58 | if the first choice and probes 1..n all exist, at least n + 1 paths exist (the probe names differ from the first choice) |
| Naming.FirstFree | main.cpp:54-58 | the probe counter found is free, every smaller probe from 1 exists, and it is at most one more than the number of existing paths |
| Naming.FirstFreeUnique | main.cpp:54-58 | only the least free counter has all smaller probes taken, so the loop's answer is determined |
| Naming.ResolvedName | main.cpp:50-59 | with overwrite on, or a free first choice, the name is the first choice; with overwrite off, the name never exists; the first choice is always a prefix of it |
| Naming.ResolvedNameProbes | main.cpp:53-58 | when the first choice exists and overwrite is off, the name is `<name>.k` for some 1 <= k <= existing that is free, with probes 1..k-1 all existing |
| Naming.ResolvedNameHasSlash | main.cpp:50-56 | every resolved output name contains '/' and is longer than the input file name |
| Naming.ProbeExample | main.cpp:50-59 | foo.txt taken gives foo.txt.1; foo.txt and foo.txt.1 taken gives foo.txt.2; with overwrite it is foo.txt |
| Naming.ResolveOutputName | main.cpp:50-59 | the probing loop terminates, with its counter at most existing + 1, and returns the resolved name |
| Storage.FileStore.Read | main.cpp:32-42 | the read succeeds exactly when the file exists and is readable, and then yields its bytes |
| Storage.FileStore.Write | main.cpp:62-70 | the open succeeds exactly when the path is writable; then the path holds the data, otherwise nothing changes |
| Storage.FileStore.Remove | main.cpp:73-75 | a removable path is gone afterwards and no other path changes |
| Processing.Step | main.cpp:31-76 | an unreadable or unwritable file leaves the filesystem unchanged; on success the output holds the transformed input, the input is removed exactly when deletion is on and it is removable, and nothing else changes |
| Processing.Run | main.cpp:31-76 | every listed file gets exactly one report entry, and the permission sets are untouched |
| Processing.RunAppend | main.cpp:31-76 | running two lists in turn equals running their concatenation |
| Processing.RunAt | main.cpp:31-76 | entry i of the report is file i's step on the state that the files before it left |
| Processing.RunSplit | main.cpp:31-76 | the final state is the rest of the list run on the state after file i |
| Processing.RunLeavesUnlisted | main.cpp:31-76 | a bare path that is not listed is neither created, changed nor removed |
| Processing.RunBareOnlyShrinks | main.cpp:31-76 | the pass never writes a bare path: a bare path present afterwards was present before with the same bytes |
| Processing.RunKeepsOutput | main.cpp:50-76 | an existing output path keeps its bytes for the rest of the pass, unless overwriting names it as a later file's first choice |
| Processing.RunOutcomeAt | main.cpp:35-66 | file i is reported unreadable exactly when it could not be read before the pass; otherwise its output is resolved against the state earlier files left, and it is reported unwritable exactly when that name is unwritable |
| Processing.InputFate | main.cpp:35-75 | a listed input is gone afterwards exactly when it was missing, or it was processed successfully with deletion on and is removable; otherwise its bytes are unchanged |
| Processing.OutputHoldsTransform | main.cpp:41-70 | the output of a successful file is still present at the end and holds the transform of the input; transforming it again restores the input |
| Processing.RunNoClobber | main.cpp:50-59 | with overwrite off, every file present before and after the pass keeps its bytes |
| Processing.RunRemovesOnlyProcessedInputs | main.cpp:69-75 | a file disappears only when deletion is on, it is removable, and it is a listed file whose output was written |
| Processing.RunWritesOnlyReportedOutputs | main.cpp:61-70 | a file is created or changed only as the reported output of a successful file |
| Processing.ProcessFiles | main.cpp:21-82 | the loop leaves the filesystem and report that `Run` describes; an empty list changes nothing; the quit request is made exactly in single-run mode with a non-empty list |

## Left out

- Discovery: the glob match and directory listing (`QDir::entryList`, main.cpp:24) are not modelled. The matched names are an input list. The lemmas that need it assume these names are bare (no '/') and, where stated, distinct, as a listing of one directory gives them.
- Command-line parsing, the required-argument check and output-directory creation (main.cpp:84-140) are not modelled. The settings are a `Config` value instead of globals.
- Hex parsing of the key (`toULongLong(..., 16)`, main.cpp:124), including its silent zero on error, is not modelled. The key enters the model as its eight bytes or as a 64-bit value (`KeyOfWord`).
- Host byte order: `KeyOfWord` assumes a little-endian host. On a big-endian host the bytes come in the reverse order.
- The poll timer and event loop (main.cpp:147-152) are not modelled. Neither is the effect of `QCoreApplication::quit`. `ProcessFiles` only reports whether the quit request is reached. Single-run mode calls the pass once and exits with 0 whatever happened (main.cpp:143-145). That needs no model beyond one call.
- Logging (`qDebug`) is not modelled.
- Races: another process could change the directory between the existence checks and the open (main.cpp:53-63). The model assumes a single writer.
- Storage.FileStore.Write: a short or failed `write` after a successful open is not modelled, because the code never checks it (main.cpp:69). The whole buffer is taken to be written.
- Storage.FileStore.Remove: the code ignores whether `remove` succeeded (main.cpp:74). The model has removal of an undeletable path leave it in place, and reports nothing about that.
- Paths are compared as strings. Two spellings of one file (for example an output directory "." making "./a" the same file as "a") and directories are not modelled. So `QFile::exists` returning true for a directory is left out.
- Naming.ResolveOutputName: the counter is an unbounded natural number. The code's `int` counter could only overflow after more than 2^31 - 1 taken names, which the pigeonhole bound rules out for any realistic directory.
- Reading a file is modelled as all-or-nothing (`open` then `readAll`). An I/O error in the middle of `readAll` is not modelled.
