# FileReader core in Dafny

FileReader is a Qt desktop tool. It picks every file of a folder whose suffix
matches a mask and XORs the file with a key, in 4 MiB blocks. It writes the
result under an output name. That name either overwrites the input or gets a
counter (`base_1.ext`, `base_2.ext`, …). Afterwards it may delete the input.
This project models the two pieces of logic that do the work:

- **The per-file worker, `nLocalHandler::LocalHandler`** (`local_handler.dfy`).
  It is a class. Its `paused`/`stopped` flags are fields that `Stop`, `Pause`
  and `Resume` update. `Run` is a method whose outside world is given as
  parameters:
  - whether the input opens, and the input's bytes;
  - the names already in the output folder;
  - whether the output opens;
  - the block index at which the stop flag is first seen set;
  - whether removing the input succeeds.

  `Run` returns how it ended, the bytes it wrote, its `processed` counter and
  the signals it emitted. Its `ensures` ties the result to the specification
  function `RunOutcome`, and the lemmas beside `RunOutcome` state what the
  worker promises:
  - the output name is the first free candidate;
  - a completed run writes the whole-file XOR stream, and running twice gives
    the input back;
  - a stopped run writes exactly the transform of the blocks read before the
    stop;
  - `finished` is the last signal of every run that opened both files;
  - a failed removal is logged only after a full pass with deletion requested.

  Two inner loops are methods with loop invariants over pure specification
  functions. The naming loop is `OutputName`, specified by `FirstFree`. The
  block loop is `CopyBlocks`, specified by `Blockwise`. The in-place XOR of one
  block is `XorInPlace` on an `array<bv8>`.
- **The coordinator, `nGeneralHandler::GeneralHandler`**
  (`general_handler.dfy`). It is a class whose fields are the stored
  parameters, the error list, the mask tokens and the list of workers.
  - `GetInputParams` validates the parameters into the error list, which is
    never cleared. The split of the mask on runs of `,`, `;` and space is the
    pure function `SplitMask`, with its round trip and token lemmas.
  - `FindFilesByMask` appends one worker per listed entry whose suffix is a
    token, in listing order. This is stated through the pure selection
    `Selected`.
  - `Start` chains the two.
  - `Pause`, `Resume` and `Stop` set the flags of every worker.

Supporting modules:
- `qt_text.dfy`: `QString::length` in UTF-16 code units, and `QString::toUtf8`.
- `file_names.dfy`: `QFileInfo::suffix` and `completeBaseName`, plus
  `QString::number` on the counter.
- `block_transform.dfy`: the block size and the per-block XOR. Its lemmas show
  that the block-wise transform equals one XOR stream over the whole file,
  because 4 MiB is a multiple of the 8-byte key period, and that the transform
  undoes itself.
- `scenarios.dfy`: restates the expectations of `tests/tests.cpp` against this
  model.

The file system, the thread pool and the Qt signals are replaced by plain
values. Folder existence and file opening become booleans. A folder listing is
a `seq<string>` in listing order. A folder's contents are a `set<string>`. A
file is a `seq<bv8>`. Signals become an appended event list.

### Where the code departs from its tests and its design

The model follows the code as written. `tests/tests.cpp` targets another
version of the API: a 7-argument worker constructor, a `findFiles` signal and
a `startTasks` hook, none of which exist in the modelled code. Where the tests
and the code disagree, the scenario states what the code does:

- `getInputParams` returns true when it found no error (generalhandler.cpp:35-38).
  `ValidParameters` expects false and `InvalidKey` expects true. The scenarios
  of the same names prove the opposite.
- `start` goes on to discovery only when `getInputParams` returns false, that
  is, only when there were errors (generalhandler.cpp:51-55). With valid
  parameters no worker is created. With a 3-character key one is created, and
  its key is too short for the transform. That is `StartRunsOnlyOnErrors`.
- The mask tokens are compared literally with the suffix (generalhandler.cpp:86).
  A token such as `*.txt` or `file3.log` holds a dot, and a suffix never does,
  so `FindAllFilesByMask` selects no file where the test expects three.
- Discovery lists `dirOutputFolder`, not the input folder (generalhandler.cpp:85).
- The error list is never cleared. After one failed call, every later call
  returns false (`ErrorsAreSticky`).
- `processed` grows by a whole block per iteration, not by the bytes read
  (localhandler.cpp:59). After a full pass it is the input size rounded up to a
  whole number of blocks.
- In `AddCounter` mode a name without a dot still gets the dot: `README`
  becomes `README_1.` (localhandler.cpp:25).
- `finished` is not emitted when the input or the output fails to open
  (localhandler.cpp:14-19, 31-36).
- The pause wait is meant to end when `paused` clears or `stopped` is set.
  The loop at localhandler.cpp:49-51 reads only `paused`, and `stop` does not
  resume the workers (generalhandler.cpp:64-68). So a worker that is paused
  and then stopped never leaves the wait and never emits `finished`. A worker
  stopped while paused and later resumed still reads and writes one more block
  before its stop check sees the flag.
- `CorrectFileConversion` uses `Overwrite` with the input inside the output
  folder, so the output is the input file itself. Opening it for writing
  truncates the input, and the code as written then writes nothing. The round
  trip that scenario proves holds only under the assumption, listed under
  "Left out", that the input is read before the output is opened. Every
  `Overwrite` worker the coordinator starts is in this situation, because
  discovery lists the output folder (generalhandler.cpp:85) and the worker
  writes back there under the same name.

## Model

| member | source | states |
|---|---|---|
| QtText.Utf16Length | generalhandler.cpp:26-28 | `QString::length` counts each character as one or two UTF-16 code units, so the length lies between the character count and twice it |
| QtText.Utf8 | localhandler.cpp:41 | `QString::toUtf8`, each character as one to four bytes; its meaning is stated by `Utf8CoversUtf16`, `Utf8FirstAscii` and `Utf8LengthOfAscii` |
| QtText.Utf16LengthOfBmp | generalhandler.cpp:26-28 | A key without characters above U+FFFF has as many code units as characters |
| QtText.Utf8CoversUtf16 | localhandler.cpp:41 | `toUtf8` yields at least one byte per UTF-16 code unit, so a key of 18 code units encodes to at least 18 bytes |
| QtText.Utf8FirstAscii | localhandler.cpp:41 | An ASCII first character of the key is the first key byte |
| QtText.Utf8LengthOfAscii | localhandler.cpp:41 | An ASCII key encodes to one byte per character |
| FileNames.LastDot | localhandler.cpp:25 | The index found is a dot and no dot follows it; -1 means the name has no dot |
| FileNames.FileInfo.Suffix | generalhandler.cpp:86 | `QFileInfo::suffix` holds no dot, and it is empty for a name without a dot |
| FileNames.FileInfo.CompleteBaseName | localhandler.cpp:25 | `completeBaseName` is the whole name without a dot; otherwise the name is the base, a dot and the suffix |
| FileNames.DottedName | localhandler.cpp:25 | `base.ext`, where ext has no dot, splits back into exactly that base and that suffix |
| FileNames.DigitValue | localhandler.cpp:25 | Reading a digit character back gives a digit whose character it is |
| FileNames.NumberString | localhandler.cpp:25 | `QString::number(counter)` is a non-empty string of decimal digits |
| FileNames.DecimalRoundTrip | localhandler.cpp:25 | Reading the numeral of `n` back gives `n` |
| FileNames.NumberStringInjective | localhandler.cpp:25 | Different counters give different numerals |
| BlockTransform.Xor | localhandler.cpp:54-56 | XORing each byte with key byte `j mod 8` keeps the length |
| BlockTransform.LastBlockStart | localhandler.cpp:53 | The last block of a non-empty stream starts at a block boundary, less than one block before the end |
| BlockTransform.Blockwise | localhandler.cpp:43-58 | Transforming block by block, with the key index restarting at each block, keeps the length |
| BlockTransform.BlockStartsAreKeyAligned | localhandler.h:29 | Every block boundary is a multiple of the 8-byte key period |
| BlockTransform.BlockwiseExtend | localhandler.cpp:53-58 | The output of a stream whose last block starts at `p` is the output of the first `p` bytes followed by that block's XOR |
| BlockTransform.BlockwiseStep | localhandler.cpp:53-58 | Reading one more block from a boundary appends exactly that block's XOR to the output |
| BlockTransform.XorConcat | localhandler.cpp:55 | Two XOR streams joined at a key-aligned offset are one XOR stream |
| BlockTransform.BlockwiseIsXor | localhandler.cpp:43-58 | The block-wise transform equals the whole-file map `out[i] = in[i] xor key[i mod 8]` |
| BlockTransform.XorInvolution | localhandler.cpp:55 | XORing twice with the same key restores the bytes |
| BlockTransform.BlockwiseRoundTrip | localhandler.cpp:43-58 | Transforming a file twice with the same key gives back the original bytes |
| BlockTransform.BlockwisePrefix | localhandler.cpp:43-58 | The transform of a prefix is the prefix of the transform |
| LocalHandlers.CandidateName | localhandler.cpp:25 | Candidate `n` of the naming loop; `CandidateShape`, `CandidateLonger` and `CandidatesDistinct` state its form and that candidates never repeat |
| LocalHandlers.CandidateLonger | localhandler.cpp:25 | Every numbered candidate is longer than the input's own name |
| LocalHandlers.CandidateShape | localhandler.cpp:25 | Candidate `n` is the counter's numeral between `completeBaseName + "_"` and `"." + suffix` |
| LocalHandlers.MiddleEqual | localhandler.cpp:25 | Two candidates with the same head and tail have the same numeral |
| LocalHandlers.CandidatesDistinct | localhandler.cpp:23-27 | Different counters give different candidate names, so the probe never revisits a name |
| LocalHandlers.NextCandidateIsNew | localhandler.cpp:23-27 | Candidate `n` is none of the candidates probed before it |
| LocalHandlers.NextCandidateSkipsEarlier | localhandler.cpp:23-27 | A later candidate is none of those below an earlier index |
| LocalHandlers.CandidatesBelowMembers | localhandler.cpp:23-27 | The probed set below `n` holds every candidate `0 .. n-1` |
| LocalHandlers.ProbeShrinks | localhandler.cpp:24 | Each taken name found leaves fewer taken names to probe, so the loop ends |
| LocalHandlers.FirstFreeUnique | localhandler.cpp:23-27 | At most one candidate is free while all earlier ones are taken |
| LocalHandlers.FirstFreeFrom | localhandler.cpp:23-27 | From a point where all earlier candidates are taken, the probe reaches a free candidate whose predecessors are all taken |
| LocalHandlers.FirstFree | localhandler.cpp:23-27 | The index of the first free candidate; `FirstFreeIff` states that it is exactly the candidate that is free while all earlier ones are taken |
| LocalHandlers.OutputNameFor | localhandler.cpp:21-28 | The output name `run` picks; `OutputNameForIsFree` states it is new to the folder in `AddCounter` mode and the input name in `Overwrite` mode |
| LocalHandlers.ProbeStep | localhandler.cpp:24-26 | A taken candidate moves the probe to the next one, with fewer names left and the same final answer |
| LocalHandlers.FirstFreeIff | localhandler.cpp:23-27 | `FirstFree` is exactly the candidate that is free while every candidate before it is taken |
| LocalHandlers.OutputNameForIsFree | localhandler.cpp:21-28 | In `AddCounter` mode the chosen name is not in the folder; in `Overwrite` mode it is the input's own name, with no probe |
| LocalHandlers.BlockMultiples | localhandler.cpp:59 | `processed` after `k` blocks is a non-negative multiple of the block size, one block more than after `k-1` |
| LocalHandlers.BlocksToCoverUnique | localhandler.cpp:59 | A whole number of blocks that first reaches the file size is `ceil(size / blockSize)` blocks |
| LocalHandlers.BlocksToCoverBounds | localhandler.cpp:59 | `ceil(size / blockSize)` blocks reach the size, and overshoot it by less than one block |
| LocalHandlers.StatusTrailShape | localhandler.cpp:59-60 | The loop emits one `processStatus` per block, and block `i`'s counter is `(i+1) * blockSize` |
| LocalHandlers.RunOutcome | localhandler.cpp:12-69 | What `run` yields for given inputs; `FinishedIffOpened`, `RemoveFailureLogged`, `CompletedRunTransformsAll`, `StoppedRunWritesPrefix` and `RunRoundTrip` state its meaning |
| LocalHandlers.StatusTrailOnlyStatus | localhandler.cpp:43-61 | The block loop emits neither `finished` nor a log message |
| LocalHandlers.FinishedIffOpened | localhandler.cpp:12-69 | `finished` is emitted exactly when both files opened, and then it is the last signal and emitted once |
| LocalHandlers.RemoveFailureLogged | localhandler.cpp:63-67 | The removal failure is logged exactly when the pass completed, deletion was requested and removal failed |
| LocalHandlers.CompletedRunTransformsAll | localhandler.cpp:43-68 | A run completes exactly when both files open and the stop comes after the last block. It then writes the whole-file XOR under the first free name, attempts removal exactly when `isNeedDelete` is set, and ends with `processed` equal to the size rounded up to whole blocks |
| LocalHandlers.StoppedRunWritesPrefix | localhandler.cpp:43-47 | A run stops early exactly when both files open and the stop comes before the last block. It then writes exactly the transform of the blocks read before the stop, and never reaches removal |
| LocalHandlers.RunRoundTrip | localhandler.cpp:43-61 | Running the worker on its own completed output with the same key gives back the original bytes |
| LocalHandlers.CopyStep | localhandler.cpp:43-61 | One more block-loop iteration keeps the loop's invariant: output, counter, read position and signals in step |
| LocalHandlers.CopyDone | localhandler.cpp:43-61 | At the end of the input, the whole file is transformed and `processed` is a whole number of blocks just covering it |
| LocalHandlers.XorInPlace | localhandler.cpp:54-56 | Byte `i` of the block becomes `block[i] xor key[i mod 8]`, in place |
| LocalHandlers.ReadBlock | localhandler.cpp:53-56 | The block read from the input comes back XORed with the key |
| LocalHandlers.LocalHandler.constructor | localhandler.cpp:6-10 | A worker stores its parameters and starts neither paused nor stopped |
| LocalHandlers.LocalHandler.Stop | localhandler.cpp:71-73 | `stop` sets `stopped` and changes nothing else |
| LocalHandlers.LocalHandler.Pause | localhandler.cpp:75-77 | `pause` sets `paused` and changes nothing else |
| LocalHandlers.LocalHandler.Resume | localhandler.cpp:79-81 | `resume` clears `paused` and changes nothing else |
| LocalHandlers.LocalHandler.OutputName | localhandler.cpp:21-28 | The naming loop returns the first free candidate, which in `AddCounter` mode is not in the folder |
| LocalHandlers.LocalHandler.CopyBlocks | localhandler.cpp:43-61 | The block loop stops exactly when the stop flag is seen before the last block, and then holds the transform of the blocks read. Otherwise it holds the whole-file transform, with `processed` rounded up to whole blocks and one status signal per block |
| LocalHandlers.LocalHandler.Run | localhandler.cpp:12-69 | `run` returns exactly `RunOutcome` of its inputs: the open failures, the chosen name, the bytes written, `processed`, the removal attempt and the signal order |
| GeneralHandlers.SplitFrom | generalhandler.cpp:30 | The split as a scan with an open token; `SplitFromTokens`, `SplitFromConcat`, `SplitFromToken` and `SplitSkipsSeparators` state its meaning |
| GeneralHandlers.RemoveSeparators | generalhandler.cpp:30 | The mask without separators holds no separator |
| GeneralHandlers.SplitFromTokens | generalhandler.cpp:30 | Every token of the split is non-empty and holds no `,`, `;` or space |
| GeneralHandlers.SplitFromConcat | generalhandler.cpp:30 | The tokens laid end to end are the input without its separators, in input order |
| GeneralHandlers.SplitMask | generalhandler.cpp:30 | The mask split yields non-empty, separator-free tokens that laid end to end give the mask without separators |
| GeneralHandlers.MaskEmptyIff | generalhandler.cpp:30-31 | The split is empty exactly when the mask holds nothing but separators |
| GeneralHandlers.SplitFromToken | generalhandler.cpp:30 | Characters without separators extend the token being read |
| GeneralHandlers.SplitSkipsSeparators | generalhandler.cpp:30 | A run of separators of any length produces no empty token |
| GeneralHandlers.SplitSingleToken | generalhandler.cpp:30 | A mask that is one token splits into that token |
| GeneralHandlers.SplitLeadingToken | generalhandler.cpp:30 | A token followed by separators splits off as the first token |
| GeneralHandlers.SplitTwoTokens | generalhandler.cpp:30 | Two tokens with separators between them split into those two tokens, in order |
| GeneralHandlers.SplitJoinRoundTrip | generalhandler.cpp:30 | Splitting tokens joined by any separator gives back the tokens |
| GeneralHandlers.ValidationErrors | generalhandler.cpp:18-33 | Each error is recorded exactly when its check fails: missing output folder, missing input folder, key length other than 18, no mask token |
| GeneralHandlers.Checked | generalhandler.cpp:18-33 | The error list after the four checks; `CheckedExtends` states it is the old list followed by `ValidationErrors`, whose iffs and order are proved |
| GeneralHandlers.AppendIfPrefix | generalhandler.cpp:19 | Appending an error commutes with the errors already in the list |
| GeneralHandlers.CheckedExtends | generalhandler.cpp:18-33 | The checks only append: the list afterwards is the old list followed by this call's errors |
| GeneralHandlers.ValidationErrorsInCheckOrder | generalhandler.cpp:18-33 | One call appends at most four errors, in the order OutputFolder, InputFolder, Key, Mask, each at most once |
| GeneralHandlers.MaskErrorIff | generalhandler.cpp:30-33 | A Mask error is recorded exactly when the mask holds nothing but separators |
| GeneralHandlers.AcceptedKeyCoversTransform | generalhandler.cpp:26-28 | A key that passes the length check encodes to at least the eight bytes the transform reads |
| GeneralHandlers.Matches | generalhandler.cpp:86 | An entry matches when its suffix is literally one of the tokens; `DottedTokensSelectNothing` states that dotted tokens never match |
| GeneralHandlers.Selected | generalhandler.cpp:85-90 | The entries discovery starts workers for; `SelectedIff`, `SelectedAppend` and `SelectedStep` state that it holds exactly the matching entries, in listing order |
| GeneralHandlers.SelectedIff | generalhandler.cpp:85-86 | Exactly the listed entries whose suffix is a token are selected, and never more than listed |
| GeneralHandlers.SelectedAppend | generalhandler.cpp:85-90 | Selection keeps listing order: it distributes over concatenation of listings |
| GeneralHandlers.SelectedStep | generalhandler.cpp:85-90 | One more listed entry adds itself to the selection exactly when its suffix is a token |
| GeneralHandlers.DottedTokensSelectNothing | generalhandler.cpp:86 | Tokens that all hold a dot select nothing, since a suffix has no dot |
| GeneralHandlers.GeneralHandler.constructor | generalhandler.cpp:5-8 | The coordinator starts with an empty error list, no workers and no tokens |
| GeneralHandlers.GeneralHandler.TasksForPush | generalhandler.cpp:79 | Pushing a worker for one more selected name keeps workers and names in step |
| GeneralHandlers.GeneralHandler.GetInputParams | generalhandler.cpp:10-45 | Stores both folders and the tokens. Appends this call's errors to the old list. Returns true exactly when the whole list is empty, and stores key, delete flag, conflict and mode only when it returns false |
| GeneralHandlers.GeneralHandler.Validate | generalhandler.cpp:14-33 | Stores both folders and the tokens, and appends exactly this call's errors |
| GeneralHandlers.GeneralHandler.AppendErrors | generalhandler.cpp:18-33 | The four checks, in their order, each appending its error when it fails |
| GeneralHandlers.GeneralHandler.StartTask | generalhandler.cpp:76-81 | One new, unpaused and unstopped worker for the file, with the stored parameters, is pushed onto `tasks` |
| GeneralHandlers.GeneralHandler.FindFilesByMask | generalhandler.cpp:83-91 | `tasks` becomes the old list followed by one new worker per output-folder entry whose suffix is a token, in listing order |
| GeneralHandlers.GeneralHandler.Start | generalhandler.cpp:47-56 | Validation first. When it records no error, no worker is created and key, delete flag, conflict and mode keep their old values. Otherwise they are stored and one worker is appended per selected entry, in listing order |
| GeneralHandlers.GeneralHandler.Pause | generalhandler.cpp:58-62 | Every worker's `paused` is set and its `stopped` unchanged |
| GeneralHandlers.GeneralHandler.Stop | generalhandler.cpp:64-68 | Every worker's `stopped` is set and its `paused` unchanged |
| GeneralHandlers.GeneralHandler.Resume | generalhandler.cpp:70-74 | Every worker's `paused` is cleared and its `stopped` unchanged |
| Scenarios.TestKeyValid | tests/tests.cpp:23 | The tests' key `0x1234567890ABCDEF` has length 18 and starts with `0` |
| Scenarios.InvalidKeyLength | tests/tests.cpp:69 | The key `0x1234567890` has length 12 |
| Scenarios.ShortKeyLengths | generalhandler.cpp:26 | The key `abc` has length 3 and encodes to 3 bytes |
| Scenarios.StarTxtMask | tests/tests.cpp:52 | The mask `*.txt` is one token |
| Scenarios.TestMaskSplit | tests/tests.cpp:113 | The mask `*.txt; file3.log` splits into `*.txt` and `file3.log` |
| Scenarios.FileTxtCandidates | tests/tests.cpp:171-177 | The candidates for `file.txt` are `file.txt`, then `file_1.txt` |
| Scenarios.ATxtCandidates | localhandler.cpp:25 | `a.txt` has suffix `txt` and candidates `a.txt`, `a_1.txt`, `a_2.txt` |
| Scenarios.ReadmeCandidates | localhandler.cpp:25 | The first numbered candidate for `README` is `README_1.` |
| Scenarios.FirstByteChanges | tests/tests.cpp:149 | A key whose first byte is not zero changes the input |
| Scenarios.TestMaskSelectsNothing | tests/tests.cpp:113-126 | The test's mask selects no entry, whatever the listing |
| Scenarios.OneBlockCovers | localhandler.cpp:59 | A non-empty input of at most one block is covered by one block |
| Scenarios.CorrectFileConversion | tests/tests.cpp:129-157 | The first run writes something other than the input, and the second run, on that output, writes the input back |
| Scenarios.FileTxtTaken | tests/tests.cpp:171-178 | With `file.txt` present the counter chooses `file_1.txt` |
| Scenarios.DeleteRunOutcome | tests/tests.cpp:159-179 | The run of the deletion test writes `file_1.txt`, attempts removal, and emits one status signal and `finished` |
| Scenarios.DeleteFileAfterConversion | tests/tests.cpp:159-179 | A worker with `AddCounter` and deletion writes `file_1.txt` and attempts to remove the input |
| Scenarios.CounterSkipsTakenNames | localhandler.cpp:23-27 | With `a.txt` and `a_1.txt` present, the name is `a_2.txt` |
| Scenarios.CounterOnNameWithoutSuffix | localhandler.cpp:25 | `README` with `README` present becomes `README_1.` |
| Scenarios.ValidParameters | tests/tests.cpp:35-56 | Valid parameters record no error and return true |
| Scenarios.InvalidKey | tests/tests.cpp:58-79 | A 12-character key records only a Key error and returns false |
| Scenarios.FindAllFilesByMask | tests/tests.cpp:81-127 | The test's mask gives two tokens and creates no worker |
| Scenarios.ErrorsAreSticky | generalhandler.cpp:35-38 | After a call that records an error, a later call with valid parameters still returns false |
| Scenarios.StartRunsOnlyOnErrors | generalhandler.cpp:51-55 | `start` with valid parameters creates no worker; with a 3-character key it creates one whose key is too short for the transform |
| Scenarios.StopBeforeFirstBlock | localhandler.cpp:43-47 | A worker stopped before its first block writes nothing and emits only `finished` |

## Left out

- Threads, the thread pool and the atomics. The worker's `run` is modelled on its own, and the stop flag is an input: the first block index at which the stop check reads it set.
- The pause spin (`msleep(100)` while `paused`, localhandler.cpp:49-51) is not modelled. A resumed worker writes what an unpaused one writes, with the stop seen at a later block. A worker that stays paused, including one paused and then stopped, never ends, and `LocalHandlers.LocalHandler.Run` does not describe it.
- Worker lifetime. `QRunnable::autoDelete` is true by default, so the pool deletes each worker when its `run` returns, while `tasks` still holds it through a `std::shared_ptr` (generalhandler.cpp:77-80). Later `pause`, `stop` and `resume` calls then go through dangling pointers. The model keeps every worker alive, so `GeneralHandlers.GeneralHandler.Pause`, `Stop` and `Resume` describe only workers whose `run` has not returned.
- The percentage in `processStatus` (a `double` division and a cast) is not modelled; each status event carries the integer `processed` counter it is computed from.
- The `logMessage` texts are reduced to the kind of failure. The `incorrect` signal emitted by `getInputParams`, and the `setStatusForFile` signal, are not modelled.
- The file system is given as values: folder existence and opening as booleans, a folder as a set of names, a listing as a sequence, a file as its bytes. Write failures and short reads are not modelled; a read returns `min(blockSize, bytes left)`.
- When the input and the output are the same file (`Overwrite` with the input in the output folder, as for every `Overwrite` worker the coordinator starts), the output's truncation on open and the aliasing of reads and writes are not modelled; the input bytes are taken as read before the output is written.
- `qint64` overflow of `processed` and `int` overflow of the counter are not modelled: integers are unbounded.
- Keys that encode to fewer than eight UTF-8 bytes make `keyBytes[i % 8]` read out of range, which is undefined behaviour; `LocalHandlers.LocalHandler.Run` requires a key of at least eight bytes and does not model that case.
- Lone UTF-16 surrogates cannot occur in a Dafny string, so `QString` values holding one are not modelled.
- The treatment mode and `counterToTimer` are stored but do nothing in the modelled code; the unused `QTimer` member and timer mode are not modelled.
- The user interface (`mainwindow.cpp`, `mainwindow.h`) is not part of this model.
- The order of `entryInfoList` is taken as given by the listing parameter, and entries are assumed to be files (the `QDir::Files` filter is part of the listing).
- GeneralHandlers.GeneralHandler.FindFilesByMask: does not state the new workers' `paused`/`stopped` flags; `StartTask` states that each new worker starts neither paused nor stopped.
