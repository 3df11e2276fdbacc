/**
  The per-file worker, `nLocalHandler::LocalHandler`. One worker transforms one
  file: it picks the output name, streams the input through the block transform
  into the output, checks the stop flag before every block, and after a full
  pass may remove the input.

  The file system and the other threads are parameters of `Run`: whether each
  file opens, the input bytes, the names already in the output folder, the
  block at which the stop flag is first seen set, and whether removal succeeds.
 */
module LocalHandlers {
  import opened QtText
  import opened FileNames
  import opened BlockTransform

  /** `nLocalHandler::ConflictMode`. */
  datatype ConflictMode = Overwrite | AddCounter

  /** What a `logMessage` signal reports. */
  datatype LogKind = InputOpenFailed | OutputOpenFailed | RemoveFailed

  /** The signals `run` emits, in order. `ProcessStatus` carries the `processed` counter the percentage is computed from. */
  datatype Event = LogMessage(kind: LogKind) | ProcessStatus(processed: int) | Finished

  /** How `run` ended. */
  datatype Exit =
    | InputNotOpened
    | OutputNotOpened(outputName: string)
    | StoppedEarly(outputName: string)
    | Completed(outputName: string, removeAttempted: bool)

  /** Everything one `run` produces: how it ended, the bytes it wrote, its `processed` counter, its signals. */
  datatype RunResult = RunResult(exit: Exit, written: seq<bv8>, processed: int, events: seq<Event>)

  /**
    Output name candidate `n`: the file's own name for `n == 0`, otherwise
    `completeBaseName + "_" + n + "." + suffix` (the dot is written even when
    the suffix is empty).
   */
  function CandidateName(file: FileInfo, n: nat): string
  {
    if n == 0 then file.name
    else file.CompleteBaseName() + "_" + NumberString(n) + "." + file.Suffix()
  }

  /** A numbered candidate is longer than the file's own name. */
  lemma CandidateLonger(file: FileInfo, n: nat)
    requires n > 0
    ensures |CandidateName(file, n)| > |file.name|
  {
    if '.' in file.name {
      assert file.name == file.CompleteBaseName() + "." + file.Suffix();
    }
  }

  /** Candidate `n > 0` is the counter's numeral between a fixed head and a fixed tail. */
  lemma CandidateShape(file: FileInfo, n: nat)
    requires n > 0
    ensures CandidateName(file, n) == (file.CompleteBaseName() + "_") + NumberString(n) + ("." + file.Suffix())
  {
  }

  /** Two strings with the same head and the same tail around them are equal. */
  lemma MiddleEqual(b: string, s: string, t: string, c: string)
    requires b + s + c == b + t + c
    ensures s == t
  {
    assert |s| == |t|;
    assert s == (b + s + c)[|b|..|b| + |s|];
    assert t == (b + t + c)[|b|..|b| + |t|];
  }

  /** Different counters give different names, so the probe never sees a candidate twice. */
  lemma CandidatesDistinct(file: FileInfo, m: nat, n: nat)
    requires m != n
    ensures CandidateName(file, m) != CandidateName(file, n)
  {
    if m == 0 {
      CandidateLonger(file, n);
    } else if n == 0 {
      CandidateLonger(file, m);
    } else if CandidateName(file, m) == CandidateName(file, n) {
      CandidateShape(file, m);
      CandidateShape(file, n);
      MiddleEqual(file.CompleteBaseName() + "_", NumberString(m), NumberString(n), "." + file.Suffix());
      NumberStringInjective(m, n);
    }
  }

  /** The candidates the probe has found taken before it reaches candidate `n`. */
  function CandidatesBelow(file: FileInfo, n: nat): set<string>
  {
    if n == 0 then {} else CandidatesBelow(file, n - 1) + {CandidateName(file, n - 1)}
  }

  /** Candidate `n` is none of the candidates before it. */
  lemma {:induction false} NextCandidateIsNew(file: FileInfo, n: nat)
    ensures CandidateName(file, n) !in CandidatesBelow(file, n)
  {
    if n > 0 {
      NextCandidateIsNew(file, n - 1);
      CandidatesDistinct(file, n - 1, n);
      NextCandidateSkipsEarlier(file, n - 1, n);
    }
  }

  /** A later candidate is none of the candidates below an earlier index. */
  lemma {:induction false} NextCandidateSkipsEarlier(file: FileInfo, m: nat, n: nat)
    requires m < n
    ensures CandidateName(file, n) !in CandidatesBelow(file, m)
  {
    if m > 0 {
      NextCandidateSkipsEarlier(file, m - 1, n);
      CandidatesDistinct(file, m - 1, n);
    }
  }

  /** The candidates below `n` are exactly candidates `0 .. n - 1`. */
  lemma {:induction false} CandidatesBelowMembers(file: FileInfo, n: nat)
    ensures forall k :: 0 <= k < n ==> CandidateName(file, k) in CandidatesBelow(file, n)
  {
    if n > 0 {
      CandidatesBelowMembers(file, n - 1);
    }
  }

  /** Finding one more taken name leaves fewer names to probe. */
  lemma ProbeShrinks(existing: set<string>, probed: set<string>, name: string)
    requires name in existing && name !in probed
    ensures |existing - (probed + {name})| < |existing - probed|
  {
    assert existing - (probed + {name}) == (existing - probed) - {name};
  }

  /** Candidate `n` is free and every candidate before it is taken. */
  predicate IsFirstFree(file: FileInfo, existing: set<string>, n: nat)
  {
    CandidateName(file, n) !in existing &&
    forall k :: 0 <= k < n ==> CandidateName(file, k) in existing
  }

  /** At most one candidate is the first free one. */
  lemma FirstFreeUnique(file: FileInfo, existing: set<string>, m: nat, n: nat)
    requires IsFirstFree(file, existing, m) && IsFirstFree(file, existing, n)
    ensures m == n
  {
  }

  /**
    The first free candidate at or after `n`, given that the candidates below
    `n` are all taken. The folder holds finitely many names, so the search ends.
   */
  function FirstFreeFrom(file: FileInfo, existing: set<string>, n: nat): (m: nat)
    requires CandidatesBelow(file, n) <= existing
    ensures n <= m && IsFirstFree(file, existing, m)
    decreases |existing - CandidatesBelow(file, n)|
  {
    var name := CandidateName(file, n);
    if name !in existing then
      CandidatesBelowMembers(file, n);
      n
    else
      NextCandidateIsNew(file, n);
      ProbeShrinks(existing, CandidatesBelow(file, n), name);
      assert CandidatesBelow(file, n + 1) == CandidatesBelow(file, n) + {name};
      FirstFreeFrom(file, existing, n + 1)
  }

  /** A taken candidate sends the probe on to the next one, with fewer names left to probe and the same answer. */
  lemma ProbeStep(file: FileInfo, existing: set<string>, n: nat)
    requires CandidatesBelow(file, n) <= existing && CandidateName(file, n) in existing
    ensures CandidatesBelow(file, n + 1) <= existing
    ensures |existing - CandidatesBelow(file, n + 1)| < |existing - CandidatesBelow(file, n)|
    ensures FirstFreeFrom(file, existing, n + 1) == FirstFreeFrom(file, existing, n)
  {
    NextCandidateIsNew(file, n);
    ProbeShrinks(existing, CandidatesBelow(file, n), CandidateName(file, n));
  }

  /** The index of the first candidate name not in the folder. */
  function FirstFree(file: FileInfo, existing: set<string>): nat
  {
    FirstFreeFrom(file, existing, 0)
  }

  /** `FirstFree` is exactly the first free candidate: free, and every candidate before it taken. */
  lemma FirstFreeIff(file: FileInfo, existing: set<string>, n: nat)
    ensures IsFirstFree(file, existing, n) <==> n == FirstFree(file, existing)
  {
    if IsFirstFree(file, existing, n) {
      FirstFreeUnique(file, existing, n, FirstFree(file, existing));
    }
  }

  /** The output name `run` chooses for `file` given the names already in the output folder. */
  function OutputNameFor(conflict: ConflictMode, file: FileInfo, existing: set<string>): string
  {
    match conflict
    case Overwrite => file.name
    case AddCounter => CandidateName(file, FirstFree(file, existing))
  }

  /** In `AddCounter` mode the chosen name is new to the folder; in `Overwrite` mode it is the input's own name. */
  lemma OutputNameForIsFree(conflict: ConflictMode, file: FileInfo, existing: set<string>)
    ensures conflict == AddCounter ==> OutputNameFor(conflict, file, existing) !in existing
    ensures conflict == Overwrite ==> OutputNameFor(conflict, file, existing) == file.name
  {
  }

  /** Counting blocks and counting bytes in blocks agree. */
  lemma BlockMultiples(k: nat)
    ensures 0 <= k * BlockSize
    ensures (k + 1) * BlockSize == k * BlockSize + BlockSize
    ensures (k * BlockSize) % BlockSize == 0
    ensures (k * BlockSize) / BlockSize == k
  {
  }

  /** The `ProcessStatus` signals of the first `k` blocks. */
  function StatusTrail(k: nat): seq<Event>
  {
    if k == 0 then [] else StatusTrail(k - 1) + [ProcessStatus(k * BlockSize)]
  }

  /** The blocks a full pass over `n` bytes reads: `n / BlockSize` rounded up. */
  function BlocksToCover(n: nat): nat
  {
    (n + BlockSize - 1) / BlockSize
  }

  /** A whole number of blocks that first reaches `n` bytes is `BlocksToCover(n)` blocks. */
  lemma BlocksToCoverUnique(n: nat, p: int)
    requires p % BlockSize == 0 && n <= p < n + BlockSize
    ensures p == BlocksToCover(n) * BlockSize
  {
    var q := p / BlockSize;
    assert p == q * BlockSize;
    assert q * BlockSize <= n + BlockSize - 1 < q * BlockSize + BlockSize;
  }

  /** `BlocksToCover(n)` blocks reach `n` bytes, and one block fewer does not. */
  lemma BlocksToCoverBounds(n: nat)
    ensures n <= BlocksToCover(n) * BlockSize < n + BlockSize
  {
    var q := BlocksToCover(n);
    var m := n + BlockSize - 1;
    assert q * BlockSize <= m < q * BlockSize + BlockSize;
  }

  /**
    What `run` does, as a function of the outside world. A missing input or
    output is logged and ends the run without `finished`. Otherwise the output
    name is chosen, and the loop reads `firstStop` blocks when the stop flag is
    seen before the input ends (the only exit that emits `finished` early), or
    else every block; after a full pass a failed removal is logged before
    `finished`. `processed` grows by a whole `BlockSize` per block, also for a
    short last block.
   */
  function RunOutcome(conflict: ConflictMode, key: string, file: FileInfo, isNeedDelete: bool,
                      inputOpens: bool, data: seq<bv8>, existing: set<string>, outputOpens: bool,
                      firstStop: nat, removeSucceeds: bool): RunResult
    requires KeyCovers(Utf8(key), |data|)
  {
    if !inputOpens then RunResult(InputNotOpened, [], 0, [LogMessage(InputOpenFailed)])
    else
      var name := OutputNameFor(conflict, file, existing);
      if !outputOpens then RunResult(OutputNotOpened(name), [], 0, [LogMessage(OutputOpenFailed)])
      else if firstStop * BlockSize < |data| then
        BlockMultiples(firstStop);
        var processed := firstStop * BlockSize;
        RunResult(StoppedEarly(name), Xor(data[..processed], Utf8(key)), processed, StatusTrail(firstStop) + [Finished])
      else
        var blocks := BlocksToCover(|data|);
        var removeLog := if isNeedDelete && !removeSucceeds then [LogMessage(RemoveFailed)] else [];
        RunResult(Completed(name, isNeedDelete), Xor(data, Utf8(key)), blocks * BlockSize,
                  StatusTrail(blocks) + removeLog + [Finished])
  }

  /** The signal trail of `k` blocks: one `ProcessStatus` per block, the counter a whole block further each time. */
  lemma {:induction false} StatusTrailShape(k: nat)
    ensures |StatusTrail(k)| == k
    ensures forall i :: 0 <= i < k ==> StatusTrail(k)[i] == ProcessStatus((i + 1) * BlockSize)
  {
    if k > 0 {
      StatusTrailShape(k - 1);
    }
  }

  /** The block loop emits neither `finished` nor a log message. */
  lemma StatusTrailOnlyStatus(k: nat)
    ensures Finished !in StatusTrail(k)
    ensures forall kind :: LogMessage(kind) !in StatusTrail(k)
  {
    StatusTrailShape(k);
  }

  /**
    `finished` is emitted exactly when both files opened, once, as the last
    signal: an open failure ends `run` with its log message and no `finished`.
   */
  lemma FinishedIffOpened(conflict: ConflictMode, key: string, file: FileInfo, isNeedDelete: bool,
                          inputOpens: bool, data: seq<bv8>, existing: set<string>, outputOpens: bool,
                          firstStop: nat, removeSucceeds: bool)
    requires KeyCovers(Utf8(key), |data|)
    ensures var r := RunOutcome(conflict, key, file, isNeedDelete, inputOpens, data, existing, outputOpens,
                                firstStop, removeSucceeds);
      && (Finished in r.events <==> inputOpens && outputOpens)
      && (inputOpens && outputOpens ==> r.events[|r.events| - 1] == Finished && Finished !in r.events[..|r.events| - 1])
  {
    var r := RunOutcome(conflict, key, file, isNeedDelete, inputOpens, data, existing, outputOpens,
                        firstStop, removeSucceeds);
    if inputOpens && outputOpens {
      var blocks := if firstStop * BlockSize < |data| then firstStop else BlocksToCover(|data|);
      var before := r.events[..|r.events| - 1];
      StatusTrailOnlyStatus(blocks);
      assert before == StatusTrail(blocks) || before == StatusTrail(blocks) + [LogMessage(RemoveFailed)];
    }
  }

  /** A failed removal is logged exactly after a full pass of a worker that deletes its input. */
  lemma RemoveFailureLogged(conflict: ConflictMode, key: string, file: FileInfo, isNeedDelete: bool,
                            inputOpens: bool, data: seq<bv8>, existing: set<string>, outputOpens: bool,
                            firstStop: nat, removeSucceeds: bool)
    requires KeyCovers(Utf8(key), |data|)
    ensures var r := RunOutcome(conflict, key, file, isNeedDelete, inputOpens, data, existing, outputOpens,
                                firstStop, removeSucceeds);
      LogMessage(RemoveFailed) in r.events <==> r.exit.Completed? && isNeedDelete && !removeSucceeds
  {
    StatusTrailOnlyStatus(firstStop);
    StatusTrailOnlyStatus(BlocksToCover(|data|));
  }

  /**
    A run that is not stopped before the input ends completes, under the chosen
    output name: it writes the block-wise transform of the whole input, and
    `processed` is the input length rounded up to whole blocks.
   */
  lemma CompletedRunTransformsAll(conflict: ConflictMode, key: string, file: FileInfo, isNeedDelete: bool,
                                  inputOpens: bool, data: seq<bv8>, existing: set<string>, outputOpens: bool,
                                  firstStop: nat, removeSucceeds: bool)
    requires KeyCovers(Utf8(key), |data|)
    ensures var r := RunOutcome(conflict, key, file, isNeedDelete, inputOpens, data, existing, outputOpens,
                                firstStop, removeSucceeds);
      && (r.exit.Completed? <==> inputOpens && outputOpens && |data| <= firstStop * BlockSize)
      && (r.exit.Completed? ==>
            && r.exit == Completed(OutputNameFor(conflict, file, existing), isNeedDelete)
            && r.written == Blockwise(data, Utf8(key))
            && r.processed % BlockSize == 0 && |data| <= r.processed < |data| + BlockSize)
  {
    BlockwiseIsXor(data, Utf8(key));
    BlocksToCoverBounds(|data|);
    BlockMultiples(BlocksToCover(|data|));
  }

  /**
    A run whose stop flag is seen before the input ends writes only the
    transform of the blocks it read: a prefix of the full output, ending on a
    block boundary before the end of the input.
   */
  lemma StoppedRunWritesPrefix(conflict: ConflictMode, key: string, file: FileInfo, isNeedDelete: bool,
                               inputOpens: bool, data: seq<bv8>, existing: set<string>, outputOpens: bool,
                               firstStop: nat, removeSucceeds: bool)
    requires KeyCovers(Utf8(key), |data|)
    ensures var r := RunOutcome(conflict, key, file, isNeedDelete, inputOpens, data, existing, outputOpens,
                                firstStop, removeSucceeds);
      && (r.exit.StoppedEarly? <==> inputOpens && outputOpens && firstStop * BlockSize < |data|)
      && (r.exit.StoppedEarly? ==>
            && r.exit.outputName == OutputNameFor(conflict, file, existing)
            && r.processed % BlockSize == 0 && r.processed < |data|
            && r.written == Blockwise(data, Utf8(key))[..r.processed])
  {
    BlockMultiples(firstStop);
    var processed := firstStop * BlockSize;
    if inputOpens && outputOpens && processed < |data| {
      var keyBytes := Utf8(key);
      BlockwisePrefix(data, keyBytes, processed);
      BlockwiseIsXor(data[..processed], keyBytes);
    }
  }

  /**
    Running a completed output through a worker with the same key again gives
    the original input back: the transform is its own inverse.
   */
  lemma RunRoundTrip(conflict: ConflictMode, key: string, file: FileInfo, isNeedDelete: bool,
                     data: seq<bv8>, existing: set<string>, firstStop: nat, removeSucceeds: bool,
                     existing2: set<string>, firstStop2: nat)
    requires KeyCovers(Utf8(key), |data|)
    requires |data| <= firstStop * BlockSize && |data| <= firstStop2 * BlockSize
    ensures var once := RunOutcome(conflict, key, file, isNeedDelete, true, data, existing, true,
                                   firstStop, removeSucceeds);
      && once.exit.Completed?
      && RunOutcome(conflict, key, file, isNeedDelete, true, once.written, existing2, true,
                    firstStop2, removeSucceeds).written == data
  {
    XorInvolution(data, Utf8(key));
  }

  /**
    The state of `run`'s block loop after `blocks` blocks: `processed` counts a
    whole block for each, the read position is there or at the end of the
    input, and the output and the signals are those of the blocks read.
   */
  ghost predicate CopyState(data: seq<bv8>, keyBytes: seq<bv8>, blocks: nat, position: nat, processed: int,
                            output: seq<bv8>, events: seq<Event>)
    requires KeyCovers(keyBytes, |data|)
  {
    && processed == blocks * BlockSize
    && position == (if processed < |data| then processed else |data|)
    && processed < |data| + BlockSize
    && output == Blockwise(data[..position], keyBytes)
    && events == StatusTrail(blocks)
  }

  /** One more iteration of the block loop keeps `CopyState`. */
  lemma CopyStep(data: seq<bv8>, keyBytes: seq<bv8>, blocks: nat, position: nat, processed: int,
                 output: seq<bv8>, events: seq<Event>, length: nat)
    requires KeyCovers(keyBytes, |data|)
    requires CopyState(data, keyBytes, blocks, position, processed, output, events)
    requires position < |data| && length == (if |data| - position < BlockSize then |data| - position else BlockSize)
    ensures CopyState(data, keyBytes, blocks + 1, position + length, processed + BlockSize,
                      output + Xor(data[position..position + length], keyBytes),
                      events + [ProcessStatus(processed + BlockSize)])
  {
    BlockMultiples(blocks);
    BlockwiseStep(data, keyBytes, position, length);
  }

  /** When the block loop reaches the end of the input, all of it is transformed, in whole blocks. */
  lemma CopyDone(data: seq<bv8>, keyBytes: seq<bv8>, blocks: nat, position: nat, processed: int,
                 output: seq<bv8>, events: seq<Event>)
    requires KeyCovers(keyBytes, |data|)
    requires CopyState(data, keyBytes, blocks, position, processed, output, events)
    requires position >= |data|
    ensures processed % BlockSize == 0 && |data| <= processed < |data| + BlockSize && processed / BlockSize == blocks
    ensures output == Blockwise(data, keyBytes) && events == StatusTrail(blocks)
  {
    BlockMultiples(blocks);
    assert data[..position] == data;
  }

  /** More blocks cover more bytes. */
  lemma MoreBlocksMoreBytes(a: nat, b: nat)
    requires a <= b
    ensures a * BlockSize <= b * BlockSize
  {
  }

  /** The loop over one block in `run`: byte `i` of the block is XORed with key byte `i mod 8`, in place. */
  method XorInPlace(block: array<bv8>, keyBytes: seq<bv8>)
    requires KeyCovers(keyBytes, block.Length)
    modifies block
    ensures block[..] == Xor(old(block[..]), keyBytes)
  {
    for i := 0 to block.Length
      invariant forall j :: 0 <= j < i ==> block[j] == old(block[j]) ^ keyBytes[j % 8]
      invariant forall j :: i <= j < block.Length ==> block[j] == old(block[j])
    {
      block[i] := block[i] ^ keyBytes[i % 8];
    }
  }

  /** One iteration's `input.read(blockSize)` and XOR loop: the block read into a fresh buffer and transformed in place. */
  method ReadBlock(bytes: seq<bv8>, keyBytes: seq<bv8>) returns (block: seq<bv8>)
    requires KeyCovers(keyBytes, |bytes|)
    ensures block == Xor(bytes, keyBytes)
  {
    var buffer := new bv8[|bytes|](j requires 0 <= j < |bytes| => bytes[j]);
    assert buffer[..] == bytes;
    XorInPlace(buffer, keyBytes);
    block := buffer[..];
  }

  class LocalHandler {
    const conflict: ConflictMode
    const key: string
    const file: FileInfo
    const folderForOutputFiles: Dir
    const isNeedDelete: bool
    var paused: bool
    var stopped: bool

    constructor (conflict: ConflictMode, key: string, file: FileInfo, folderForOutputFiles: Dir, isNeedDelete: bool)
      ensures this.conflict == conflict && this.key == key && this.file == file
      ensures this.folderForOutputFiles == folderForOutputFiles && this.isNeedDelete == isNeedDelete
      ensures !paused && !stopped
    {
      this.conflict := conflict;
      this.key := key;
      this.file := file;
      this.folderForOutputFiles := folderForOutputFiles;
      this.isNeedDelete := isNeedDelete;
      paused := false;
      stopped := false;
    }

    method Stop()
      modifies `stopped
      ensures stopped
    {
      stopped := true;
    }

    method Pause()
      modifies `paused
      ensures paused
    {
      paused := true;
    }

    method Resume()
      modifies `paused
      ensures !paused
    {
      paused := false;
    }

    /** The block before which the stop flag is first seen set: 0 when it is set on entry. */
    function FirstStop(stopAt: nat): nat
      reads this
    {
      if stopped then 0 else stopAt
    }

    /** Whether the loop over `n` input bytes leaves through the stop check. */
    predicate StopsEarly(stopAt: nat, n: nat)
      reads this
    {
      FirstStop(stopAt) * BlockSize < n
    }

    /**
      The output-name choice at the head of `run`. In `Overwrite` mode the
      file's own name, without looking at the folder. In `AddCounter` mode the
      first of `name`, `base_1.ext`, `base_2.ext`, ... that is not in the folder;
      `n` is the index of the chosen candidate.
     */
    method OutputName(existing: set<string>) returns (name: string)
      ensures name == OutputNameFor(conflict, file, existing)
      ensures conflict == AddCounter ==> name !in existing
    {
      name := file.name;
      ghost var n := 0;
      if conflict == AddCounter {
        var counter := 1;
        while name in existing
          invariant counter == n + 1
          invariant name == CandidateName(file, n)
          invariant CandidatesBelow(file, n) <= existing
          invariant FirstFreeFrom(file, existing, n) == FirstFree(file, existing)
          decreases |existing - CandidatesBelow(file, n)|
        {
          ProbeStep(file, existing, n);
          name := file.CompleteBaseName() + "_" + NumberString(counter) + "." + file.Suffix();
          n := counter;
          counter := counter + 1;
        }
      }
    }

    /**
      The block loop of `run`: while the input is not at its end, check the
      stop flag, read up to `BlockSize` bytes, XOR them in place, append them to
      the output and add a full `BlockSize` to `processed`. `interrupted` tells
      whether the loop left through the stop check.
     */
    method CopyBlocks(data: seq<bv8>, keyBytes: seq<bv8>, stopAt: nat)
      returns (output: seq<bv8>, processed: int, events: seq<Event>, interrupted: bool)
      requires KeyCovers(keyBytes, |data|)
      ensures interrupted == StopsEarly(stopAt, |data|)
      ensures interrupted ==>
        processed == FirstStop(stopAt) * BlockSize && 0 <= processed < |data| &&
        output == Blockwise(data[..processed], keyBytes) &&
        events == StatusTrail(FirstStop(stopAt))
      ensures !interrupted ==>
        processed % BlockSize == 0 && |data| <= processed < |data| + BlockSize &&
        output == Blockwise(data, keyBytes) &&
        events == StatusTrail(processed / BlockSize)
    {
      processed := 0;
      var position: nat := 0;  // read position of the input stream
      var blocks: nat := 0;  // blocks read so far
      output := [];
      events := [];
      ghost var firstStop := FirstStop(stopAt);
      while position < |data|
        invariant CopyState(data, keyBytes, blocks, position, processed, output, events)
        invariant blocks <= firstStop
      {
        if stopped || blocks >= stopAt {
          return output, processed, events, true;
        }

        var length := if |data| - position < BlockSize then |data| - position else BlockSize;
        var block := ReadBlock(data[position..position + length], keyBytes);
        CopyStep(data, keyBytes, blocks, position, processed, output, events, length);

        output := output + block;
        processed := processed + BlockSize;
        events := events + [ProcessStatus(processed)];
        position := position + length;
        blocks := blocks + 1;
      }
      CopyDone(data, keyBytes, blocks, position, processed, output, events);
      MoreBlocksMoreBytes(blocks, firstStop);
      interrupted := false;
    }

    /**
      `run`. The input opens (`inputOpens`) and holds `data`; the output folder
      already holds `existing`; the output opens (`outputOpens`); the stop flag,
      once set, stays set, and reads set before block `b` when it was set on
      entry or `b >= stopAt`; `removeSucceeds` is what removing the input would
      return. The pause spin reads only `paused`, never `stopped`: a worker
      stopped while paused and then resumed still reads and writes the block
      it was waiting on, and its stop check sees the flag only before the next
      block, which a larger `stopAt` expresses. A worker paused and never
      resumed never ends; `Run` describes the runs that do end.
     */
    method Run(inputOpens: bool, data: seq<bv8>, existing: set<string>, outputOpens: bool,
               stopAt: nat, removeSucceeds: bool) returns (r: RunResult)
      requires KeyCovers(Utf8(key), |data|)
      ensures r == RunOutcome(conflict, key, file, isNeedDelete, inputOpens, data, existing, outputOpens,
                              FirstStop(stopAt), removeSucceeds)
    {
      if !inputOpens {
        return RunResult(InputNotOpened, [], 0, [LogMessage(InputOpenFailed)]);
      }
      var outputNameFile := OutputName(existing);
      if !outputOpens {
        return RunResult(OutputNotOpened(outputNameFile), [], 0, [LogMessage(OutputOpenFailed)]);
      }

      var keyBytes := Utf8(key);
      var output, processed, events, interrupted := CopyBlocks(data, keyBytes, stopAt);
      if interrupted {
        BlockwiseIsXor(data[..processed], keyBytes);
        return RunResult(StoppedEarly(outputNameFile), output, processed, events + [Finished]);
      }
      BlockwiseIsXor(data, keyBytes);
      BlocksToCoverUnique(|data|, processed);
      BlockMultiples(BlocksToCover(|data|));
      var removeLog := if isNeedDelete && !removeSucceeds then [LogMessage(RemoveFailed)] else [];
      r := RunResult(Completed(outputNameFile, isNeedDelete), output, processed, events + removeLog + [Finished]);
    }
  }
}
