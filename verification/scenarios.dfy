/**
  The expectations of `tests/tests.cpp`, restated against the model of the
  code as written. Where a test expects something else, the scenario's
  contract states what the code does, and README lists the divergence.
  A scenario whose outcome does not depend on the test's exact key or file
  contents takes them as parameters, with the properties of the test's values
  as preconditions; the lemmas at the top show that the test's values have
  those properties.
 */
module Scenarios {
  import opened QtText
  import opened FileNames
  import opened BlockTransform
  import opened LocalHandlers
  import opened GeneralHandlers

  /** The key every test uses: 18 ASCII characters. */
  function TestKey(): string { "0x1234567890ABCDEF" }

  /** The test key passes the length check and starts with `0`. */
  lemma TestKeyValid()
    ensures Utf16Length(TestKey()) == KeyLength
    ensures TestKey() != [] && TestKey()[0] == '0'
  {
    Utf16LengthOfBmp(TestKey());
  }

  /** The 12-character key of `InvalidKey`, as `QString::length` counts it. */
  lemma InvalidKeyLength()
    ensures Utf16Length("0x1234567890") == 12
  {
    Utf16LengthOfBmp("0x1234567890");
  }

  /** A 3-character ASCII key: 3 code units and 3 bytes. */
  lemma ShortKeyLengths()
    ensures Utf16Length("abc") == 3 && |Utf8("abc")| == 3
  {
    Utf16LengthOfBmp("abc");
    Utf8LengthOfAscii("abc");
  }

  /** The mask of `ValidParameters` and `InvalidKey`: one token. */
  lemma StarTxtMask()
    ensures SplitMask("*.txt") == ["*.txt"]
  {
    SplitSingleToken("*.txt");
  }

  /** The mask of `FindAllFilesByMask`: two tokens, both holding a dot. */
  lemma TestMaskSplit()
    ensures SplitMask("*.txt; file3.log") == ["*.txt", "file3.log"]
  {
    assert "*.txt; file3.log" == "*.txt" + "; " + "file3.log";
    SplitTwoTokens("*.txt", "; ", "file3.log");
  }

  /** `file.txt` and its first numbered candidate. */
  lemma FileTxtCandidates()
    ensures CandidateName(FileInfo("file.txt"), 0) == "file.txt"
    ensures CandidateName(FileInfo("file.txt"), 1) == "file_1.txt"
  {
    assert "file.txt" == "file" + "." + "txt";
    DottedName("file", "txt");
  }

  /** `a.txt` and its first two numbered candidates. */
  lemma ATxtCandidates()
    ensures FileInfo("a.txt").Suffix() == "txt"
    ensures CandidateName(FileInfo("a.txt"), 0) == "a.txt"
    ensures CandidateName(FileInfo("a.txt"), 1) == "a_1.txt"
    ensures CandidateName(FileInfo("a.txt"), 2) == "a_2.txt"
  {
    assert "a.txt" == "a" + "." + "txt";
    DottedName("a", "txt");
  }

  /** `README`, a name without a dot: its first numbered candidate still ends in a dot. */
  lemma ReadmeCandidates()
    ensures CandidateName(FileInfo("README"), 0) == "README"
    ensures CandidateName(FileInfo("README"), 1) == "README_1."
  {
    assert '.' !in "README";
  }

  /** A key whose first byte is not zero changes the first byte of the transform. */
  lemma FirstByteChanges(data: seq<bv8>, keyBytes: seq<bv8>)
    requires data != [] && keyBytes != [] && keyBytes[0] != 0 && KeyCovers(keyBytes, |data|)
    ensures Xor(data, keyBytes) != data
  {
    var b, k := data[0], keyBytes[0];
    assert Xor(data, keyBytes)[0] == b ^ k;
    assert b ^ k != b;
  }

  /** Neither token of `*.txt; file3.log` is the suffix of any entry. */
  lemma TestMaskSelectsNothing(listing: seq<string>)
    ensures Selected(["*.txt", "file3.log"], listing) == []
  {
    var tokens := ["*.txt", "file3.log"];
    assert tokens[0][1] == '.' && tokens[1][5] == '.';
    DottedTokensSelectNothing(tokens, listing);
  }

  /** An input of at most one block is covered by one block. */
  lemma OneBlockCovers(n: nat)
    requires 0 < n <= BlockSize
    ensures BlocksToCover(n) == 1
  {
  }

  /**
    `CorrectFileConversion`: one worker, `Overwrite`, run twice, the second run
    reading what the first wrote. The first output differs from the input and
    the second gives the input back. The test's key starts with `0`, so the
    first byte always changes; its input is one block or less.
   */
  method CorrectFileConversion(key: string, data: seq<bv8>) returns (first: RunResult, second: RunResult)
    requires Utf16Length(key) == KeyLength && key != [] && key[0] == '0'
    requires 0 < |data| <= BlockSize
    ensures first.exit == Completed("file.txt", false) && second.exit == Completed("file.txt", false)
    ensures first.written != data
    ensures second.written == data
  {
    var file := FileInfo("file.txt");
    var handler := new LocalHandler(Overwrite, key, file, Dir("tmp", true), false);
    AcceptedKeyCoversTransform(key, |data|);
    first := handler.Run(true, data, {"file.txt"}, true, 1, true);
    second := handler.Run(true, first.written, {"file.txt"}, true, 1, true);
    RunRoundTrip(Overwrite, key, file, false, data, {"file.txt"}, 1, true, {"file.txt"}, 1);
    var keyBytes := Utf8(key);
    Utf8FirstAscii(key);
    assert first.written == Xor(data, keyBytes);
    FirstByteChanges(data, keyBytes);
  }

  /**
    `DeleteFileAfterConversionIsCorrect`: `AddCounter` with `file.txt` already
    in the folder writes `file_1.txt` and removes the input. Any non-empty
    input of at most one block ends the same way.
   */
  method DeleteFileAfterConversion(key: string, data: seq<bv8>) returns (r: RunResult)
    requires Utf16Length(key) == KeyLength
    requires 0 < |data| <= BlockSize
    ensures r.exit == Completed("file_1.txt", true)
    ensures KeyCovers(Utf8(key), |data|) && r.written == Xor(data, Utf8(key))
    ensures r.events == [ProcessStatus(BlockSize), Finished]
  {
    var handler := new LocalHandler(AddCounter, key, FileInfo("file.txt"), Dir("tmp", true), true);
    AcceptedKeyCoversTransform(key, |data|);
    r := handler.Run(true, data, {"file.txt"}, true, 1, true);
    DeleteRunOutcome(key, data);
  }

  /** With `file.txt` taken, the counter picks `file_1.txt`. */
  lemma FileTxtTaken()
    ensures OutputNameFor(AddCounter, FileInfo("file.txt"), {"file.txt"}) == "file_1.txt"
  {
    var file := FileInfo("file.txt");
    FileTxtCandidates();
    assert IsFirstFree(file, {"file.txt"}, 1);
    FirstFreeIff(file, {"file.txt"}, 1);
  }

  /** What `run` does in `DeleteFileAfterConversionIsCorrect`. */
  lemma DeleteRunOutcome(key: string, data: seq<bv8>)
    requires KeyCovers(Utf8(key), |data|)
    requires 0 < |data| <= BlockSize
    ensures RunOutcome(AddCounter, key, FileInfo("file.txt"), true, true, data, {"file.txt"}, true, 1, true) ==
            RunResult(Completed("file_1.txt", true), Xor(data, Utf8(key)), BlockSize, [ProcessStatus(BlockSize), Finished])
  {
    FileTxtTaken();
    OneBlockCovers(|data|);
    assert StatusTrail(1) == [ProcessStatus(BlockSize)];
  }

  /** Taken names are skipped in counter order: with `a.txt` and `a_1.txt` present the output is `a_2.txt`. */
  method CounterSkipsTakenNames(key: string) returns (name: string)
    ensures name == "a_2.txt"
  {
    var file := FileInfo("a.txt");
    var handler := new LocalHandler(AddCounter, key, file, Dir("out", true), false);
    name := handler.OutputName({"a.txt", "a_1.txt"});
    ATxtCandidates();
    assert IsFirstFree(file, {"a.txt", "a_1.txt"}, 2);
    FirstFreeIff(file, {"a.txt", "a_1.txt"}, 2);
  }

  /** A name without a dot still gets the dot: `README` becomes `README_1.`. */
  method CounterOnNameWithoutSuffix(key: string) returns (name: string)
    ensures name == "README_1."
  {
    var file := FileInfo("README");
    var handler := new LocalHandler(AddCounter, key, file, Dir("out", true), false);
    name := handler.OutputName({"README"});
    ReadmeCandidates();
    assert IsFirstFree(file, {"README"}, 1);
    FirstFreeIff(file, {"README"}, 1);
  }

  /** `ValidParameters`: both folders exist, the key and mask are valid, and the call returns true (the test expects false). */
  method ValidParameters(key: string) returns (result: bool, errors: seq<IncorrectInput>)
    requires Utf16Length(key) == KeyLength
    ensures result && errors == []
  {
    StarTxtMask();
    var handler := new GeneralHandler();
    result := handler.GetInputParams(key, false, Overwrite, CommonModeTreatment(0, OneTimeTreatment),
                                     "tmp", true, "tmp", true, "*.txt");
    errors := handler.incorrectParams;
  }

  /** `InvalidKey`: a 12-character key records a key error and the call returns false (the test expects true). */
  method InvalidKey(key: string) returns (result: bool, errors: seq<IncorrectInput>)
    requires Utf16Length(key) == 12
    ensures !result && errors == [Key]
  {
    StarTxtMask();
    var handler := new GeneralHandler();
    result := handler.GetInputParams(key, false, Overwrite, CommonModeTreatment(0, OneTimeTreatment),
                                     "tmp", true, "tmp", true, "*.txt");
    errors := handler.incorrectParams;
  }

  /**
    `FindAllFilesByMask`: the mask `*.txt; file3.log` splits into two tokens,
    both holding a dot, so no suffix matches and no worker is created, whatever
    the folder holds (the test's folder holds `file1.txt`, `file2.txt`,
    `file3.log` and `file4.log`, and it expects three files).
   */
  method FindAllFilesByMask(key: string, listing: seq<string>) returns (tokens: seq<string>, created: nat)
    requires Utf16Length(key) == KeyLength
    ensures tokens == ["*.txt", "file3.log"]
    ensures created == 0
  {
    TestMaskSplit();
    TestMaskSelectsNothing(listing);
    var handler := new GeneralHandler();
    var _ := handler.GetInputParams(key, false, Overwrite, CommonModeTreatment(0, OneTimeTreatment),
                                    "tmp", true, "tmp", true, "*.txt; file3.log");
    tokens := handler.masks;
    handler.FindFilesByMask(listing);
    created := |handler.tasks|;
  }

  /** The error list is never cleared: once a call has failed, a later call with valid parameters also returns false. */
  method ErrorsAreSticky(key: string) returns (first: bool, second: bool)
    requires Utf16Length(key) == KeyLength
    ensures !first && !second
  {
    StarTxtMask();
    var handler := new GeneralHandler();
    first := handler.GetInputParams(key, false, Overwrite, CommonModeTreatment(0, OneTimeTreatment),
                                    "missing", false, "tmp", true, "*.txt");
    second := handler.GetInputParams(key, false, Overwrite, CommonModeTreatment(0, OneTimeTreatment),
                                     "tmp", true, "tmp", true, "*.txt");
  }

  /**
    `start` with valid parameters stops after validation: no worker is
    created. With a 3-character key it goes on, and the worker it creates holds
    a key too short for the transform of a 4-byte file.
   */
  method StartRunsOnlyOnErrors(key: string) returns (validCreated: nat, shortCreated: nat, shortKeyCovers: bool)
    requires Utf16Length(key) == KeyLength
    ensures validCreated == 0
    ensures shortCreated == 1 && !shortKeyCovers
  {
    SplitSingleToken("txt");
    var valid := new GeneralHandler();
    valid.Start(key, false, Overwrite, CommonModeTreatment(0, OneTimeTreatment),
                "tmp", true, "tmp", true, "txt", ["a.txt"]);
    validCreated := |valid.tasks|;

    ShortKeyLengths();
    ATxtCandidates();
    assert Selected(["txt"], ["a.txt"]) == ["a.txt"];
    var short := new GeneralHandler();
    short.Start("abc", false, Overwrite, CommonModeTreatment(0, OneTimeTreatment),
                "tmp", true, "tmp", true, "txt", ["a.txt"]);
    shortCreated := |short.tasks|;
    shortKeyCovers := KeyCovers(Utf8(short.tasks[0].key), 4);
  }

  /** `stop` before a worker's first block: the worker writes nothing, however long the input. */
  method StopBeforeFirstBlock(key: string, data: seq<bv8>, stopAt: nat) returns (r: RunResult)
    requires Utf16Length(key) == KeyLength && data != []
    ensures r == RunResult(StoppedEarly("file.txt"), [], 0, [Finished])
  {
    var handler := new LocalHandler(Overwrite, key, FileInfo("file.txt"), Dir("tmp", true), false);
    handler.Stop();
    AcceptedKeyCoversTransform(key, |data|);
    r := handler.Run(true, data, {}, true, stopAt, true);
  }
}
