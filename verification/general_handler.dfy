/**
  The coordinator, `nGeneralHandler::GeneralHandler`. It validates the run
  parameters into a list of errors it never clears, splits the mask string into
  tokens, creates one worker per entry of the output folder whose suffix is a
  token, and broadcasts pause, resume and stop to every worker it created.

  `getInputParams` returns true when it found NO errors, and `start` goes on to
  discovery only when it returns false; the model keeps both as written.
 */
module GeneralHandlers {
  import opened QtText
  import opened FileNames
  import opened BlockTransform
  import opened LocalHandlers

  /** `nGeneralHandler::IncorrectInput`. */
  datatype IncorrectInput = Key | Mask | InputFolder | OutputFolder

  /** `nGeneralHandler::ModeTreatment`. */
  datatype ModeTreatment = OneTimeTreatment | TimerTreatment

  /** `nGeneralHandler::CommonModeTreatment`. */
  datatype CommonModeTreatment = CommonModeTreatment(counterToTimer: nat, mode: ModeTreatment)

  /** The only key length `getInputParams` accepts, in UTF-16 code units. */
  const KeyLength: nat := 18

  // ---------------------------------------------------------------------------
  // Mask splitting: `mask.split(QRegularExpression("[,; ]+"), Qt::SkipEmptyParts)`

  predicate IsMaskSeparator(c: char)
  {
    c == ',' || c == ';' || c == ' '
  }

  predicate NoSeparator(s: string)
  {
    forall i :: 0 <= i < |s| ==> !IsMaskSeparator(s[i])
  }

  /** A token the split can produce: not empty, no separator in it. */
  predicate IsMaskToken(t: string)
  {
    t != [] && NoSeparator(t)
  }

  /** `s` with every separator character dropped. */
  function RemoveSeparators(s: string): (r: string)
    ensures NoSeparator(r)
  {
    if s == [] then []
    else (if IsMaskSeparator(s[0]) then [] else [s[0]]) + RemoveSeparators(s[1..])
  }

  /** The tokens laid end to end. */
  function Concat(tokens: seq<string>): string
  {
    if tokens == [] then [] else tokens[0] + Concat(tokens[1..])
  }

  /** The tokens joined by one separator character. */
  function Join(tokens: seq<string>, separator: char): string
  {
    if tokens == [] then []
    else if |tokens| == 1 then tokens[0]
    else tokens[0] + [separator] + Join(tokens[1..], separator)
  }

  /** The split of `s`, given that `current` holds the characters of a token not yet closed. */
  function SplitFrom(s: string, current: string): seq<string>
    decreases |s|
  {
    if s == [] then
      (if current == [] then [] else [current])
    else if IsMaskSeparator(s[0]) then
      (if current == [] then [] else [current]) + SplitFrom(s[1..], [])
    else
      SplitFrom(s[1..], current + [s[0]])
  }

  /** Every token of the split is non-empty and holds no separator. */
  lemma {:induction false} SplitFromTokens(s: string, current: string)
    requires NoSeparator(current)
    ensures forall i :: 0 <= i < |SplitFrom(s, current)| ==> IsMaskToken(SplitFrom(s, current)[i])
    decreases |s|
  {
    if s != [] {
      if IsMaskSeparator(s[0]) {
        SplitFromTokens(s[1..], []);
      } else {
        SplitFromTokens(s[1..], current + [s[0]]);
      }
    }
  }

  /** Laid end to end, the tokens give the open token followed by `s` without its separators. */
  lemma {:induction false} SplitFromConcat(s: string, current: string)
    ensures Concat(SplitFrom(s, current)) == current + RemoveSeparators(s)
    decreases |s|
  {
    if s == [] {
      assert current + [] == current;
      if current != [] {
        assert Concat([current]) == current + Concat([]);
      }
    } else if IsMaskSeparator(s[0]) {
      var rest := SplitFrom(s[1..], []);
      SplitFromConcat(s[1..], []);
      assert RemoveSeparators(s) == RemoveSeparators(s[1..]);
      if current == [] {
        assert [] + rest == rest;
      } else {
        assert ([current] + rest)[0] == current && ([current] + rest)[1..] == rest;
      }
    } else {
      SplitFromConcat(s[1..], current + [s[0]]);
      assert current + [s[0]] + RemoveSeparators(s[1..]) == current + RemoveSeparators(s);
    }
  }

  /**
    The mask tokens: the maximal runs of characters other than `,`, `;` and
    space, in the order they appear. Laid end to end they give the mask with its
    separators dropped.
   */
  function SplitMask(mask: string): (tokens: seq<string>)
    ensures forall i :: 0 <= i < |tokens| ==> IsMaskToken(tokens[i])
    ensures Concat(tokens) == RemoveSeparators(mask)
  {
    SplitFromTokens(mask, []);
    SplitFromConcat(mask, []);
    SplitFrom(mask, [])
  }

  /** The split yields no token exactly when the mask holds nothing but separators. */
  lemma MaskEmptyIff(mask: string)
    ensures SplitMask(mask) == [] <==> RemoveSeparators(mask) == []
  {
    var tokens := SplitMask(mask);
    if tokens != [] {
      assert Concat(tokens) == tokens[0] + Concat(tokens[1..]);
      assert |tokens[0]| > 0;
    }
  }

  /** Characters without separators extend the token being read. */
  lemma {:induction false} SplitFromToken(t: string, s: string, current: string)
    requires NoSeparator(current) && NoSeparator(t)
    ensures SplitFrom(t + s, current) == SplitFrom(s, current + t)
    decreases |t|
  {
    if t == [] {
      assert t + s == s && current + t == current;
    } else {
      assert !IsMaskSeparator(t[0]);
      assert (t + s)[0] == t[0] && (t + s)[1..] == t[1..] + s;
      assert SplitFrom(t + s, current) == SplitFrom(t[1..] + s, current + [t[0]]);
      assert NoSeparator(t[1..]);
      SplitFromToken(t[1..], s, current + [t[0]]);
      assert current + [t[0]] + t[1..] == current + t;
    }
  }

  /** Separators between tokens are skipped, however many there are: no empty token is produced. */
  lemma {:induction false} SplitSkipsSeparators(separators: string, s: string)
    requires forall i :: 0 <= i < |separators| ==> IsMaskSeparator(separators[i])
    ensures SplitFrom(separators + s, []) == SplitFrom(s, [])
    decreases |separators|
  {
    if separators == [] {
      assert separators + s == s;
    } else {
      var t := separators + s;
      assert t[0] == separators[0] && t[1..] == separators[1..] + s;
      assert SplitFrom(t, []) == SplitFrom(t[1..], []);
      SplitSkipsSeparators(separators[1..], s);
    }
  }

  /** A mask that is a single token splits into that token. */
  lemma SplitSingleToken(t: string)
    requires IsMaskToken(t)
    ensures SplitMask(t) == [t]
  {
    SplitFromToken(t, [], []);
    assert t + [] == t && [] + t == t;
    assert SplitFrom([], t) == [t];
  }

  /** A token followed by a run of separators splits off as the first token. */
  lemma SplitLeadingToken(t: string, separators: string, s: string)
    requires IsMaskToken(t) && separators != []
    requires forall i :: 0 <= i < |separators| ==> IsMaskSeparator(separators[i])
    ensures SplitMask(t + separators + s) == [t] + SplitMask(s)
  {
    var u := separators + s;
    assert t + separators + s == t + u;
    SplitFromToken(t, u, []);
    assert [] + t == t;
    assert u[0] == separators[0] && u[1..] == separators[1..] + s;
    assert SplitFrom(u, t) == [t] + SplitFrom(u[1..], []);
    SplitSkipsSeparators(separators[1..], s);
  }

  /** Two tokens with a run of separators between them split into those two tokens. */
  lemma SplitTwoTokens(a: string, separators: string, b: string)
    requires IsMaskToken(a) && IsMaskToken(b) && separators != []
    requires forall i :: 0 <= i < |separators| ==> IsMaskSeparator(separators[i])
    ensures SplitMask(a + separators + b) == [a, b]
  {
    SplitSingleToken(b);
    SplitLeadingToken(a, separators, b);
  }

  /** Splitting tokens joined by any separator gives the tokens back. */
  lemma {:induction false} SplitJoinRoundTrip(tokens: seq<string>, separator: char)
    requires forall i :: 0 <= i < |tokens| ==> IsMaskToken(tokens[i])
    requires IsMaskSeparator(separator)
    ensures SplitMask(Join(tokens, separator)) == tokens
  {
    if |tokens| == 1 {
      var t := tokens[0];
      SplitFromToken(t, [], []);
      assert t + [] == t && [] + t == t;
      assert SplitFrom([], t) == [t] == tokens;
    } else if |tokens| > 1 {
      var rest := Join(tokens[1..], separator);
      SplitFromToken(tokens[0], [separator] + rest, []);
      assert tokens[0] + ([separator] + rest) == Join(tokens, separator);
      assert ([separator] + rest)[1..] == rest;
      SplitJoinRoundTrip(tokens[1..], separator);
      assert [] + tokens[0] == tokens[0];
    }
  }

  // ---------------------------------------------------------------------------
  // Validation

  /** The order in which `getInputParams` checks the parameters. */
  function CheckOrder(e: IncorrectInput): nat
  {
    match e
    case OutputFolder => 0
    case InputFolder => 1
    case Key => 2
    case Mask => 3
  }

  /** `errors` with `e` appended when its check `failed`. */
  function AppendIf(errors: seq<IncorrectInput>, failed: bool, e: IncorrectInput): seq<IncorrectInput>
  {
    if failed then errors + [e] else errors
  }

  /**
    The error list after the four checks of `getInputParams`, starting from
    `prior`: the output folder, the input folder, the key's `QString::length`
    and the mask tokens, each appending its error when it fails.
   */
  function Checked(prior: seq<IncorrectInput>, outputExists: bool, inputExists: bool, keyLength: nat,
                   tokens: seq<string>): seq<IncorrectInput>
  {
    var afterFolders := AppendIf(AppendIf(prior, !outputExists, OutputFolder), !inputExists, InputFolder);
    AppendIf(AppendIf(afterFolders, keyLength != KeyLength, Key), tokens == [], Mask)
  }

  /** The errors one `getInputParams` call appends: each error exactly when its check fails. */
  function ValidationErrors(outputExists: bool, inputExists: bool, keyLength: nat, tokens: seq<string>)
    : (errors: seq<IncorrectInput>)
    ensures OutputFolder in errors <==> !outputExists
    ensures InputFolder in errors <==> !inputExists
    ensures Key in errors <==> keyLength != KeyLength
    ensures Mask in errors <==> tokens == []
  {
    Checked([], outputExists, inputExists, keyLength, tokens)
  }

  /** Appending one error more commutes with having a prefix in front. */
  lemma AppendIfPrefix(prior: seq<IncorrectInput>, errors: seq<IncorrectInput>, failed: bool, e: IncorrectInput)
    ensures AppendIf(prior + errors, failed, e) == prior + AppendIf(errors, failed, e)
  {
    if failed {
      assert prior + errors + [e] == prior + (errors + [e]);
    }
  }

  /** The checks only ever append: the list after them is the list before, followed by this call's errors. */
  lemma CheckedExtends(prior: seq<IncorrectInput>, outputExists: bool, inputExists: bool, keyLength: nat,
                       tokens: seq<string>)
    ensures Checked(prior, outputExists, inputExists, keyLength, tokens) ==
            prior + ValidationErrors(outputExists, inputExists, keyLength, tokens)
  {
    var e0: seq<IncorrectInput> := [];
    assert prior == prior + e0;
    var e1 := AppendIf(e0, !outputExists, OutputFolder);
    AppendIfPrefix(prior, e0, !outputExists, OutputFolder);
    var e2 := AppendIf(e1, !inputExists, InputFolder);
    AppendIfPrefix(prior, e1, !inputExists, InputFolder);
    var e3 := AppendIf(e2, keyLength != KeyLength, Key);
    AppendIfPrefix(prior, e2, keyLength != KeyLength, Key);
    AppendIfPrefix(prior, e3, tokens == [], Mask);
  }

  /** The errors of one call come in check order, so none of them twice. */
  lemma ValidationErrorsInCheckOrder(outputExists: bool, inputExists: bool, keyLength: nat, tokens: seq<string>)
    ensures var errors := ValidationErrors(outputExists, inputExists, keyLength, tokens);
      |errors| <= 4 &&
      forall i, j :: 0 <= i < j < |errors| ==> CheckOrder(errors[i]) < CheckOrder(errors[j])
  {
  }

  /** A mask error is recorded exactly when the mask holds nothing but separators. */
  lemma MaskErrorIff(outputExists: bool, inputExists: bool, keyLength: nat, mask: string)
    ensures Mask in ValidationErrors(outputExists, inputExists, keyLength, SplitMask(mask)) <==>
            RemoveSeparators(mask) == []
  {
    MaskEmptyIff(mask);
  }

  /** A key that passes validation has at least eight UTF-8 bytes, all the transform reads. */
  lemma AcceptedKeyCoversTransform(key: string, n: nat)
    requires Utf16Length(key) == KeyLength
    ensures KeyCovers(Utf8(key), n)
  {
    Utf8CoversUtf16(key);
  }

  // ---------------------------------------------------------------------------
  // Discovery: `masks.contains(file.suffix())` over the output folder's entries

  /** An entry is selected when its suffix is literally one of the tokens. */
  predicate Matches(masks: seq<string>, name: string)
  {
    FileInfo(name).Suffix() in masks
  }

  /** The selected entries, in listing order. */
  function Selected(masks: seq<string>, entries: seq<string>): seq<string>
  {
    if entries == [] then []
    else
      var last := entries[|entries| - 1];
      Selected(masks, entries[..|entries| - 1]) + (if Matches(masks, last) then [last] else [])
  }

  /** Exactly the matching entries are selected, and never more entries than listed. */
  lemma {:induction false} SelectedIff(masks: seq<string>, entries: seq<string>)
    ensures forall x :: x in Selected(masks, entries) <==> x in entries && Matches(masks, x)
    ensures |Selected(masks, entries)| <= |entries|
    decreases |entries|
  {
    if entries != [] {
      var init := entries[..|entries| - 1];
      SelectedIff(masks, init);
      assert entries == init + [entries[|entries| - 1]];
    }
  }

  /** Selection keeps the listing order: it distributes over concatenation. */
  lemma {:induction false} SelectedAppend(masks: seq<string>, a: seq<string>, b: seq<string>)
    ensures Selected(masks, a + b) == Selected(masks, a) + Selected(masks, b)
    decreases |b|
  {
    if b != [] {
      var b' := b[..|b| - 1];
      assert (a + b)[..|a + b| - 1] == a + b';
      SelectedAppend(masks, a, b');
    } else {
      assert a + b == a;
    }
  }

  /** Selection over one more entry of the listing. */
  lemma SelectedStep(masks: seq<string>, entries: seq<string>, i: nat)
    requires i < |entries|
    ensures Selected(masks, entries[..i + 1]) ==
            Selected(masks, entries[..i]) + (if Matches(masks, entries[i]) then [entries[i]] else [])
  {
    assert entries[..i + 1][..i] == entries[..i];
  }

  /** A token holding a dot never equals a suffix, so masks such as `*.txt` select nothing. */
  lemma {:induction false} DottedTokensSelectNothing(masks: seq<string>, entries: seq<string>)
    requires forall i :: 0 <= i < |masks| ==> '.' in masks[i]
    ensures Selected(masks, entries) == []
    decreases |entries|
  {
    if entries != [] {
      DottedTokensSelectNothing(masks, entries[..|entries| - 1]);
      assert !Matches(masks, entries[|entries| - 1]);
    }
  }

  // ---------------------------------------------------------------------------
  // The coordinator

  class GeneralHandler {
    var key: string
    var isNeedDelete: bool
    var conflict: ConflictMode
    var mode: CommonModeTreatment
    var dirOutputFolder: Dir
    var dirInputFolder: Dir
    var masks: seq<string>
    var incorrectParams: seq<IncorrectInput>
    var tasks: seq<LocalHandler>

    /** The list of errors starts empty and is never replaced. */
    constructor ()
      ensures incorrectParams == [] && tasks == [] && masks == []
    {
      key := [];
      isNeedDelete := false;
      conflict := Overwrite;
      mode := CommonModeTreatment(0, OneTimeTreatment);
      dirOutputFolder := Dir(".", true);
      dirInputFolder := Dir(".", true);
      masks := [];
      incorrectParams := [];
      tasks := [];
    }

    /** `t` is a worker for entry `name` built from the stored parameters. */
    ghost predicate IsTaskFor(t: LocalHandler, name: string)
      reads `conflict, `key, `dirOutputFolder, `isNeedDelete
    {
      t.conflict == conflict && t.key == key && t.file == FileInfo(name) &&
      t.folderForOutputFiles == dirOutputFolder && t.isNeedDelete == isNeedDelete
    }

    /** `ts` is `before` followed by one worker per name of `names`, in order. */
    ghost predicate TasksFor(ts: seq<LocalHandler>, before: seq<LocalHandler>, names: seq<string>)
      reads `conflict, `key, `dirOutputFolder, `isNeedDelete
    {
      |ts| == |before| + |names| && ts[..|before|] == before &&
      forall i :: 0 <= i < |names| ==> IsTaskFor(ts[|before| + i], names[i])
    }

    /** `tasks` is `before` followed by one worker per name of `names`, in order. */
    ghost predicate AppendedTasks(before: seq<LocalHandler>, names: seq<string>)
      reads `conflict, `key, `dirOutputFolder, `isNeedDelete, `tasks
    {
      TasksFor(tasks, before, names)
    }

    /** One more worker for one more name keeps the lists in step. */
    lemma TasksForPush(ts: seq<LocalHandler>, before: seq<LocalHandler>, names: seq<string>, t: LocalHandler, name: string)
      requires TasksFor(ts, before, names) && IsTaskFor(t, name)
      ensures TasksFor(ts + [t], before, names + [name])
    {
      assert (ts + [t])[..|before|] == ts[..|before|];
    }

    /**
      `getInputParams`. The folder paths come with whether each folder exists.
      Returns true exactly when the error list, which this call only extends,
      is empty; stores the key, the delete flag, the conflict mode and the
      treatment mode only when it returns false.
     */
    method GetInputParams(key: string, isNeedDelete: bool, conflict: ConflictMode, mode: CommonModeTreatment,
                          pathOutputFolder: string, outputExists: bool,
                          pathInputFolder: string, inputExists: bool, mask: string)
      returns (result: bool)
      modifies `key, `isNeedDelete, `conflict, `mode, `dirOutputFolder, `dirInputFolder, `masks, `incorrectParams
      ensures dirOutputFolder == Dir(pathOutputFolder, outputExists)
      ensures dirInputFolder == Dir(pathInputFolder, inputExists)
      ensures masks == SplitMask(mask)
      ensures incorrectParams == old(incorrectParams) + ValidationErrors(outputExists, inputExists, Utf16Length(key), SplitMask(mask))
      ensures result <==> incorrectParams == []
      ensures result ==> this.key == old(this.key) && this.isNeedDelete == old(this.isNeedDelete) &&
                         this.conflict == old(this.conflict) && this.mode == old(this.mode)
      ensures !result ==> this.key == key && this.isNeedDelete == isNeedDelete &&
                          this.conflict == conflict && this.mode == mode
      ensures tasks == old(tasks)
    {
      Validate(key, pathOutputFolder, outputExists, pathInputFolder, inputExists, mask);
      if incorrectParams == [] {
        return true;
      }

      this.key := key;
      this.isNeedDelete := isNeedDelete;
      this.conflict := conflict;
      this.mode := mode;
      return false;
    }

    /** The checking half of `getInputParams`: store the folders and the mask tokens, then run the four checks. */
    method Validate(key: string, pathOutputFolder: string, outputExists: bool,
                    pathInputFolder: string, inputExists: bool, mask: string)
      modifies `dirOutputFolder, `dirInputFolder, `masks, `incorrectParams
      ensures dirOutputFolder == Dir(pathOutputFolder, outputExists)
      ensures dirInputFolder == Dir(pathInputFolder, inputExists)
      ensures masks == SplitMask(mask)
      ensures incorrectParams == old(incorrectParams) + ValidationErrors(outputExists, inputExists, Utf16Length(key), SplitMask(mask))
    {
      dirOutputFolder := Dir(pathOutputFolder, outputExists);
      dirInputFolder := Dir(pathInputFolder, inputExists);
      masks := SplitMask(mask);
      AppendErrors(dirOutputFolder.present, dirInputFolder.present, Utf16Length(key), masks);
      CheckedExtends(old(incorrectParams), outputExists, inputExists, Utf16Length(key), masks);
    }

    /** The four checks of `getInputParams`, each appending its error when it fails. */
    method AppendErrors(outputExists: bool, inputExists: bool, keyLength: nat, tokens: seq<string>)
      modifies `incorrectParams
      ensures incorrectParams == Checked(old(incorrectParams), outputExists, inputExists, keyLength, tokens)
    {
      if !outputExists {
        incorrectParams := incorrectParams + [OutputFolder];
      }
      if !inputExists {
        incorrectParams := incorrectParams + [InputFolder];
      }
      if keyLength != KeyLength {
        incorrectParams := incorrectParams + [Key];
      }
      if tokens == [] {
        incorrectParams := incorrectParams + [Mask];
      }
    }

    /** `startTask`: a new worker for `file` with the stored parameters joins `tasks`. */
    method StartTask(file: FileInfo)
      modifies `tasks
      ensures |tasks| == |old(tasks)| + 1 && tasks[..|old(tasks)|] == old(tasks)
      ensures IsTaskFor(tasks[|old(tasks)|], file.name)
      ensures fresh(tasks[|old(tasks)|]) && !tasks[|old(tasks)|].paused && !tasks[|old(tasks)|].stopped
    {
      var task := new LocalHandler(conflict, key, file, dirOutputFolder, isNeedDelete);
      tasks := tasks + [task];
    }

    /**
      `findFilesByMask`: one new worker per entry of the output folder whose
      suffix is a mask token, in listing order. `listing` is what the folder
      holds; a folder that does not exist lists nothing.
     */
    method FindFilesByMask(listing: seq<string>)
      modifies `tasks
      ensures AppendedTasks(old(tasks), Selected(masks, if dirOutputFolder.present then listing else []))
      ensures forall i :: |old(tasks)| <= i < |tasks| ==> fresh(tasks[i])
    {
      var entries := if dirOutputFolder.present then listing else [];
      for i := 0 to |entries|
        invariant AppendedTasks(old(tasks), Selected(masks, entries[..i]))
        invariant forall j :: |old(tasks)| <= j < |tasks| ==> fresh(tasks[j])
      {
        SelectedStep(masks, entries, i);
        ghost var before := tasks;
        if FileInfo(entries[i]).Suffix() in masks {
          StartTask(FileInfo(entries[i]));
          assert tasks == before + [tasks[|before|]];
          TasksForPush(before, old(tasks), Selected(masks, entries[..i]), tasks[|before|], entries[i]);
        }
      }
      assert entries[..|entries|] == entries;
    }

    /** `start`: validate, then discover only when validation returned false. */
    method Start(key: string, isNeedDelete: bool, conflict: ConflictMode, mode: CommonModeTreatment,
                 pathOutputFolder: string, outputExists: bool,
                 pathInputFolder: string, inputExists: bool, mask: string, listing: seq<string>)
      modifies this
      ensures incorrectParams == old(incorrectParams) + ValidationErrors(outputExists, inputExists, Utf16Length(key), SplitMask(mask))
      ensures masks == SplitMask(mask)
      ensures dirOutputFolder == Dir(pathOutputFolder, outputExists)
      ensures dirInputFolder == Dir(pathInputFolder, inputExists)
      ensures incorrectParams == [] ==>
        this.key == old(this.key) && this.isNeedDelete == old(this.isNeedDelete) &&
        this.conflict == old(this.conflict) && this.mode == old(this.mode) &&
        tasks == old(tasks)
      ensures incorrectParams != [] ==>
        this.key == key && this.isNeedDelete == isNeedDelete && this.conflict == conflict && this.mode == mode &&
        AppendedTasks(old(tasks), Selected(masks, if outputExists then listing else []))
      ensures forall i :: |old(tasks)| <= i < |tasks| ==> fresh(tasks[i])
    {
      var noErrors := GetInputParams(key, isNeedDelete, conflict, mode,
                                     pathOutputFolder, outputExists, pathInputFolder, inputExists, mask);
      if noErrors {
        return;
      }
      FindFilesByMask(listing);
    }

    /** `pause`: every worker's `paused` flag is set; nothing else changes. */
    method Pause()
      modifies tasks
      ensures forall t :: t in tasks ==> t.paused && t.stopped == old(t.stopped)
    {
      for i := 0 to |tasks|
        invariant forall j :: 0 <= j < i ==> tasks[j].paused
        invariant forall t :: t in tasks ==> t.stopped == old(t.stopped)
      {
        tasks[i].Pause();
      }
    }

    /** `stop`: every worker's `stopped` flag is set; nothing else changes. */
    method Stop()
      modifies tasks
      ensures forall t :: t in tasks ==> t.stopped && t.paused == old(t.paused)
    {
      for i := 0 to |tasks|
        invariant forall j :: 0 <= j < i ==> tasks[j].stopped
        invariant forall t :: t in tasks ==> t.paused == old(t.paused)
      {
        tasks[i].Stop();
      }
    }

    /** `resume`: every worker's `paused` flag is cleared; nothing else changes. */
    method Resume()
      modifies tasks
      ensures forall t :: t in tasks ==> !t.paused && t.stopped == old(t.stopped)
    {
      for i := 0 to |tasks|
        invariant forall j :: 0 <= j < i ==> !tasks[j].paused
        invariant forall t :: t in tasks ==> t.stopped == old(t.stopped)
      {
        tasks[i].Resume();
      }
    }
  }
}
