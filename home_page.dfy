/**
 * The upload page (src/app/page.tsx): the upload validation of
 * `handleFileChange` and `handleDrop`, and the minimal question/answer
 * splitter of `generateFlashcards`, which runs over the document's raw text.
 */
module HomePage {
  import opened Wrappers
  import opened JsString
  import opened Cards

  // ----- upload validation -----

  /** What the page reads of a browser `File`: its size in bytes and its MIME type. */
  datatype FileInfo = FileInfo(size: nat, mimeType: string)

  /** The page's upload state: the chosen file, and whether a drag is hovering over the drop zone. */
  datatype UploadState = UploadState(file: Option<FileInfo>, dragging: bool)

  /** The state after a handler, and the error toast it raised, if any. */
  datatype Outcome = Outcome(state: UploadState, toast: Option<string>)

  const MaxFileSize: nat := 10 * 1024 * 1024
  const DocxType: string := "application/vnd.openxmlformats-officedocument.wordprocessingml.document"
  const NoFileMessage: string := "Please select a file."
  const TooLargeMessage: string := "File size exceeds 10MB limit."
  const NotDocxMessage: string := "Please upload a valid DOCX file."

  /**
   * handleFileChange: `files` is the input's file list, `None` when the
   * browser gives none. The checks run in order and the first that fails
   * raises its toast and leaves the state alone.
   */
  function HandleFileChange(st: UploadState, files: Option<seq<FileInfo>>): (r: Outcome)
  {
    if files.None? then Outcome(st, None)
    else if |files.value| == 0 then Outcome(st, Some(NoFileMessage))
    else if files.value[0].size > MaxFileSize then Outcome(st, Some(TooLargeMessage))
    else if files.value[0].mimeType != DocxType then Outcome(st, Some(NotDocxMessage))
    else Outcome(UploadState(Some(files.value[0]), false), None)
  }

  /**
   * The guards in order: each toast is raised exactly when every earlier
   * check passed and its own failed; without a toast either nothing was
   * given or the first file is taken and the drag cleared, and a file is
   * taken only when it is at most 10 MiB and a DOCX.
   */
  lemma FileChangeChecks(st: UploadState, files: Option<seq<FileInfo>>)
    ensures HandleFileChange(st, files).toast == Some(NoFileMessage) <==> files.Some? && |files.value| == 0
    ensures HandleFileChange(st, files).toast == Some(TooLargeMessage) <==>
            files.Some? && |files.value| > 0 && files.value[0].size > MaxFileSize
    ensures HandleFileChange(st, files).toast == Some(NotDocxMessage) <==>
            files.Some? && |files.value| > 0 && files.value[0].size <= MaxFileSize && files.value[0].mimeType != DocxType
    ensures HandleFileChange(st, files).toast.Some? ==> HandleFileChange(st, files).state == st
    ensures HandleFileChange(st, files).toast.None? && files.Some? ==>
            HandleFileChange(st, files).state == UploadState(Some(files.value[0]), false)
    ensures HandleFileChange(st, files).state.file != st.file ==>
            HandleFileChange(st, files).state.file.Some? &&
            HandleFileChange(st, files).state.file.value.size <= MaxFileSize &&
            HandleFileChange(st, files).state.file.value.mimeType == DocxType
  {
  }

  /** handleDrop: the drag is cleared and the first dropped file, if any, is taken without any check. */
  function HandleDrop(st: UploadState, files: Option<seq<FileInfo>>): (r: UploadState)
    ensures !r.dragging
    ensures files.Some? && |files.value| > 0 ==> r.file == Some(files.value[0])
    ensures !(files.Some? && |files.value| > 0) ==> r.file == st.file
  {
    var cleared := st.(dragging := false);
    if files.Some? && |files.value| > 0 then cleared.(file := Some(files.value[0])) else cleared
  }

  /** A file the input rejects as too large and not a DOCX is taken when dropped. */
  lemma DropBypassesChecks(st: UploadState)
    ensures var f := FileInfo(MaxFileSize + 1, "image/png");
            HandleFileChange(st, Some([f])).toast == Some(TooLargeMessage) &&
            HandleDrop(st, Some([f])).file == Some(f)
  {
  }

  // ----- generateFlashcards -----

  /** The loop's variables: the cards pushed so far and the question buffer. */
  datatype BuildState = BuildState(cards: seq<Flashcard>, currentQuestion: string)

  /**
   * `parts[1].trim()` on `undefined`: with an empty flag every line holds
   * it, and a line of fewer than two UTF-16 code units splits into fewer
   * than two parts.
   */
  const UndefinedPartError: string := "TypeError: Cannot read properties of undefined (reading 'trim')"

  /** One pass of the loop body; `Failure` is the exception thrown for a line with no second part. */
  function Step(st: BuildState, line: string, flag: string): (r: Result<BuildState, string>)
  {
    if Includes(line, flag) then
      match SplitSecond(line, flag)
      case None => Failure(UndefinedPartError)
      case Some(part) =>
        var question := Trim(st.currentQuestion);
        var answer := Trim(part);
        Success(BuildState(if question != [] then st.cards + [NewCard(question, [], answer)] else st.cards, []))
    else
      Success(st.(currentQuestion := st.currentQuestion + line + "\n"))
  }

  /** The state after the given lines; a thrown exception ends the loop for good. */
  function Run(lines: seq<string>, flag: string): Result<BuildState, string>
    decreases |lines|
  {
    if lines == [] then Success(BuildState([], []))
    else match Run(lines[..|lines| - 1], flag)
      case Failure(e) => Failure(e)
      case Success(st) => Step(st, lines[|lines| - 1], flag)
  }

  /** The cards handed to `setFlashcards`, or the exception that stops the reader's `onload`. */
  function GeneratedCards(text: string, flag: string): Result<seq<Flashcard>, string> {
    match Run(SplitLines(text), flag)
    case Failure(e) => Failure(e)
    case Success(st) => Success(st.cards)
  }

  /** One pass of the loop body over `line`: the new question buffer and cards, or the exception. */
  method ProcessLine(cards: seq<Flashcard>, currentQuestion: string, line: string, flag: string)
    returns (r: Result<BuildState, string>)
    ensures r == Step(BuildState(cards, currentQuestion), line, flag)
  {
    if Includes(line, flag) {
      var parts := SplitSecond(line, flag);
      if parts.None? {
        return Failure(UndefinedPartError);
      }
      var question := Trim(currentQuestion);
      var answer := Trim(parts.value);
      var newCards := cards;
      if question != [] {
        newCards := newCards + [NewCard(question, [], answer)];
      }
      return Success(BuildState(newCards, []));
    }
    return Success(BuildState(cards, currentQuestion + line + "\n"));
  }

  /** generateFlashcards, from the extracted raw text on. */
  method GenerateFlashcards(text: string, flag: string) returns (r: Result<seq<Flashcard>, string>)
    ensures r == GeneratedCards(text, flag)
  {
    var lines := SplitLines(text);
    var newFlashcards: seq<Flashcard> := [];
    var currentQuestion: string := [];
    for i := 0 to |lines|
      invariant Run(lines[..i], flag) == Success(BuildState(newFlashcards, currentQuestion))
    {
      assert lines[..i + 1][..i] == lines[..i];
      var next := ProcessLine(newFlashcards, currentQuestion, lines[i], flag);
      if next.Failure? {
        RunFailureSticks(lines[..i + 1], lines[i + 1..], flag);
        assert lines[..i + 1] + lines[i + 1..] == lines;
        return Failure(next.error);
      }
      newFlashcards, currentQuestion := next.value.cards, next.value.currentQuestion;
    }
    assert lines[..|lines|] == lines;
    return Success(newFlashcards);
  }

  // ----- what the loop promises -----

  /** Once a line has thrown, no later line matters. */
  lemma {:induction false} RunFailureSticks(lines: seq<string>, more: seq<string>, flag: string)
    requires Run(lines, flag).Failure?
    ensures Run(lines + more, flag) == Run(lines, flag)
    decreases |more|
  {
    if more == [] {
      assert lines + more == lines;
    } else {
      RunFailureSticks(lines, more[..|more| - 1], flag);
      assert (lines + more)[..|lines + more| - 1] == lines + more[..|more| - 1];
    }
  }

  /**
   * A flag line adds a card exactly when the trimmed buffer is non-empty,
   * with that buffer as question and the trimmed text after the first flag
   * as answer; the buffer is emptied either way.
   */
  lemma AnswerLine(st: BuildState, line: string, flag: string)
    requires flag != [] && Includes(line, flag)
    ensures Step(st, line, flag).Success?
    ensures Step(st, line, flag).value.currentQuestion == []
    ensures Trim(st.currentQuestion) != [] ==>
            Step(st, line, flag).value.cards == st.cards + [NewCard(Trim(st.currentQuestion), [], Trim(SplitSecond(line, flag).value))]
    ensures Trim(st.currentQuestion) == [] ==> Step(st, line, flag).value.cards == st.cards
  {
  }

  /** Any other line, empty ones included, goes into the buffer with a newline. */
  lemma TextLine(st: BuildState, line: string, flag: string)
    requires !Includes(line, flag)
    ensures Step(st, line, flag) == Success(BuildState(st.cards, st.currentQuestion + line + "\n"))
  {
  }

  /** The number of lines holding the flag. */
  function FlagLines(lines: seq<string>, flag: string): (c: nat)
    ensures c <= |lines|
    decreases |lines|
  {
    if lines == [] then 0
    else FlagLines(lines[..|lines| - 1], flag) + (if Includes(lines[|lines| - 1], flag) then 1 else 0)
  }

  /**
   * With a non-empty flag nothing throws; there are never more cards than
   * flag lines, and each card's question is non-empty and trimmed.
   */
  lemma {:induction false} RunCardsBounded(lines: seq<string>, flag: string)
    requires flag != []
    ensures Run(lines, flag).Success?
    ensures |Run(lines, flag).value.cards| <= FlagLines(lines, flag)
    ensures forall k :: 0 <= k < |Run(lines, flag).value.cards| ==>
              Run(lines, flag).value.cards[k].question != [] && IsTrimmed(Run(lines, flag).value.cards[k].question)
    decreases |lines|
  {
    if lines != [] {
      var prefix := lines[..|lines| - 1];
      var line := lines[|lines| - 1];
      RunCardsBounded(prefix, flag);
      var st := Run(prefix, flag).value;
      if Includes(line, flag) {
        AnswerLine(st, line, flag);
      } else {
        TextLine(st, line, flag);
      }
    }
  }

  /**
   * With an empty flag, a line throws exactly when it has fewer than two
   * UTF-16 code units; otherwise its answer is its second code unit, trimmed.
   */
  lemma EmptyFlagStep(st: BuildState, line: string)
    ensures Step(st, line, []).Failure? <==> Utf16Length(line) < 2
    ensures Step(st, line, []).Success? ==>
              Step(st, line, []).value.currentQuestion == [] &&
              (Trim(st.currentQuestion) != [] ==>
                Step(st, line, []).value.cards == st.cards + [NewCard(Trim(st.currentQuestion), [], Trim([SecondCodeUnit(line)]))])
  {
    assert Includes(line, []) by {
      assert MatchAt(line, [], 0);
    }
  }

  /** A line of one character above U+FFFF holds two code units, so with an empty flag it does not throw. */
  lemma EmptyFlagAstralLine(st: BuildState)
    ensures Step(st, "\U{1F600}", []).Success?
  {
    assert Utf16Length("\U{1F600}") == 2;
    EmptyFlagStep(st, "\U{1F600}");
  }

  /** An empty flag throws at the first line of fewer than two UTF-16 code units, whatever came before. */
  lemma EmptyFlagThrows(lines: seq<string>, line: string)
    requires Utf16Length(line) < 2 && Run(lines, []).Success?
    ensures Run(lines + [line], []) == Failure(UndefinedPartError)
  {
    assert (lines + [line])[..|lines|] == lines;
    assert Includes(line, []) by {
      assert MatchAt(line, [], 0);
    }
  }

  /** Text after the last flag line only fills the buffer: it never becomes a card. */
  lemma {:induction false} TrailingTextDropped(lines: seq<string>, tail: seq<string>, flag: string)
    requires Run(lines, flag).Success?
    requires forall k :: 0 <= k < |tail| ==> !Includes(tail[k], flag)
    ensures Run(lines + tail, flag).Success?
    ensures Run(lines + tail, flag).value.cards == Run(lines, flag).value.cards
    decreases |tail|
  {
    if tail == [] {
      assert lines + tail == lines;
    } else {
      var front := tail[..|tail| - 1];
      TrailingTextDropped(lines, front, flag);
      assert (lines + tail)[..|lines + tail| - 1] == lines + front;
      assert (lines + tail)[|lines + tail| - 1] == tail[|tail| - 1];
      TextLine(Run(lines + front, flag).value, tail[|tail| - 1], flag);
    }
  }
}
