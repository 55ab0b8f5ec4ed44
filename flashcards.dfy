/**
 * The flash-card page's builder (src/app/flashcards/FlashCards.tsx,
 * `fetchAndBuildFlashcards`): the saved plain text is split into lines and
 * folded into question/answer cards; rationale lines attach either an
 * extracted image, matched by the ordinal of the rationale line, or the
 * rationale text to the last card.
 */
module FlashCardsPage {
  import opened Wrappers
  import opened JsString
  import opened Cards

  /** A `rationale_images` row as `getRationaleImageByDocument` returns it. */
  datatype ImageRow = ImageRow(rationaleIndex: Option<nat>, imageUrl: string, createdAt: nat)

  /** The order of `getRationaleImageByDocument`: newest first. */
  predicate NewestFirst(images: seq<ImageRow>) {
    forall a, b :: 0 <= a < b < |images| ==> images[a].createdAt >= images[b].createdAt
  }

  /** The position of the first row at or after `from` with the given rationale index. */
  function FindFrom(images: seq<ImageRow>, index: nat, from: nat): (r: Option<nat>)
    requires from <= |images|
    ensures r.Some? ==> from <= r.value < |images| && images[r.value].rationaleIndex == Some(index)
    ensures r.Some? ==> forall m :: from <= m < r.value ==> images[m].rationaleIndex != Some(index)
    ensures r.None? ==> forall m :: from <= m < |images| ==> images[m].rationaleIndex != Some(index)
    decreases |images| - from
  {
    if from == |images| then None
    else if images[from].rationaleIndex == Some(index) then Some(from)
    else FindFrom(images, index, from + 1)
  }

  /** `rationaleImages.find(img => img.rationale_index === index)` */
  function FindImage(images: seq<ImageRow>, index: nat): (r: Option<ImageRow>)
  {
    match FindFrom(images, index, 0)
    case None => None
    case Some(k) => Some(images[k])
  }

  /** With the rows newest first, the image found is the newest one with that index. */
  lemma NewestImageWins(images: seq<ImageRow>, index: nat, k: nat)
    requires NewestFirst(images)
    requires k < |images| && images[k].rationaleIndex == Some(index)
    ensures FindImage(images, index).Some?
    ensures FindImage(images, index).value.rationaleIndex == Some(index)
    ensures FindImage(images, index).value.createdAt >= images[k].createdAt
  {
    var f := FindFrom(images, index, 0);
    assert f.Some?;
    assert f.value <= k;
  }

  // ----- the line loop -----

  datatype BuildState = BuildState(cards: seq<Flashcard>, currentQuestion: string, rationaleIndex: nat)

  /** The last card with its rationale image set. */
  function WithLastImage(cards: seq<Flashcard>, url: string): seq<Flashcard>
    requires |cards| > 0
  {
    cards[|cards| - 1 := cards[|cards| - 1].(rationaleImage := url)]
  }

  /** The last card with its text rationale set. */
  function WithLastRationale(cards: seq<Flashcard>, text: string): seq<Flashcard>
    requires |cards| > 0
  {
    cards[|cards| - 1 := cards[|cards| - 1].(rationale := text)]
  }

  /** The line is an answer line: it contains the answer flag. */
  predicate IsAnswerLine(line: string, flag: string) {
    Includes(line, flag)
  }

  /** The line is a rationale line: no answer flag, and a set rationale flag inside. */
  predicate IsRationaleLine(line: string, flag: string, rationaleFlag: string) {
    !Includes(line, flag) && rationaleFlag != [] && Includes(line, rationaleFlag)
  }

  /** One pass of the loop body. */
  function Step(st: BuildState, line: string, flag: string, rationaleFlag: string, images: seq<ImageRow>): (r: BuildState)
    requires flag != []
  {
    if Includes(line, flag) then
      var question := Trim(st.currentQuestion);
      var answer := Trim(SplitSecond(line, flag).value);
      BuildState(if question != [] then st.cards + [NewCard(question, [], answer)] else st.cards, [], st.rationaleIndex)
    else if rationaleFlag != [] && Includes(line, rationaleFlag) then
      var cards :=
        match FindImage(images, st.rationaleIndex)
        case Some(image) => if |st.cards| > 0 then WithLastImage(st.cards, image.imageUrl) else st.cards
        case None =>
          if |st.cards| > 0 then WithLastRationale(st.cards, Trim(SplitSecond(line, rationaleFlag).value)) else st.cards;
      BuildState(cards, st.currentQuestion, st.rationaleIndex + 1)
    else if Trim(line) != [] then
      st.(currentQuestion := st.currentQuestion + line + "\n")
    else st
  }

  /** The state after the given lines, from no cards, an empty buffer and index 0. */
  function Run(lines: seq<string>, flag: string, rationaleFlag: string, images: seq<ImageRow>): BuildState
    requires flag != []
    decreases |lines|
  {
    if lines == [] then BuildState([], [], 0)
    else Step(Run(lines[..|lines| - 1], flag, rationaleFlag, images), lines[|lines| - 1], flag, rationaleFlag, images)
  }

  /** The cards handed to `setFlashcards`; `None` when the answer flag is unset and nothing is built. */
  function Flashcards(content: string, flag: string, rationaleFlag: string, images: seq<ImageRow>): Option<seq<Flashcard>> {
    if flag == [] then None else Some(Run(SplitLines(content), flag, rationaleFlag, images).cards)
  }

  /** fetchAndBuildFlashcards, once the document and its images are loaded. */
  method BuildFlashcards(content: string, flag: string, rationaleFlag: string, rationaleImages: seq<ImageRow>)
    returns (r: Option<seq<Flashcard>>)
    ensures r == Flashcards(content, flag, rationaleFlag, rationaleImages)
  {
    if flag == [] {
      return None;
    }
    var lines := SplitLines(content);
    var newFlashcards: seq<Flashcard> := [];
    var currentQuestion: string := [];
    var rationaleIndex: nat := 0;
    for i := 0 to |lines|
      invariant BuildState(newFlashcards, currentQuestion, rationaleIndex) == Run(lines[..i], flag, rationaleFlag, rationaleImages)
    {
      var line := lines[i];
      assert lines[..i + 1][..i] == lines[..i];
      if Includes(line, flag) {
        var parts := SplitSecond(line, flag);
        var question := Trim(currentQuestion);
        var answer := Trim(parts.value);
        if question != [] {
          newFlashcards := newFlashcards + [NewCard(question, [], answer)];
        }
        currentQuestion := [];
      } else if rationaleFlag != [] && Includes(line, rationaleFlag) {
        var parts := SplitSecond(line, rationaleFlag);
        var image := FindImage(rationaleImages, rationaleIndex);
        if image.Some? && |newFlashcards| > 0 {
          newFlashcards := WithLastImage(newFlashcards, image.value.imageUrl);
        } else if |newFlashcards| > 0 {
          newFlashcards := WithLastRationale(newFlashcards, Trim(parts.value));
        }
        rationaleIndex := rationaleIndex + 1;
      } else if Trim(line) != [] {
        currentQuestion := currentQuestion + line + "\n";
      }
    }
    assert lines[..|lines|] == lines;
    return Some(newFlashcards);
  }

  // ----- what the loop promises -----

  /**
   * An answer line closes the question: a card is added exactly when the
   * trimmed buffer is non-empty, carrying the trimmed text after the flag
   * (periods kept); the buffer is emptied either way and no rationale moves,
   * even when the line also holds the rationale flag.
   */
  lemma AnswerLine(st: BuildState, line: string, flag: string, rationaleFlag: string, images: seq<ImageRow>)
    requires flag != [] && IsAnswerLine(line, flag)
    ensures var r := Step(st, line, flag, rationaleFlag, images);
            r.currentQuestion == [] && r.rationaleIndex == st.rationaleIndex &&
            (Trim(st.currentQuestion) != [] ==>
              r.cards == st.cards + [NewCard(Trim(st.currentQuestion), [], Trim(SplitSecond(line, flag).value))]) &&
            (Trim(st.currentQuestion) == [] ==> r.cards == st.cards)
  {
  }

  /**
   * A rationale line with an image for the current index sets the last card's
   * image and leaves its text rationale alone; without one it overwrites the
   * text rationale; before any card it changes no card. The index advances
   * in every case.
   */
  lemma RationaleLine(st: BuildState, line: string, flag: string, rationaleFlag: string, images: seq<ImageRow>)
    requires flag != [] && IsRationaleLine(line, flag, rationaleFlag)
    ensures var r := Step(st, line, flag, rationaleFlag, images);
            var image := FindImage(images, st.rationaleIndex);
            r.rationaleIndex == st.rationaleIndex + 1 && r.currentQuestion == st.currentQuestion &&
            |r.cards| == |st.cards| &&
            (forall k :: 0 <= k < |st.cards| - 1 ==> r.cards[k] == st.cards[k]) &&
            (forall k :: 0 <= k < |st.cards| ==>
              r.cards[k].question == st.cards[k].question && r.cards[k].choices == st.cards[k].choices &&
              r.cards[k].answer == st.cards[k].answer) &&
            (|st.cards| > 0 && image.Some? ==>
              r.cards[|st.cards| - 1].rationaleImage == image.value.imageUrl &&
              r.cards[|st.cards| - 1].rationale == st.cards[|st.cards| - 1].rationale) &&
            (|st.cards| > 0 && image.None? ==>
              r.cards[|st.cards| - 1].rationale == Trim(SplitSecond(line, rationaleFlag).value) &&
              r.cards[|st.cards| - 1].rationaleImage == st.cards[|st.cards| - 1].rationaleImage)
  {
  }

  /** Any other non-blank line is appended untrimmed with a line feed; a blank line changes nothing. */
  lemma TextLine(st: BuildState, line: string, flag: string, rationaleFlag: string, images: seq<ImageRow>)
    requires flag != [] && !IsAnswerLine(line, flag) && !IsRationaleLine(line, flag, rationaleFlag)
    ensures var r := Step(st, line, flag, rationaleFlag, images);
            r.cards == st.cards && r.rationaleIndex == st.rationaleIndex &&
            r.currentQuestion == (if Trim(line) != [] then st.currentQuestion + line + "\n" else st.currentQuestion)
  {
  }

  /** The number of rationale lines among `lines`. */
  function RationaleLines(lines: seq<string>, flag: string, rationaleFlag: string): nat
    decreases |lines|
  {
    if lines == [] then 0
    else RationaleLines(lines[..|lines| - 1], flag, rationaleFlag) +
         (if IsRationaleLine(lines[|lines| - 1], flag, rationaleFlag) then 1 else 0)
  }

  /** The number of answer lines among `lines`. */
  function AnswerLines(lines: seq<string>, flag: string): nat
    decreases |lines|
  {
    if lines == [] then 0
    else AnswerLines(lines[..|lines| - 1], flag) + (if IsAnswerLine(lines[|lines| - 1], flag) then 1 else 0)
  }

  /**
   * The image index is the number of rationale lines so far, whether or not
   * a card or an image was there for them; and there are never more cards
   * than answer lines.
   */
  lemma {:induction false} RunCounts(lines: seq<string>, flag: string, rationaleFlag: string, images: seq<ImageRow>)
    requires flag != []
    ensures Run(lines, flag, rationaleFlag, images).rationaleIndex == RationaleLines(lines, flag, rationaleFlag)
    ensures |Run(lines, flag, rationaleFlag, images).cards| <= AnswerLines(lines, flag)
    decreases |lines|
  {
    if lines != [] {
      RunCounts(lines[..|lines| - 1], flag, rationaleFlag, images);
    }
  }

  /** A flash card as this page builds it: a non-empty, trimmed question and no choices. */
  predicate CardOk(c: Flashcard) {
    c.question != [] && IsTrimmed(c.question) && c.choices == []
  }

  /** Every card built has a non-empty, trimmed question and no choices. */
  lemma {:induction false} RunCardsWellFormed(lines: seq<string>, flag: string, rationaleFlag: string, images: seq<ImageRow>)
    requires flag != []
    ensures forall k :: 0 <= k < |Run(lines, flag, rationaleFlag, images).cards| ==>
              CardOk(Run(lines, flag, rationaleFlag, images).cards[k])
    decreases |lines|
  {
    if lines != [] {
      var prev := Run(lines[..|lines| - 1], flag, rationaleFlag, images);
      var line := lines[|lines| - 1];
      var cards := Run(lines, flag, rationaleFlag, images).cards;
      RunCardsWellFormed(lines[..|lines| - 1], flag, rationaleFlag, images);
      if IsAnswerLine(line, flag) {
        AnswerLine(prev, line, flag, rationaleFlag, images);
        assert forall k :: 0 <= k < |prev.cards| ==> cards[k] == prev.cards[k];
      } else if IsRationaleLine(line, flag, rationaleFlag) {
        RationaleLine(prev, line, flag, rationaleFlag, images);
        assert forall k :: 0 <= k < |cards| ==> cards[k].question == prev.cards[k].question && cards[k].choices == prev.cards[k].choices;
      } else {
        TextLine(prev, line, flag, rationaleFlag, images);
      }
    }
  }
}
