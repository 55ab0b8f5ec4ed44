/**
 * The multiple-choice page (src/app/multiple-choice/MultipleChoice.tsx):
 * `fetchAndBuildMultipleChoice`, which folds the saved plain text into cards
 * with choices and carries the quiz state of cards already in the context
 * over to rebuilt cards with the same question, and `handleChoiceSelected`.
 */
module MultipleChoicePage {
  import opened Wrappers
  import opened JsString
  import opened Cards

  // ----- carrying quiz state over -----

  /** The position of the first card at or after `from` whose question is `question`. */
  function FindQuestionFrom(cards: seq<Flashcard>, question: string, from: nat): (r: Option<nat>)
    requires from <= |cards|
    ensures r.Some? ==> from <= r.value < |cards| && cards[r.value].question == question
    ensures r.Some? ==> forall m :: from <= m < r.value ==> cards[m].question != question
    ensures r.None? ==> forall m :: from <= m < |cards| ==> cards[m].question != question
    decreases |cards| - from
  {
    if from == |cards| then None
    else if cards[from].question == question then Some(from)
    else FindQuestionFrom(cards, question, from + 1)
  }

  /** A new card takes `selectedAnswer` and `isRevealed` from the first existing card with its question. */
  function CarryOver(card: Flashcard, existing: seq<Flashcard>): (r: Flashcard)
  {
    match FindQuestionFrom(existing, card.question, 0)
    case None => card
    case Some(k) => card.(selectedAnswer := existing[k].selectedAnswer, isRevealed := existing[k].isRevealed)
  }

  /**
   * Only the quiz state is copied, from the first card with an identical
   * question; with none, the new card keeps its own (unset) state.
   */
  lemma CarryOverFirstMatch(card: Flashcard, existing: seq<Flashcard>)
    ensures var r := CarryOver(card, existing);
            r.question == card.question && r.choices == card.choices && r.answer == card.answer &&
            r.rationale == card.rationale && r.rationaleImage == card.rationaleImage
    ensures (forall m :: 0 <= m < |existing| ==> existing[m].question != card.question) ==>
            CarryOver(card, existing) == card
    ensures forall k :: (0 <= k < |existing| && existing[k].question == card.question &&
                         (forall m :: 0 <= m < k ==> existing[m].question != card.question)) ==>
              CarryOver(card, existing).selectedAnswer == existing[k].selectedAnswer &&
              CarryOver(card, existing).isRevealed == existing[k].isRevealed
  {
    var f := FindQuestionFrom(existing, card.question, 0);
    if f.Some? {
      forall k | 0 <= k < |existing| && existing[k].question == card.question &&
                 (forall m :: 0 <= m < k ==> existing[m].question != card.question)
        ensures k == f.value
      {
      }
    }
  }

  // ----- the line loop -----

  /**
   * The loop's variables: the cards pushed so far, the question buffer, the
   * pending choices and `lastFlashcardIndex` (-1 before the first card).
   */
  datatype BuildState = BuildState(cards: seq<Flashcard>, currentQuestion: string, choices: seq<Choice>, lastFlashcardIndex: int)

  /** `lastFlashcardIndex` points at the newest card, or is -1 when there is none. */
  predicate Valid(st: BuildState) {
    st.lastFlashcardIndex == |st.cards| - 1
  }

  /** `/^[A-Z]\./` on the untrimmed line; the choice is its first character and the rest after two, trimmed. */
  function ChoiceOf(line: string): (c: Choice)
    requires IsChoiceMarker(line)
    ensures 'A' <= c.letter <= 'Z' && IsTrimmed(c.text)
  {
    Choice(line[0], Trim(line[2..]))
  }

  /** The answer: the text after the flag, trimmed, its first period removed. */
  function AnswerOf(line: string, flag: string): string
    requires flag != [] && Includes(line, flag)
  {
    ReplaceFirstDot(Trim(SplitSecond(line, flag).value))
  }

  /** One pass of the loop body; it keeps `lastFlashcardIndex` on the newest card. */
  function Step(st: BuildState, line: string, flag: string, rationaleFlag: string, existing: seq<Flashcard>): (r: BuildState)
    requires flag != [] && Valid(st)
    ensures Valid(r)
  {
    if IsChoiceMarker(line) then
      st.(choices := st.choices + [ChoiceOf(line)])
    else if Includes(line, flag) then
      var answer := AnswerOf(line, flag);
      if st.currentQuestion != [] && |st.choices| > 0 then
        var card := CarryOver(NewCard(st.currentQuestion, st.choices, answer), existing);
        BuildState(st.cards + [card], [], [], |st.cards|)
      else
        BuildState(st.cards, [], [], st.lastFlashcardIndex)
    else if rationaleFlag != [] && Includes(line, rationaleFlag) then
      var rationale := Trim(SplitSecond(line, rationaleFlag).value);
      if st.lastFlashcardIndex != -1 then
        st.(cards := st.cards[st.lastFlashcardIndex := st.cards[st.lastFlashcardIndex].(rationale := rationale)])
      else st
    else if Trim(line) != [] then
      st.(currentQuestion := st.currentQuestion + line + "\n")
    else st
  }

  /** The state after the given lines. */
  function Run(lines: seq<string>, flag: string, rationaleFlag: string, existing: seq<Flashcard>): (r: BuildState)
    requires flag != []
    ensures Valid(r)
    decreases |lines|
  {
    if lines == [] then BuildState([], [], [], -1)
    else Step(Run(lines[..|lines| - 1], flag, rationaleFlag, existing), lines[|lines| - 1], flag, rationaleFlag, existing)
  }

  /** The cards handed to `setFlashcards`; `None` when the answer flag is unset and nothing is built. */
  function MultipleChoiceCards(content: string, flag: string, rationaleFlag: string, existing: seq<Flashcard>): Option<seq<Flashcard>> {
    if flag == [] then None else Some(Run(SplitLines(content), flag, rationaleFlag, existing).cards)
  }

  /** fetchAndBuildMultipleChoice, once the document is loaded; `existing` is the context's cards. */
  method BuildMultipleChoice(content: string, flag: string, rationaleFlag: string, existing: seq<Flashcard>)
    returns (r: Option<seq<Flashcard>>)
    ensures r == MultipleChoiceCards(content, flag, rationaleFlag, existing)
  {
    if flag == [] {
      return None;
    }
    var lines := SplitLines(content);
    var newFlashcards: seq<Flashcard> := [];
    var currentQuestion: string := [];
    var choices: seq<Choice> := [];
    var lastFlashcardIndex := -1;
    for i := 0 to |lines|
      invariant BuildState(newFlashcards, currentQuestion, choices, lastFlashcardIndex) ==
                Run(lines[..i], flag, rationaleFlag, existing)
    {
      assert lines[..i + 1][..i] == lines[..i];
      newFlashcards, currentQuestion, choices, lastFlashcardIndex :=
        ProcessLine(newFlashcards, currentQuestion, choices, lastFlashcardIndex, lines[i], flag, rationaleFlag, existing);
    }
    assert lines[..|lines|] == lines;
    return Some(newFlashcards);
  }

  /** The loop body for one line, on the loop's four variables. */
  method ProcessLine(newFlashcards: seq<Flashcard>, currentQuestion: string, choices: seq<Choice>, lastFlashcardIndex: int,
                     line: string, flag: string, rationaleFlag: string, existing: seq<Flashcard>)
    returns (newFlashcards': seq<Flashcard>, currentQuestion': string, choices': seq<Choice>, lastFlashcardIndex': int)
    requires flag != [] && lastFlashcardIndex == |newFlashcards| - 1
    ensures BuildState(newFlashcards', currentQuestion', choices', lastFlashcardIndex') ==
            Step(BuildState(newFlashcards, currentQuestion, choices, lastFlashcardIndex), line, flag, rationaleFlag, existing)
  {
    newFlashcards', currentQuestion', choices', lastFlashcardIndex' := newFlashcards, currentQuestion, choices, lastFlashcardIndex;
    if IsChoiceMarker(line) {
      choices' := choices + [Choice(line[0], Trim(line[2..]))];
    } else if Includes(line, flag) {
      var answer := ReplaceFirstDot(Trim(SplitSecond(line, flag).value));
      if currentQuestion != [] && |choices| > 0 {
        var newCard := NewCard(currentQuestion, choices, answer);
        var existingCard := FindQuestionFrom(existing, newCard.question, 0);
        if existingCard.Some? {
          newCard := newCard.(selectedAnswer := existing[existingCard.value].selectedAnswer,
                              isRevealed := existing[existingCard.value].isRevealed);
        }
        newFlashcards' := newFlashcards + [newCard];
        lastFlashcardIndex' := |newFlashcards'| - 1;
      }
      currentQuestion' := [];
      choices' := [];
    } else if rationaleFlag != [] && Includes(line, rationaleFlag) {
      var rationale := Trim(SplitSecond(line, rationaleFlag).value);
      if lastFlashcardIndex != -1 {
        newFlashcards' := newFlashcards[lastFlashcardIndex := newFlashcards[lastFlashcardIndex].(rationale := rationale)];
      }
    } else if Trim(line) != [] {
      currentQuestion' := currentQuestion + line + "\n";
    }
  }

  // ----- what the loop promises -----

  /** A choice line is a choice even when it also holds the answer flag. */
  lemma ChoiceLine(st: BuildState, line: string, flag: string, rationaleFlag: string, existing: seq<Flashcard>)
    requires flag != [] && Valid(st) && IsChoiceMarker(line)
    ensures Step(st, line, flag, rationaleFlag, existing) ==
            st.(choices := st.choices + [Choice(line[0], Trim(line[2..]))])
  {
  }

  /**
   * An answer line adds a card exactly when the buffer is non-empty and a
   * choice is pending (an empty answer is allowed); the card has the
   * untrimmed buffer as question and the pending choices in order. Buffer
   * and choices are emptied either way.
   */
  lemma AnswerLine(st: BuildState, line: string, flag: string, rationaleFlag: string, existing: seq<Flashcard>)
    requires flag != [] && Valid(st) && !IsChoiceMarker(line) && Includes(line, flag)
    ensures var r := Step(st, line, flag, rationaleFlag, existing);
            r.currentQuestion == [] && r.choices == [] &&
            (st.currentQuestion != [] && |st.choices| > 0 ==>
              |r.cards| == |st.cards| + 1 && r.cards[..|st.cards|] == st.cards &&
              r.cards[|st.cards|].question == st.currentQuestion &&
              r.cards[|st.cards|].choices == st.choices &&
              r.cards[|st.cards|].answer == AnswerOf(line, flag) &&
              r.cards[|st.cards|].rationale == []) &&
            (!(st.currentQuestion != [] && |st.choices| > 0) ==> r.cards == st.cards)
  {
    if st.currentQuestion != [] && |st.choices| > 0 {
      CarryOverFirstMatch(NewCard(st.currentQuestion, st.choices, AnswerOf(line, flag)), existing);
      var r := Step(st, line, flag, rationaleFlag, existing);
      assert r.cards[..|st.cards|] == st.cards;
    }
  }

  /**
   * A rationale line overwrites the newest card's rationale with the trimmed
   * text after the flag, even an empty one; before any card it is a no-op.
   */
  lemma RationaleLine(st: BuildState, line: string, flag: string, rationaleFlag: string, existing: seq<Flashcard>)
    requires flag != [] && Valid(st) && !IsChoiceMarker(line) && !Includes(line, flag)
    requires rationaleFlag != [] && Includes(line, rationaleFlag)
    ensures var r := Step(st, line, flag, rationaleFlag, existing);
            r.currentQuestion == st.currentQuestion && r.choices == st.choices && |r.cards| == |st.cards| &&
            (|st.cards| == 0 ==> r == st) &&
            (|st.cards| > 0 ==>
              r.cards[..|st.cards| - 1] == st.cards[..|st.cards| - 1] &&
              r.cards[|st.cards| - 1] == st.cards[|st.cards| - 1].(rationale := Trim(SplitSecond(line, rationaleFlag).value)))
  {
    if |st.cards| > 0 {
      var r := Step(st, line, flag, rationaleFlag, existing);
      assert r.cards[..|st.cards| - 1] == st.cards[..|st.cards| - 1];
    }
  }

  /** A card of this page: a non-empty question and at least one choice, each with an upper-case letter. */
  predicate CardOk(c: Flashcard) {
    c.question != [] && |c.choices| > 0 && forall j :: 0 <= j < |c.choices| ==> 'A' <= c.choices[j].letter <= 'Z'
  }

  /** Pending choices all carry an upper-case letter. */
  predicate ChoicesOk(choices: seq<Choice>) {
    forall j :: 0 <= j < |choices| ==> 'A' <= choices[j].letter <= 'Z'
  }

  /** Every card of a deck is a well-formed card of this page. */
  predicate AllCardsOk(cards: seq<Flashcard>) {
    forall k :: 0 <= k < |cards| ==> CardOk(cards[k])
  }

  /** Appending a well-formed card keeps a deck well formed. */
  lemma AppendCardOk(cards: seq<Flashcard>, card: Flashcard)
    requires AllCardsOk(cards) && CardOk(card)
    ensures AllCardsOk(cards + [card])
  {
    assert forall k :: 0 <= k < |cards| ==> (cards + [card])[k] == cards[k];
  }

  /** Overwriting a card with a well-formed one keeps a deck well formed. */
  lemma UpdateCardOk(cards: seq<Flashcard>, j: nat, card: Flashcard)
    requires AllCardsOk(cards) && j < |cards| && CardOk(card)
    ensures AllCardsOk(cards[j := card])
  {
  }

  /** One line keeps every card well formed and every pending choice lettered. */
  lemma StepWellFormed(st: BuildState, line: string, flag: string, rationaleFlag: string, existing: seq<Flashcard>)
    requires flag != [] && Valid(st) && ChoicesOk(st.choices) && AllCardsOk(st.cards)
    ensures ChoicesOk(Step(st, line, flag, rationaleFlag, existing).choices)
    ensures AllCardsOk(Step(st, line, flag, rationaleFlag, existing).cards)
  {
    var r := Step(st, line, flag, rationaleFlag, existing);
    if IsChoiceMarker(line) {
      ChoiceLine(st, line, flag, rationaleFlag, existing);
      assert r.choices == st.choices + [Choice(line[0], Trim(line[2..]))];
    } else if Includes(line, flag) {
      if st.currentQuestion != [] && |st.choices| > 0 {
        var built := NewCard(st.currentQuestion, st.choices, AnswerOf(line, flag));
        CarryOverFirstMatch(built, existing);
        assert r.cards == st.cards + [CarryOver(built, existing)];
        AppendCardOk(st.cards, CarryOver(built, existing));
      } else {
        assert r.cards == st.cards;
      }
    } else if rationaleFlag != [] && Includes(line, rationaleFlag) {
      if st.lastFlashcardIndex != -1 {
        var j := st.lastFlashcardIndex;
        var card := st.cards[j].(rationale := Trim(SplitSecond(line, rationaleFlag).value));
        assert CardOk(st.cards[j]);
        assert r.cards == st.cards[j := card];
        UpdateCardOk(st.cards, j, card);
      }
    }
  }

  /** Every card built has a question and at least one lettered choice. */
  lemma {:induction false} RunCardsWellFormed(lines: seq<string>, flag: string, rationaleFlag: string, existing: seq<Flashcard>)
    requires flag != []
    ensures ChoicesOk(Run(lines, flag, rationaleFlag, existing).choices)
    ensures AllCardsOk(Run(lines, flag, rationaleFlag, existing).cards)
    decreases |lines|
  {
    if lines != [] {
      RunCardsWellFormed(lines[..|lines| - 1], flag, rationaleFlag, existing);
      StepWellFormed(Run(lines[..|lines| - 1], flag, rationaleFlag, existing), lines[|lines| - 1], flag, rationaleFlag, existing);
    }
  }

  // ----- handleChoiceSelected -----

  /** handleChoiceSelected: a copy of the cards in which the current one records the choice and is revealed. */
  function SelectChoice(cards: seq<Flashcard>, currentIndex: nat, selectedChoice: string): (r: seq<Flashcard>)
    requires currentIndex < |cards|
    ensures |r| == |cards|
    ensures forall k :: 0 <= k < |cards| && k != currentIndex ==> r[k] == cards[k]
    ensures r[currentIndex].selectedAnswer == Some(selectedChoice) && r[currentIndex].isRevealed
    ensures r[currentIndex].question == cards[currentIndex].question && r[currentIndex].choices == cards[currentIndex].choices
    ensures r[currentIndex].answer == cards[currentIndex].answer && r[currentIndex].rationale == cards[currentIndex].rationale
    ensures r[currentIndex].rationaleImage == cards[currentIndex].rationaleImage
  {
    cards[currentIndex := cards[currentIndex].(selectedAnswer := Some(selectedChoice), isRevealed := true)]
  }

  /** Selecting the same choice again changes nothing. */
  lemma SelectChoiceIdempotent(cards: seq<Flashcard>, currentIndex: nat, selectedChoice: string)
    requires currentIndex < |cards|
    ensures SelectChoice(SelectChoice(cards, currentIndex, selectedChoice), currentIndex, selectedChoice) ==
            SelectChoice(cards, currentIndex, selectedChoice)
  {
  }

  /** A rebuilt deck keeps the selection made on a card with the same question. */
  lemma SelectionSurvivesRebuild(cards: seq<Flashcard>, currentIndex: nat, selectedChoice: string, card: Flashcard)
    requires currentIndex < |cards|
    requires card.question == cards[currentIndex].question
    requires forall m :: 0 <= m < currentIndex ==> cards[m].question != card.question
    ensures CarryOver(card, SelectChoice(cards, currentIndex, selectedChoice)).selectedAnswer == Some(selectedChoice)
    ensures CarryOver(card, SelectChoice(cards, currentIndex, selectedChoice)).isRevealed
  {
    var s := SelectChoice(cards, currentIndex, selectedChoice);
    CarryOverFirstMatch(card, s);
    assert forall m :: 0 <= m < currentIndex ==> s[m].question != card.question;
  }
}
