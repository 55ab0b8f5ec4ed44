/**
 * The multiple-choice card (src/app/components/MultipleChoiceCard.tsx): the
 * click guard that locks the answer once the card is revealed, the colour
 * class of each choice button, and which rationale is shown.
 */
module ChoiceCardView {
  import opened Wrappers
  import opened Cards
  import MultipleChoicePage

  /** `onChoiceSelected(choice)` when the card is not revealed yet; `None` when the click is ignored. */
  function HandleChoiceClick(card: Flashcard, choice: string): (r: Option<string>)
  {
    if !card.isRevealed then Some(choice) else None
  }

  /** The button's `disabled` attribute. */
  predicate Disabled(card: Flashcard) {
    card.isRevealed
  }

  /** A click reaches the page exactly when the button is enabled, and passes the clicked letter on unchanged. */
  lemma ClickIffEnabled(card: Flashcard, choice: string)
    ensures HandleChoiceClick(card, choice).Some? <==> !Disabled(card)
    ensures HandleChoiceClick(card, choice).Some? ==> HandleChoiceClick(card, choice).value == choice
  {
  }

  /**
   * Once a choice is selected the card is revealed, so no later click on it
   * reaches the page and the selection stays as it is.
   */
  lemma AnswerLocked(cards: seq<Flashcard>, currentIndex: nat, selected: string, clicked: string)
    requires currentIndex < |cards|
    ensures HandleChoiceClick(MultipleChoicePage.SelectChoice(cards, currentIndex, selected)[currentIndex], clicked).None?
    ensures Disabled(MultipleChoicePage.SelectChoice(cards, currentIndex, selected)[currentIndex])
  {
  }

  /** `choice.letter === card.answer` */
  predicate IsCorrect(card: Flashcard, c: Choice) {
    [c.letter] == card.answer
  }

  /** `choice.letter === card.selectedAnswer` (never true while nothing is selected). */
  predicate IsSelected(card: Flashcard, c: Choice) {
    card.selectedAnswer == Some([c.letter])
  }

  const BaseClass: string := "w-full text-left p-2 rounded-md cursor-pointer transition-colors "
  const Green: string := "bg-green-500"
  const Red: string := "bg-red-500"
  const Gray: string := "bg-gray-700"
  const Neutral: string := "bg-gray-700 hover:bg-gray-600"

  /**
   * The class appended to the base class of a choice's button. On a revealed
   * card the correct choice is green whatever was selected, a wrong selected
   * choice is red, and every other choice gray; on an unrevealed card every
   * choice has the neutral hover class.
   */
  function ColorClass(card: Flashcard, c: Choice): (r: string)
    ensures r == Green <==> card.isRevealed && IsCorrect(card, c)
    ensures r == Red <==> card.isRevealed && !IsCorrect(card, c) && IsSelected(card, c)
    ensures r == Gray <==> card.isRevealed && !IsCorrect(card, c) && !IsSelected(card, c)
    ensures r == Neutral <==> !card.isRevealed
  {
    if card.isRevealed then
      if IsCorrect(card, c) then Green
      else if IsSelected(card, c) then Red
      else Gray
    else Neutral
  }

  /** buttonClass */
  function ButtonClass(card: Flashcard, c: Choice): (r: string)
    ensures |r| > |BaseClass| && r[..|BaseClass|] == BaseClass
  {
    BaseClass + ColorClass(card, c)
  }

  /** The colour can be read back from the class string. */
  lemma ButtonClassDetermined(card: Flashcard, c: Choice, card': Flashcard, c': Choice)
    requires ButtonClass(card, c) == ButtonClass(card', c')
    ensures ColorClass(card, c) == ColorClass(card', c')
  {
    var b := ButtonClass(card, c);
    assert ColorClass(card, c) == b[|BaseClass|..];
    assert ColorClass(card', c') == b[|BaseClass|..];
  }

  /** Choices with distinct letters, as the segmenters produce them (A., B., ...). */
  predicate DistinctLetters(choices: seq<Choice>) {
    forall i, j :: 0 <= i < j < |choices| ==> choices[i].letter != choices[j].letter
  }

  /** With distinct letters, at most one button is green and at most one is red. */
  lemma AtMostOneGreenOneRed(card: Flashcard, i: nat, j: nat)
    requires DistinctLetters(card.choices) && i < |card.choices| && j < |card.choices|
    ensures ColorClass(card, card.choices[i]) == Green && ColorClass(card, card.choices[j]) == Green ==> i == j
    ensures ColorClass(card, card.choices[i]) == Red && ColorClass(card, card.choices[j]) == Red ==> i == j
  {
    if i < j {
      assert card.choices[i].letter != card.choices[j].letter;
    } else if j < i {
      assert card.choices[j].letter != card.choices[i].letter;
    }
  }

  // ----- the rationale -----

  /** What is shown under the choices. */
  datatype RationaleView = NoRationale | ImageRationale(src: string) | TextRationale(text: string)

  /** `showRationale && isRevealed && (rationaleImage ? image : rationale ? text : null)` */
  function ShownRationale(card: Flashcard, showRationale: bool): (r: RationaleView)
  {
    if showRationale && card.isRevealed then
      if card.rationaleImage != [] then ImageRationale(card.rationaleImage)
      else if card.rationale != [] then TextRationale(card.rationale)
      else NoRationale
    else NoRationale
  }

  /**
   * A rationale is shown only when the switch is on and the card revealed;
   * the image wins over the text, and the text is shown only without an
   * image.
   */
  lemma RationalePrecedence(card: Flashcard, showRationale: bool)
    ensures ShownRationale(card, showRationale) != NoRationale ==> showRationale && card.isRevealed
    ensures showRationale && card.isRevealed && card.rationaleImage != [] ==>
            ShownRationale(card, showRationale) == ImageRationale(card.rationaleImage)
    ensures ShownRationale(card, showRationale).TextRationale? <==>
            showRationale && card.isRevealed && card.rationaleImage == [] && card.rationale != []
    ensures ShownRationale(card, showRationale).TextRationale? ==> ShownRationale(card, showRationale).text == card.rationale
  {
  }
}
