/**
 * The question navigator (src/app/components/QuestionNavigator.tsx): one
 * numbered cell per card, coloured by the card's answer state, with a ring
 * on the current card.
 */
module QuestionNavigatorView {
  import opened Wrappers
  import opened JsString
  import opened Cards
  import MultipleChoicePage
  import ChoiceCardView

  const Gray: string := "bg-gray-700"
  const Green: string := "bg-green-500"
  const Red: string := "bg-red-500"
  const Ring: string := "ring-2 ring-purple-500"

  /**
   * getIndicatorColor: unrevealed is gray whatever was selected; revealed is
   * green exactly when the selection equals the answer, and red otherwise,
   * also when nothing was selected.
   */
  function IndicatorColor(card: Flashcard): (r: string)
    ensures r == Gray <==> !card.isRevealed
    ensures r == Green <==> card.isRevealed && card.selectedAnswer == Some(card.answer)
    ensures r == Red <==> card.isRevealed && card.selectedAnswer != Some(card.answer)
    ensures card.isRevealed && card.selectedAnswer.None? ==> r == Red
  {
    if !card.isRevealed then Gray
    else if card.selectedAnswer == Some(card.answer) then Green
    else Red
  }

  /** One cell: its caption and its class. */
  datatype Cell = Cell(caption: string, className: string)

  const CellBase: string := "w-10 h-10 flex items-center justify-center rounded-md cursor-pointer transition-colors "

  /** Cell `i`: labelled `i + 1`, ringed when it is the current card, then the indicator colour. */
  function CellAt(card: Flashcard, i: nat, currentIndex: int): Cell {
    Cell(NumberToString(i + 1), CellBase + (if currentIndex == i then Ring else "") + " " + IndicatorColor(card))
  }

  /** `flashcards.map(...)` */
  function Cells(cards: seq<Flashcard>, currentIndex: int): (r: seq<Cell>)
    ensures |r| == |cards|
  {
    seq(|cards|, i requires 0 <= i < |cards| => CellAt(cards[i], i, currentIndex))
  }

  /** The ring's place in a cell's class. */
  function RingPart(c: Cell): string
    requires |c.className| >= |CellBase| + |Ring|
  {
    c.className[|CellBase|..|CellBase| + |Ring|]
  }

  /** A cell's class holds the ring exactly when it is the current card's cell. */
  lemma RingOnlyAtCurrent(cards: seq<Flashcard>, currentIndex: int, i: nat)
    requires i < |cards|
    ensures var c := Cells(cards, currentIndex)[i];
            |c.className| > |CellBase| &&
            (i == currentIndex <==> |c.className| >= |CellBase| + |Ring| && RingPart(c) == Ring)
  {
    var c := Cells(cards, currentIndex)[i];
    if i == currentIndex {
      assert c.className == CellBase + Ring + " " + IndicatorColor(cards[i]);
      assert RingPart(c) == Ring;
    } else {
      assert c.className == CellBase + " " + IndicatorColor(cards[i]);
      assert |c.className| < |CellBase| + |Ring|;
    }
  }

  /** Cells are labelled 1, 2, ... with no label used twice. */
  lemma LabelsDistinct(cards: seq<Flashcard>, currentIndex: int, i: nat, j: nat)
    requires i < |cards| && j < |cards|
    ensures ParseDigits(Cells(cards, currentIndex)[i].caption) == i + 1
    ensures Cells(cards, currentIndex)[i].caption == Cells(cards, currentIndex)[j].caption ==> i == j
  {
    ParseNumberToString(i + 1);
    if Cells(cards, currentIndex)[i].caption == Cells(cards, currentIndex)[j].caption {
      NumberToStringInjective(i + 1, j + 1);
    }
  }

  /**
   * After a choice is selected on the multiple-choice page, the current
   * cell is green exactly when the choice is the answer, and red otherwise.
   */
  lemma IndicatorAfterSelect(cards: seq<Flashcard>, currentIndex: nat, choice: string)
    requires currentIndex < |cards|
    ensures var card := MultipleChoicePage.SelectChoice(cards, currentIndex, choice)[currentIndex];
            (IndicatorColor(card) == Green <==> choice == cards[currentIndex].answer) &&
            (IndicatorColor(card) == Red <==> choice != cards[currentIndex].answer)
  {
  }

  /**
   * The navigator agrees with the card: a green cell means the selected
   * choice's button is green, and a red cell with a selected choice on the
   * card means that button is red.
   */
  lemma NavigatorAgreesWithCard(card: Flashcard, c: Choice)
    requires ChoiceCardView.IsSelected(card, c)
    ensures IndicatorColor(card) == Green ==> ChoiceCardView.ColorClass(card, c) == ChoiceCardView.Green
    ensures IndicatorColor(card) == Red ==> ChoiceCardView.ColorClass(card, c) == ChoiceCardView.Red
    ensures IndicatorColor(card) == Gray ==> ChoiceCardView.ColorClass(card, c) == ChoiceCardView.Neutral
  {
  }
}
