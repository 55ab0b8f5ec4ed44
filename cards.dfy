/**
 * The card record the read-time pages share (src/app/context/FlashcardContext.tsx)
 * and the wrap-around navigation both pages use.
 */
module Cards {
  import opened Wrappers

  datatype Choice = Choice(letter: char, text: string)

  /**
   * A card. `rationale` and `rationaleImage` are only ever read for
   * truthiness, so an unset one is the empty string; `selectedAnswer` is
   * compared with `===`, so unset is `None`; `isRevealed` unset is `false`.
   * The `id` field is never set by the pages modelled here and is left out.
   */
  datatype Flashcard = Flashcard(
    question: string,
    choices: seq<Choice>,
    answer: string,
    rationale: string,
    selectedAnswer: Option<string>,
    isRevealed: bool,
    rationaleImage: string)

  /** A card as the builders push it: no rationale yet, nothing selected. */
  function NewCard(question: string, choices: seq<Choice>, answer: string): (c: Flashcard)
    ensures c.question == question && c.choices == choices && c.answer == answer
    ensures c.rationale == [] && c.rationaleImage == [] && c.selectedAnswer.None? && !c.isRevealed
  {
    Flashcard(question, choices, answer, [], None, false, [])
  }

  // ----- handleNext / handlePrev -----

  /** handleNext: one card on, back to the first after the last (only reachable with cards shown). */
  function Next(i: nat, n: nat): (r: nat)
    requires n > 0
    ensures r < n
  {
    (i + 1) % n
  }

  /** handlePrev: one card back, to the last from the first. */
  function Prev(i: nat, n: nat): (r: nat)
    requires n > 0
    ensures i <= n ==> r < n
  {
    if i == 0 then n - 1 else i - 1
  }

  /** Going back undoes going on. */
  lemma PrevNext(i: nat, n: nat)
    requires i < n
    ensures Prev(Next(i, n), n) == i
  {
    if i + 1 < n {
      assert (i + 1) % n == i + 1;
    } else {
      assert (i + 1) % n == 0;
    }
  }

  /** Going on undoes going back. */
  lemma NextPrev(i: nat, n: nat)
    requires i < n
    ensures Next(Prev(i, n), n) == i
  {
    if i == 0 {
      assert n % n == 0;
    } else {
      assert i % n == i;
    }
  }

  /** `k` presses of Next. */
  function Advance(i: nat, n: nat, k: nat): (r: nat)
    requires n > 0
  {
    if k == 0 then i else Next(Advance(i, n, k - 1), n)
  }

  /** Next moves one place on from any card but the last, and from the last back to the first. */
  lemma NextStep(x: nat, n: nat)
    requires x < n
    ensures Next(x, n) == if x + 1 < n then x + 1 else 0
  {
    if x + 1 == n {
      assert (x + 1) % n == 0;
    }
  }

  /** Short of the last card, `k` presses of Next move `k` places. */
  lemma {:induction false} AdvanceWithin(i: nat, n: nat, k: nat)
    requires i + k < n
    ensures Advance(i, n, k) == i + k
  {
    if k > 0 {
      AdvanceWithin(i, n, k - 1);
      NextStep(i + k - 1, n);
    }
  }

  /** Pressing Next `a` times and then `b` times is pressing it `a + b` times. */
  lemma {:induction false} AdvanceCompose(i: nat, n: nat, a: nat, b: nat)
    requires n > 0
    ensures Advance(i, n, a + b) == Advance(Advance(i, n, a), n, b)
  {
    if b > 0 {
      AdvanceCompose(i, n, a, b - 1);
    }
  }

  /** A full round of Next presses comes back to the same card. */
  lemma FullRound(i: nat, n: nat)
    requires i < n
    ensures Advance(i, n, n) == i
  {
    var m := n - i;
    AdvanceWithin(i, n, m - 1);
    assert Advance(i, n, m - 1) == n - 1;
    assert Advance(i, n, m) == Next(Advance(i, n, m - 1), n);
    NextStep(n - 1, n);
    AdvanceCompose(i, n, m, i);
    assert m + i == n;
    AdvanceWithin(0, n, i);
  }
}
