/**
 * The backend's `questions` and `choices` tables, as far as the segmenter and
 * the completion gate use them (createQuestion, createChoices,
 * updateQuestions, bulkUpdateQuestions, getQuestionsByDocument). A question's
 * id is its row number; rows are kept in creation order.
 */
module QuestionStore {
  import opened Wrappers

  datatype QuestionRow = QuestionRow(documentId: string, text: string, answer: string, rationale: Option<string>)

  datatype ChoiceRow = ChoiceRow(questionId: nat, letter: char, text: string)

  datatype RationaleUpdate = RationaleUpdate(id: nat, rationale: string)

  /** One `update({ rationale }).eq("id", id)`: a missing id changes nothing. */
  function ApplyUpdate(rows: seq<QuestionRow>, u: RationaleUpdate): (r: seq<QuestionRow>)
    ensures |r| == |rows|
    ensures forall k :: 0 <= k < |rows| && k != u.id ==> r[k] == rows[k]
    ensures u.id < |rows| ==> r[u.id] == rows[u.id].(rationale := Some(u.rationale))
  {
    if u.id < |rows| then rows[u.id := rows[u.id].(rationale := Some(u.rationale))] else rows
  }

  /** The updates applied one after another, in order. */
  function ApplyUpdates(rows: seq<QuestionRow>, us: seq<RationaleUpdate>): (r: seq<QuestionRow>)
    ensures |r| == |rows|
  {
    if us == [] then rows else ApplyUpdate(ApplyUpdates(rows, us[..|us| - 1]), us[|us| - 1])
  }

  /**
   * A batch with distinct ids sets each named row's rationale to its
   * update's text and leaves every other row as it was.
   */
  lemma {:induction false} ApplyUpdatesEffect(rows: seq<QuestionRow>, us: seq<RationaleUpdate>)
    requires forall i, j :: 0 <= i < j < |us| ==> us[i].id != us[j].id
    ensures forall k :: 0 <= k < |rows| && (forall i :: 0 <= i < |us| ==> us[i].id != k) ==>
              ApplyUpdates(rows, us)[k] == rows[k]
    ensures forall i :: 0 <= i < |us| && us[i].id < |rows| ==>
              ApplyUpdates(rows, us)[us[i].id] == rows[us[i].id].(rationale := Some(us[i].rationale))
    decreases |us|
  {
    if us != [] {
      var init := us[..|us| - 1];
      var last := us[|us| - 1];
      ApplyUpdatesEffect(rows, init);
      forall i | 0 <= i < |us| - 1
        ensures init[i].id != last.id
      {
      }
    }
  }

  class Store {
    var questions: seq<QuestionRow>
    var choices: seq<ChoiceRow>

    constructor ()
      ensures questions == [] && choices == []
    {
      questions := [];
      choices := [];
    }

    /** createQuestion: inserts a question without rationale and returns its id. */
    method CreateQuestion(documentId: string, text: string, answer: string) returns (id: nat)
      modifies this
      ensures id == |old(questions)|
      ensures questions == old(questions) + [QuestionRow(documentId, text, answer, None)]
      ensures choices == old(choices)
    {
      id := |questions|;
      questions := questions + [QuestionRow(documentId, text, answer, None)];
    }

    /** createChoices: inserts all rows at once. */
    method CreateChoices(rows: seq<ChoiceRow>)
      modifies this
      ensures choices == old(choices) + rows
      ensures questions == old(questions)
    {
      choices := choices + rows;
    }

    /** updateQuestions([id], { rationale }) */
    method UpdateRationale(id: nat, rationale: string)
      modifies this
      ensures questions == ApplyUpdate(old(questions), RationaleUpdate(id, rationale))
      ensures choices == old(choices)
    {
      questions := ApplyUpdate(questions, RationaleUpdate(id, rationale));
    }

    /** bulkUpdateQuestions: one update after another, in the order given. */
    method BulkUpdateRationales(updates: seq<RationaleUpdate>)
      modifies this
      ensures questions == ApplyUpdates(old(questions), updates)
      ensures choices == old(choices)
    {
      var i := 0;
      while i < |updates|
        invariant 0 <= i <= |updates|
        invariant questions == ApplyUpdates(old(questions), updates[..i])
        invariant choices == old(choices)
      {
        assert updates[..i + 1][..i] == updates[..i];
        questions := ApplyUpdate(questions, updates[i]);
        i := i + 1;
      }
      assert updates[..i] == updates;
    }
  }
}
