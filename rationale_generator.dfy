/**
 * The completion gate (src/app/services/rationaleGeneratorService.ts,
 * `generateRationalesForQuestions`): it picks the questions of a document
 * that still lack a rationale and are not covered by an extracted image,
 * sends one batched prompt for them, and writes the returned texts back by
 * position. The model's reply is a parameter.
 */
module RationaleGenerator {
  import opened Wrappers
  import opened JsString
  import opened Cards
  import opened QuestionStore

  // ----- getQuestionsByDocument -----

  /** A question as the query returns it, with its id and its choices. */
  datatype Question = Question(id: nat, text: string, answer: string, rationale: Option<string>, choices: seq<Choice>)

  /** The choices of question `id`, in insertion order. */
  function ChoicesOf(choiceRows: seq<ChoiceRow>, id: nat): seq<Choice>
    decreases |choiceRows|
  {
    if choiceRows == [] then []
    else
      var last := choiceRows[|choiceRows| - 1];
      ChoicesOf(choiceRows[..|choiceRows| - 1], id) + (if last.questionId == id then [Choice(last.letter, last.text)] else [])
  }

  /** Row `id` as the query returns it. */
  function View(rows: seq<QuestionRow>, choiceRows: seq<ChoiceRow>, id: nat): Question
    requires id < |rows|
  {
    Question(id, rows[id].text, rows[id].answer, rows[id].rationale, ChoicesOf(choiceRows, id))
  }

  /** The document's questions among the first `n` rows, oldest first. */
  function QuestionsUpTo(rows: seq<QuestionRow>, choiceRows: seq<ChoiceRow>, documentId: string, n: nat): seq<Question>
    requires n <= |rows|
  {
    if n == 0 then []
    else
      var qs := QuestionsUpTo(rows, choiceRows, documentId, n - 1);
      if rows[n - 1].documentId == documentId then qs + [View(rows, choiceRows, n - 1)] else qs
  }

  /** getQuestionsByDocument: the rows of the document ordered by creation time, ascending. */
  function QuestionsByDocument(rows: seq<QuestionRow>, choiceRows: seq<ChoiceRow>, documentId: string): seq<Question> {
    QuestionsUpTo(rows, choiceRows, documentId, |rows|)
  }

  /** Each entry is the view of a row of the document, below `n`. */
  predicate SoundViews(rows: seq<QuestionRow>, choiceRows: seq<ChoiceRow>, documentId: string, qs: seq<Question>, n: nat) {
    forall k :: 0 <= k < |qs| ==>
      qs[k].id < n && qs[k].id < |rows| && rows[qs[k].id].documentId == documentId && qs[k] == View(rows, choiceRows, qs[k].id)
  }

  /** Ids appear oldest first, each once. */
  predicate IdsIncreasing(qs: seq<Question>) {
    forall k, l :: 0 <= k < l < |qs| ==> qs[k].id < qs[l].id
  }

  /** The query returns rows of the document only, each once, oldest first. */
  lemma {:induction false} QuestionsUpToFacts(rows: seq<QuestionRow>, choiceRows: seq<ChoiceRow>, documentId: string, n: nat)
    requires n <= |rows|
    ensures SoundViews(rows, choiceRows, documentId, QuestionsUpTo(rows, choiceRows, documentId, n), n)
    ensures IdsIncreasing(QuestionsUpTo(rows, choiceRows, documentId, n))
  {
    if n > 0 {
      var qs := QuestionsUpTo(rows, choiceRows, documentId, n - 1);
      QuestionsUpToFacts(rows, choiceRows, documentId, n - 1);
      var r := QuestionsUpTo(rows, choiceRows, documentId, n);
      if rows[n - 1].documentId == documentId {
        assert r == qs + [View(rows, choiceRows, n - 1)];
        assert forall k :: 0 <= k < |qs| ==> r[k] == qs[k];
      } else {
        assert r == qs;
      }
    }
  }

  /** The query leaves out no row of the document. */
  lemma {:induction false} QuestionsUpToComplete(rows: seq<QuestionRow>, choiceRows: seq<ChoiceRow>, documentId: string, n: nat)
    requires n <= |rows|
    ensures forall id :: 0 <= id < n && rows[id].documentId == documentId ==>
              exists k :: 0 <= k < |QuestionsUpTo(rows, choiceRows, documentId, n)| &&
                          QuestionsUpTo(rows, choiceRows, documentId, n)[k].id == id
  {
    if n > 0 {
      var qs := QuestionsUpTo(rows, choiceRows, documentId, n - 1);
      QuestionsUpToComplete(rows, choiceRows, documentId, n - 1);
      var r := QuestionsUpTo(rows, choiceRows, documentId, n);
      if rows[n - 1].documentId == documentId {
        assert r == qs + [View(rows, choiceRows, n - 1)];
      } else {
        assert r == qs;
      }
      assert forall k :: 0 <= k < |qs| ==> r[k] == qs[k];
      forall id | 0 <= id < n && rows[id].documentId == documentId
        ensures exists k :: 0 <= k < |r| && r[k].id == id
      {
        if id < n - 1 {
          var k :| 0 <= k < |qs| && qs[k].id == id;
          assert r[k].id == id;
        } else {
          assert r[|qs|].id == id;
        }
      }
      assert r == QuestionsUpTo(rows, choiceRows, documentId, n);
    }
  }

  // ----- the candidate filter -----

  /** `rationale === null || rationale.trim() === ""` */
  predicate NeedsRationale(q: Question) {
    q.rationale.None? || Trim(q.rationale.value) == []
  }

  /** The positions below `n` of questions that need a rationale and carry no image index, in order. */
  function CandidatesUpTo(qs: seq<Question>, imageIndices: seq<int>, n: nat): (c: seq<nat>)
    requires n <= |qs|
    ensures forall k :: 0 <= k < |c| ==> c[k] < n
  {
    if n == 0 then []
    else
      var c := CandidatesUpTo(qs, imageIndices, n - 1);
      if NeedsRationale(qs[n - 1]) && (n - 1) !in imageIndices then c + [n - 1] else c
  }

  /** questionsToGenerate, as positions in the question list. */
  function Candidates(qs: seq<Question>, imageIndices: seq<int>): (c: seq<nat>)
    ensures forall k :: 0 <= k < |c| ==> c[k] < |qs|
  {
    CandidatesUpTo(qs, imageIndices, |qs|)
  }

  /**
   * A position is a candidate exactly when its question needs a rationale
   * and the position is not an image index; candidates keep list order.
   */
  lemma {:induction false} CandidatesIff(qs: seq<Question>, imageIndices: seq<int>, n: nat)
    requires n <= |qs|
    ensures forall p :: p in CandidatesUpTo(qs, imageIndices, n) <==>
              0 <= p < n && NeedsRationale(qs[p]) && p !in imageIndices
    ensures forall k, l :: 0 <= k < l < |CandidatesUpTo(qs, imageIndices, n)| ==>
              CandidatesUpTo(qs, imageIndices, n)[k] < CandidatesUpTo(qs, imageIndices, n)[l]
    ensures (forall p :: 0 <= p < n && p !in imageIndices ==> !NeedsRationale(qs[p])) ==>
            CandidatesUpTo(qs, imageIndices, n) == []
  {
    if n > 0 {
      CandidatesIff(qs, imageIndices, n - 1);
    }
  }

  // ----- the prompt -----

  /** `lines.map(l => l + "\n").join("")`: every line followed by a line feed. */
  function Terminated(lines: seq<string>): string
  {
    if lines == [] then [] else Terminated(lines[..|lines| - 1]) + lines[|lines| - 1] + "\n"
  }

  /** One `${letter}. ${text}` line per choice. */
  function ChoiceLines(choices: seq<Choice>): (r: seq<string>)
    ensures |r| == |choices|
  {
    if choices == [] then []
    else ChoiceLines(choices[..|choices| - 1]) + [[choices[|choices| - 1].letter] + ". " + choices[|choices| - 1].text]
  }

  /** The header line of the block numbered `number`. */
  function Header(number: nat, q: Question): string {
    "Question " + NumberToString(number) + ": " + q.text
  }

  /** One candidate's block: header, choices, answer, and a blank line. */
  function BlockLines(number: nat, q: Question): (r: seq<string>)
    ensures |r| == |q.choices| + 3
  {
    [Header(number, q)] + ChoiceLines(q.choices) + ["Answer: " + q.answer, ""]
  }

  /** The prompt's lines: the candidates' blocks numbered from 1, in candidate order. */
  function PromptLines(qs: seq<Question>, cands: seq<nat>): seq<string>
    requires forall k :: 0 <= k < |cands| ==> cands[k] < |qs|
  {
    if cands == [] then []
    else PromptLines(qs, cands[..|cands| - 1]) + BlockLines(|cands|, qs[cands[|cands| - 1]])
  }

  /** promptText */
  function Prompt(qs: seq<Question>, cands: seq<nat>): string
    requires forall k :: 0 <= k < |cands| ==> cands[k] < |qs|
  {
    Terminated(PromptLines(qs, cands))
  }

  /** Adding a line adds it and a line feed at the end. */
  lemma TerminatedSnoc(lines: seq<string>, line: string)
    ensures Terminated(lines + [line]) == Terminated(lines) + line + "\n"
  {
    assert (lines + [line])[..|lines|] == lines;
  }

  /** The lines of the prompt grow by one block per candidate. */
  lemma PromptLinesSnoc(qs: seq<Question>, cands: seq<nat>, i: nat)
    requires forall k :: 0 <= k < |cands| ==> cands[k] < |qs|
    requires i < |cands|
    ensures PromptLines(qs, cands[..i + 1]) ==
            PromptLines(qs, cands[..i]) + [Header(i + 1, qs[cands[i]])] + ChoiceLines(qs[cands[i]].choices) +
            ["Answer: " + qs[cands[i]].answer] + [""]
  {
    var q := qs[cands[i]];
    assert cands[..i + 1][..i] == cands[..i];
    assert PromptLines(qs, cands[..i + 1]) == PromptLines(qs, cands[..i]) + BlockLines(i + 1, q);
    AppendBlock(PromptLines(qs, cands[..i]), Header(i + 1, q), ChoiceLines(q.choices), "Answer: " + q.answer, "");
  }

  /** Appending a block at once or line by line gives the same lines. */
  lemma AppendBlock<T>(a: seq<T>, h: T, m: seq<T>, x: T, y: T)
    ensures a + ([h] + m + [x, y]) == a + [h] + m + [x] + [y]
  {
  }

  /** The choice lines grow by one line per choice. */
  lemma ChoiceLinesSnoc(choices: seq<Choice>, j: nat)
    requires j < |choices|
    ensures ChoiceLines(choices[..j + 1]) == ChoiceLines(choices[..j]) + [[choices[j].letter] + ". " + choices[j].text]
  {
    assert choices[..j + 1][..j] == choices[..j];
  }

  /** The inner `q.choices.forEach`: one `${letter}. ${text}` line per choice appended to the prompt. */
  method AppendChoiceLines(promptText: string, ghost lines: seq<string>, choices: seq<Choice>) returns (r: string)
    requires promptText == Terminated(lines)
    ensures r == Terminated(lines + ChoiceLines(choices))
  {
    r := promptText;
    assert lines + ChoiceLines(choices[..0]) == lines;
    for j := 0 to |choices|
      invariant r == Terminated(lines + ChoiceLines(choices[..j]))
    {
      var line := [choices[j].letter] + ". " + choices[j].text;
      ChoiceLinesSnoc(choices, j);
      assert lines + ChoiceLines(choices[..j + 1]) == (lines + ChoiceLines(choices[..j])) + [line];
      TerminatedSnoc(lines + ChoiceLines(choices[..j]), line);
      r := r + line + "\n";
    }
    assert choices[..|choices|] == choices;
  }

  /** The prompt assembled as the service does, with `+=` in two nested loops. */
  method BuildPrompt(qs: seq<Question>, cands: seq<nat>) returns (promptText: string)
    requires forall k :: 0 <= k < |cands| ==> cands[k] < |qs|
    ensures promptText == Prompt(qs, cands)
  {
    promptText := "";
    ghost var lines: seq<string> := [];
    for i := 0 to |cands|
      invariant lines == PromptLines(qs, cands[..i])
      invariant promptText == Terminated(lines)
    {
      var q := qs[cands[i]];
      PromptLinesSnoc(qs, cands, i);
      var header := "Question " + NumberToString(i + 1) + ": " + q.text;
      TerminatedSnoc(lines, header);
      lines := lines + [header];
      promptText := promptText + header + "\n";
      promptText := AppendChoiceLines(promptText, lines, q.choices);
      lines := lines + ChoiceLines(q.choices);
      var answerLine := "Answer: " + q.answer;
      TerminatedSnoc(lines, answerLine);
      lines := lines + [answerLine];
      promptText := promptText + answerLine + "\n";
      TerminatedSnoc(lines, "");
      lines := lines + [""];
      promptText := promptText + "\n";
    }
    assert cands[..|cands|] == cands;
  }

  /** `Terminated` is joining with a final empty line. */
  lemma {:induction false} TerminatedIsJoin(lines: seq<string>, last: string)
    ensures JoinLines(lines + [last]) == Terminated(lines) + last
    decreases |lines|
  {
    if lines != [] {
      var init := lines[..|lines| - 1];
      TerminatedIsJoin(init, lines[|lines| - 1]);
      assert (lines + [last])[..|lines|] == lines;
      assert init + [lines[|lines| - 1]] == lines;
    }
  }

  /** A line that holds no line feed of its own. */
  predicate SingleLine(s: string) {
    '\n' !in s
  }

  /** Texts that hold no line feed, so that each field is one prompt line. */
  predicate OneLineFields(q: Question) {
    SingleLine(q.text) && SingleLine(q.answer) &&
    forall j :: 0 <= j < |q.choices| ==> q.choices[j].letter != '\n' && SingleLine(q.choices[j].text)
  }

  lemma {:induction false} ChoiceLinesSingle(choices: seq<Choice>)
    requires forall j :: 0 <= j < |choices| ==> choices[j].letter != '\n' && SingleLine(choices[j].text)
    ensures forall k :: 0 <= k < |ChoiceLines(choices)| ==> SingleLine(ChoiceLines(choices)[k])
  {
    if choices != [] {
      ChoiceLinesSingle(choices[..|choices| - 1]);
    }
  }

  lemma {:induction false} PromptLinesSingle(qs: seq<Question>, cands: seq<nat>)
    requires forall k :: 0 <= k < |cands| ==> cands[k] < |qs| && OneLineFields(qs[cands[k]])
    ensures forall k :: 0 <= k < |PromptLines(qs, cands)| ==> SingleLine(PromptLines(qs, cands)[k])
  {
    if cands != [] {
      var q := qs[cands[|cands| - 1]];
      PromptLinesSingle(qs, cands[..|cands| - 1]);
      ChoiceLinesSingle(q.choices);
      assert SingleLine(NumberToString(|cands|)) by {
        var d := NumberToString(|cands|);
        assert forall i :: 0 <= i < |d| ==> d[i] != '\n';
      }
    }
  }

  /**
   * When no question, choice or answer text holds a line feed, splitting
   * the prompt into lines gives back exactly the blocks' lines, plus the
   * empty string after the final line feed.
   */
  lemma PromptSplits(qs: seq<Question>, cands: seq<nat>)
    requires forall k :: 0 <= k < |cands| ==> cands[k] < |qs| && OneLineFields(qs[cands[k]])
    ensures SplitLines(Prompt(qs, cands)) == PromptLines(qs, cands) + [""]
  {
    var lines := PromptLines(qs, cands);
    PromptLinesSingle(qs, cands);
    TerminatedIsJoin(lines, "");
    assert Terminated(lines) + "" == Terminated(lines);
    SplitJoin(lines + [""]);
  }

  // ----- the updates -----

  /** `allRationales[i] || ""`: a missing entry is `undefined` and an empty one falsy, both give "". */
  function AnswerAt(answers: seq<string>, i: nat): string {
    if i < |answers| then answers[i] else ""
  }

  /** updates: one per candidate, in candidate order, the i-th getting the i-th answer. */
  function Updates(qs: seq<Question>, cands: seq<nat>, answers: seq<string>): (us: seq<RationaleUpdate>)
    requires forall k :: 0 <= k < |cands| ==> cands[k] < |qs|
    ensures |us| == |cands|
  {
    seq(|cands|, i requires 0 <= i < |cands| => RationaleUpdate(qs[cands[i]].id, AnswerAt(answers, i)))
  }

  /**
   * The question rows after the gate. `response` is the parsed reply of the
   * model, `None` when it is missing: indexing it then throws before any
   * update is sent.
   */
  function GateRows(rows: seq<QuestionRow>, choiceRows: seq<ChoiceRow>, documentId: string,
                    imageIndices: seq<int>, response: Option<seq<string>>): seq<QuestionRow>
  {
    var qs := QuestionsByDocument(rows, choiceRows, documentId);
    var cands := Candidates(qs, imageIndices);
    if cands == [] || response.None? then rows
    else ApplyUpdates(rows, Updates(qs, cands, response.value))
  }

  /** The prompt sent to the model, `None` when the gate returns early. */
  function SentPrompt(rows: seq<QuestionRow>, choiceRows: seq<ChoiceRow>, documentId: string, imageIndices: seq<int>): Option<string>
  {
    var qs := QuestionsByDocument(rows, choiceRows, documentId);
    var cands := Candidates(qs, imageIndices);
    if cands == [] then None else Some(Prompt(qs, cands))
  }

  /** generateRationalesForQuestions against the store, with the model's reply as a parameter. */
  method GenerateRationales(store: Store, documentId: string, imageIndices: seq<int>, response: Option<seq<string>>)
    returns (prompt: Option<string>)
    modifies store
    ensures store.questions == GateRows(old(store.questions), old(store.choices), documentId, imageIndices, response)
    ensures store.choices == old(store.choices)
    ensures prompt == SentPrompt(old(store.questions), old(store.choices), documentId, imageIndices)
  {
    var questions := QuestionsByDocument(store.questions, store.choices, documentId);
    var questionsToGenerate := Candidates(questions, imageIndices);
    if questionsToGenerate == [] {
      return None;
    }
    var promptText := BuildPrompt(questions, questionsToGenerate);
    prompt := Some(promptText);
    if response.None? {
      return;
    }
    var updates := Updates(questions, questionsToGenerate, response.value);
    store.BulkUpdateRationales(updates);
  }

  // ----- what the gate promises -----

  /** Candidate questions have distinct ids, in increasing order. */
  lemma CandidateIdsIncreasing(rows: seq<QuestionRow>, choiceRows: seq<ChoiceRow>, documentId: string, imageIndices: seq<int>)
    ensures var qs := QuestionsByDocument(rows, choiceRows, documentId);
            var cands := Candidates(qs, imageIndices);
            forall i, j :: 0 <= i < j < |cands| ==> qs[cands[i]].id < qs[cands[j]].id
  {
    QuestionsUpToFacts(rows, choiceRows, documentId, |rows|);
    var qs := QuestionsByDocument(rows, choiceRows, documentId);
    CandidatesIff(qs, imageIndices, |qs|);
  }

  /**
   * With a reply, the i-th candidate's row gets the i-th answer (or "") as
   * rationale, and every row that is not a candidate's, in this document
   * or any other, is left as it was; without a reply nothing changes.
   */
  lemma GateEffect(rows: seq<QuestionRow>, choiceRows: seq<ChoiceRow>, documentId: string,
                   imageIndices: seq<int>, response: Option<seq<string>>)
    ensures |GateRows(rows, choiceRows, documentId, imageIndices, response)| == |rows|
    ensures response.None? ==> GateRows(rows, choiceRows, documentId, imageIndices, response) == rows
    ensures var qs := QuestionsByDocument(rows, choiceRows, documentId);
            var cands := Candidates(qs, imageIndices);
            forall k :: 0 <= k < |rows| && (forall i :: 0 <= i < |cands| ==> qs[cands[i]].id != k) ==>
              GateRows(rows, choiceRows, documentId, imageIndices, response)[k] == rows[k]
    ensures var qs := QuestionsByDocument(rows, choiceRows, documentId);
            var cands := Candidates(qs, imageIndices);
            response.Some? ==>
            forall i :: 0 <= i < |cands| ==>
              qs[cands[i]].id < |rows| &&
              GateRows(rows, choiceRows, documentId, imageIndices, response)[qs[cands[i]].id] ==
              rows[qs[cands[i]].id].(rationale := Some(AnswerAt(response.value, i)))
  {
    var qs := QuestionsByDocument(rows, choiceRows, documentId);
    var cands := Candidates(qs, imageIndices);
    assert forall i :: 0 <= i < |cands| ==> qs[cands[i]].id < |rows| by {
      QuestionsUpToFacts(rows, choiceRows, documentId, |rows|);
    }
    if cands != [] && response.Some? {
      var us := Updates(qs, cands, response.value);
      assert forall i, j :: 0 <= i < j < |us| ==> us[i].id != us[j].id by {
        CandidateIdsIncreasing(rows, choiceRows, documentId, imageIndices);
      }
      assert forall i :: 0 <= i < |us| ==> us[i].id == qs[cands[i]].id && us[i].rationale == AnswerAt(response.value, i);
      ApplyUpdatesEffect(rows, us);
    }
  }

  /** The query over rows that differ only in rationale returns the same questions with the new rationales. */
  lemma {:induction false} QuestionsAfterRationales(rows: seq<QuestionRow>, rows': seq<QuestionRow>, choiceRows: seq<ChoiceRow>,
                                                    documentId: string, n: nat)
    requires |rows'| == |rows| && n <= |rows|
    requires forall k :: 0 <= k < |rows| ==> rows'[k] == rows[k].(rationale := rows'[k].rationale)
    ensures |QuestionsUpTo(rows', choiceRows, documentId, n)| == |QuestionsUpTo(rows, choiceRows, documentId, n)|
    ensures forall p :: 0 <= p < |QuestionsUpTo(rows, choiceRows, documentId, n)| ==>
              QuestionsUpTo(rows, choiceRows, documentId, n)[p].id < |rows|
    ensures forall p :: 0 <= p < |QuestionsUpTo(rows, choiceRows, documentId, n)| ==>
              QuestionsUpTo(rows', choiceRows, documentId, n)[p] ==
              QuestionsUpTo(rows, choiceRows, documentId, n)[p].(rationale := rows'[QuestionsUpTo(rows, choiceRows, documentId, n)[p].id].rationale)
  {
    QuestionsUpToFacts(rows, choiceRows, documentId, n);
    if n > 0 {
      QuestionsAfterRationales(rows, rows', choiceRows, documentId, n - 1);
      assert rows'[n - 1].documentId == rows[n - 1].documentId;
    }
  }

  /** After a run whose answers are all non-blank, the row of a question without image index has a non-blank rationale. */
  lemma RowFilled(rows: seq<QuestionRow>, choiceRows: seq<ChoiceRow>, documentId: string,
                  imageIndices: seq<int>, answers: seq<string>, p: nat)
    requires var cands := Candidates(QuestionsByDocument(rows, choiceRows, documentId), imageIndices);
             |answers| >= |cands| && forall i :: 0 <= i < |cands| ==> Trim(answers[i]) != []
    requires p < |QuestionsByDocument(rows, choiceRows, documentId)| && p !in imageIndices
    ensures var k := QuestionsByDocument(rows, choiceRows, documentId)[p].id;
            var rows' := GateRows(rows, choiceRows, documentId, imageIndices, Some(answers));
            k < |rows'| && rows'[k].rationale.Some? && Trim(rows'[k].rationale.value) != []
  {
    var qs := QuestionsByDocument(rows, choiceRows, documentId);
    var cands := Candidates(qs, imageIndices);
    var rows' := GateRows(rows, choiceRows, documentId, imageIndices, Some(answers));
    var k := qs[p].id;
    GateEffect(rows, choiceRows, documentId, imageIndices, Some(answers));
    assert k < |rows| && qs[p] == View(rows, choiceRows, k) by {
      QuestionsUpToFacts(rows, choiceRows, documentId, |rows|);
    }
    if exists i :: 0 <= i < |cands| && qs[cands[i]].id == k {
      var i :| 0 <= i < |cands| && qs[cands[i]].id == k;
      assert rows'[k].rationale == Some(answers[i]);
    } else {
      assert p !in cands;
      CandidatesIff(qs, imageIndices, |qs|);
      assert rows'[k] == rows[k];
    }
  }

  /**
   * After a run whose answers are all non-blank, every question of the
   * document that carries no image index has a non-blank rationale.
   */
  lemma FilledAfterGate(rows: seq<QuestionRow>, choiceRows: seq<ChoiceRow>, documentId: string,
                        imageIndices: seq<int>, answers: seq<string>)
    requires var cands := Candidates(QuestionsByDocument(rows, choiceRows, documentId), imageIndices);
             |answers| >= |cands| && forall i :: 0 <= i < |cands| ==> Trim(answers[i]) != []
    ensures var qs' := QuestionsByDocument(GateRows(rows, choiceRows, documentId, imageIndices, Some(answers)), choiceRows, documentId);
            forall p :: 0 <= p < |qs'| && p !in imageIndices ==> !NeedsRationale(qs'[p])
  {
    var qs := QuestionsByDocument(rows, choiceRows, documentId);
    var rows' := GateRows(rows, choiceRows, documentId, imageIndices, Some(answers));
    GateEffect(rows, choiceRows, documentId, imageIndices, Some(answers));
    assert forall k :: 0 <= k < |rows| ==> rows'[k] == rows[k].(rationale := rows'[k].rationale);
    QuestionsAfterRationales(rows, rows', choiceRows, documentId, |rows|);
    var qs' := QuestionsByDocument(rows', choiceRows, documentId);
    forall p | 0 <= p < |qs'| && p !in imageIndices
      ensures !NeedsRationale(qs'[p])
    {
      RowFilled(rows, choiceRows, documentId, imageIndices, answers, p);
    }
  }

  /**
   * Once a run has written a non-blank answer for every candidate, running
   * the gate again finds no candidate: it sends nothing and changes nothing,
   * whatever the model would reply.
   */
  lemma RerunIsNoOp(rows: seq<QuestionRow>, choiceRows: seq<ChoiceRow>, documentId: string,
                    imageIndices: seq<int>, answers: seq<string>, response': Option<seq<string>>)
    requires var cands := Candidates(QuestionsByDocument(rows, choiceRows, documentId), imageIndices);
             |answers| >= |cands| && forall i :: 0 <= i < |cands| ==> Trim(answers[i]) != []
    ensures var rows' := GateRows(rows, choiceRows, documentId, imageIndices, Some(answers));
            SentPrompt(rows', choiceRows, documentId, imageIndices) == None &&
            GateRows(rows', choiceRows, documentId, imageIndices, response') == rows'
  {
    var rows' := GateRows(rows, choiceRows, documentId, imageIndices, Some(answers));
    FilledAfterGate(rows, choiceRows, documentId, imageIndices, answers);
    var qs' := QuestionsByDocument(rows', choiceRows, documentId);
    CandidatesIff(qs', imageIndices, |qs'|);
  }
}
