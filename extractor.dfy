/**
 * The persisting segmenter of the extractor service (`saveItemData`) and the
 * re-lettering of nested lists (`convertNestedOlToParagraphs`).
 *
 * The segmenter walks the lines of the document's plain text. Each line is
 * trimmed and classified, in this order: a choice marker (`A.` .. `Z.`), a
 * line holding the answer flag, a line holding the rationale flag, other
 * text. An answer-flag line closes the pending question; a rationale-flag
 * line rewrites the rationale of the question emitted last.
 */
module Extractor {
  import opened Wrappers
  import opened JsString
  import QuestionStore

  datatype ChoiceDraft = ChoiceDraft(letter: char, text: string)

  /** A question as the store finally holds it: text, answer, choices and rationale. */
  datatype Parsed = Parsed(text: string, answer: string, choices: seq<ChoiceDraft>, rationale: Option<string>)

  datatype LineKind =
    | ChoiceLine(choice: ChoiceDraft)
    | AnswerLine(answer: Option<string>)
    | RationaleLine(rationale: string)
    | TextLine(text: string)
    | BlankLine

  /** The answer read off an answer-flag line: `split(flag)[1]?.trim().replace(".", "")`. */
  function AnswerOf(trimmed: string, answerFlag: string): Option<string> {
    match SplitSecond(trimmed, answerFlag)
    case None => None
    case Some(a) => Some(ReplaceFirstDot(Trim(a)))
  }

  /** How one line is read; the tests are taken in a fixed order on the trimmed line. */
  function Classify(line: string, answerFlag: string, rationaleFlag: string): LineKind
  {
    var t := Trim(line);
    if IsChoiceMarker(t) then ChoiceLine(ChoiceDraft(t[0], Trim(t[2..])))
    else if Includes(t, answerFlag) then AnswerLine(AnswerOf(t, answerFlag))
    else if rationaleFlag != [] && Includes(t, rationaleFlag) then
      RationaleLine(Trim(SplitSecond(t, rationaleFlag).value))
    else if t != [] then TextLine(t)
    else BlankLine
  }

  /** The order of the tests in `Classify`, stated on the trimmed line. */
  lemma ClassifySpec(line: string, answerFlag: string, rationaleFlag: string)
    ensures var k := Classify(line, answerFlag, rationaleFlag); var t := Trim(line);
      && (k.ChoiceLine? <==> IsChoiceMarker(t))
      && (k.AnswerLine? <==> !IsChoiceMarker(t) && Includes(t, answerFlag))
      && (k.RationaleLine? <==>
            !IsChoiceMarker(t) && !Includes(t, answerFlag) && rationaleFlag != [] && Includes(t, rationaleFlag))
      && (k.BlankLine? <==> !IsChoiceMarker(t) && !Includes(t, answerFlag)
                            && !(rationaleFlag != [] && Includes(t, rationaleFlag)) && t == [])
      && (k.ChoiceLine? ==> |t| >= 2 && k.choice == ChoiceDraft(t[0], Trim(t[2..])))
      && (k.AnswerLine? ==> k.answer == AnswerOf(t, answerFlag))
      && (k.TextLine? ==> k.text == t && t != [])
  {
  }

  /** The loop's state: the text buffer, the pending choices and the questions emitted so far. */
  datatype SegState = SegState(buffer: string, pending: seq<ChoiceDraft>, out: seq<Parsed>)

  const Init := SegState([], [], [])

  /** Whether an answer-flag line with answer `a` closes a question, given the state before it. */
  predicate Emits(st: SegState, a: Option<string>) {
    Trim(st.buffer) != [] && |st.pending| > 0 && a.Some? && a.value != []
  }

  /** One iteration of the loop, once the line has been classified. */
  function Apply(st: SegState, k: LineKind): (r: SegState)
    ensures k.AnswerLine? ==> r.buffer == [] && r.pending == []
    ensures |r.out| == |st.out| + (if k.AnswerLine? && Emits(st, k.answer) then 1 else 0)
  {
    match k
    case ChoiceLine(c) => st.(pending := st.pending + [c])
    case AnswerLine(a) =>
      if Emits(st, a) then SegState([], [], st.out + [Parsed(Trim(st.buffer), a.value, st.pending, None)])
      else SegState([], [], st.out)
    case RationaleLine(rat) =>
      if |st.out| > 0 && rat != [] then
        var last := |st.out| - 1;
        st.(out := st.out[last := st.out[last].(rationale := Some(rat))])
      else st
    case TextLine(t) => st.(buffer := st.buffer + t + "\n\n")
    case BlankLine => st
  }

  /** The classification of every line. */
  function Kinds(lines: seq<string>, answerFlag: string, rationaleFlag: string): (ks: seq<LineKind>)
    ensures |ks| == |lines|
  {
    seq(|lines|, k requires 0 <= k < |lines| => Classify(lines[k], answerFlag, rationaleFlag))
  }

  /** The state after the loop has consumed lines of these kinds, one `Apply` per line in order. */
  function Run(ks: seq<LineKind>): SegState
  {
    if ks == [] then Init else Apply(Run(ks[..|ks| - 1]), ks[|ks| - 1])
  }

  lemma RunSnoc(ks: seq<LineKind>, i: nat)
    requires i < |ks|
    ensures Run(ks[..i + 1]) == Apply(Run(ks[..i]), ks[i])
  {
    assert ks[..i + 1][..i] == ks[..i];
  }

  /** The questions `saveItemData` stores for these lines; a trailing unanswered buffer is dropped. */
  function Segment(lines: seq<string>, answerFlag: string, rationaleFlag: string): seq<Parsed> {
    Run(Kinds(lines, answerFlag, rationaleFlag)).out
  }

  // ----- the rows the segmenter writes -----

  /** The question row stored for a parsed question. */
  function RowOf(documentId: string, p: Parsed): QuestionStore.QuestionRow {
    QuestionStore.QuestionRow(documentId, p.text, p.answer, p.rationale)
  }

  function QuestionRows(documentId: string, ps: seq<Parsed>): (r: seq<QuestionStore.QuestionRow>)
    ensures |r| == |ps|
    ensures forall k :: 0 <= k < |ps| ==> r[k] == RowOf(documentId, ps[k])
  {
    seq(|ps|, k requires 0 <= k < |ps| => RowOf(documentId, ps[k]))
  }

  lemma QuestionRowsSnoc(documentId: string, ps: seq<Parsed>, p: Parsed)
    ensures QuestionRows(documentId, ps + [p]) == QuestionRows(documentId, ps) + [RowOf(documentId, p)]
  {
    var r, q := QuestionRows(documentId, ps + [p]), QuestionRows(documentId, ps) + [RowOf(documentId, p)];
    assert forall k :: 0 <= k < |r| ==> r[k] == q[k];
  }

  lemma QuestionRowsUpdate(documentId: string, ps: seq<Parsed>, last: nat, p: Parsed)
    requires last < |ps|
    ensures QuestionRows(documentId, ps[last := p]) == QuestionRows(documentId, ps)[last := RowOf(documentId, p)]
  {
    var r, q := QuestionRows(documentId, ps[last := p]), QuestionRows(documentId, ps)[last := RowOf(documentId, p)];
    assert forall k :: 0 <= k < |r| ==> r[k] == q[k];
  }

  lemma UpdateAfterPrefix<T>(a: seq<T>, b: seq<T>, i: nat, x: T)
    requires i < |b|
    ensures (a + b)[|a| + i := x] == a + b[i := x]
  {
    var r, q := (a + b)[|a| + i := x], a + b[i := x];
    assert forall k :: 0 <= k < |r| ==> r[k] == q[k];
  }

  /** The pending choices tagged with the new question's id (`choices.map(...)`). */
  function TagChoices(id: nat, cs: seq<ChoiceDraft>): (r: seq<QuestionStore.ChoiceRow>)
    ensures |r| == |cs|
    ensures forall k :: 0 <= k < |cs| ==> r[k] == QuestionStore.ChoiceRow(id, cs[k].letter, cs[k].text)
  {
    seq(|cs|, k requires 0 <= k < |cs| => QuestionStore.ChoiceRow(id, cs[k].letter, cs[k].text))
  }

  /** The choice rows of questions stored with ids `base`, `base + 1`, ... */
  function ChoiceRows(base: nat, ps: seq<Parsed>): seq<QuestionStore.ChoiceRow> {
    if ps == [] then []
    else ChoiceRows(base, ps[..|ps| - 1]) + TagChoices(base + |ps| - 1, ps[|ps| - 1].choices)
  }

  lemma ChoiceRowsSnoc(base: nat, ps: seq<Parsed>, p: Parsed)
    ensures ChoiceRows(base, ps + [p]) == ChoiceRows(base, ps) + TagChoices(base + |ps|, p.choices)
  {
    assert (ps + [p])[..|ps|] == ps;
  }

  /** The choice rows depend on the questions' choices only. */
  lemma {:induction false} ChoiceRowsOnlyReadChoices(base: nat, ps: seq<Parsed>, qs: seq<Parsed>)
    requires |ps| == |qs|
    requires forall k :: 0 <= k < |ps| ==> ps[k].choices == qs[k].choices
    ensures ChoiceRows(base, ps) == ChoiceRows(base, qs)
  {
    if ps != [] {
      var ps', qs' := ps[..|ps| - 1], qs[..|qs| - 1];
      assert forall k :: 0 <= k < |ps'| ==> ps'[k] == ps[k] && qs'[k] == qs[k];
      ChoiceRowsOnlyReadChoices(base, ps', qs');
      assert ChoiceRows(base, ps) == ChoiceRows(base, ps') + TagChoices(base + |ps| - 1, ps[|ps| - 1].choices);
      assert ChoiceRows(base, qs) == ChoiceRows(base, qs') + TagChoices(base + |qs| - 1, qs[|qs| - 1].choices);
    }
  }

  /** The id of the question stored last, when questions were stored with ids from `base` on. */
  function LastId(base: nat, out: seq<Parsed>): Option<nat> {
    if |out| == 0 then None else Some(base + |out| - 1)
  }

  /**
   * What the loop of `saveItemData` keeps: its local variables hold the
   * buffer and pending choices of `st`, and the store holds, after `q0` and
   * `c0`, exactly the rows of the questions `st` has emitted.
   */
  ghost predicate Tracks(store: QuestionStore.Store, q0: seq<QuestionStore.QuestionRow>, c0: seq<QuestionStore.ChoiceRow>,
                         documentId: string, st: SegState,
                         currentQuestion: string, choices: seq<ChoiceDraft>, lastQuestionId: Option<nat>)
    reads store
  {
    && currentQuestion == st.buffer && choices == st.pending
    && store.questions == q0 + QuestionRows(documentId, st.out)
    && store.choices == c0 + ChoiceRows(|q0|, st.out)
    && lastQuestionId == LastId(|q0|, st.out)
  }

  /** The rows of one more emitted question, appended after the rows of the earlier ones. */
  lemma EmitRows(q0: seq<QuestionStore.QuestionRow>, c0: seq<QuestionStore.ChoiceRow>, documentId: string,
                 out: seq<Parsed>, p: Parsed)
    ensures q0 + QuestionRows(documentId, out) + [RowOf(documentId, p)] == q0 + QuestionRows(documentId, out + [p])
    ensures c0 + ChoiceRows(|q0|, out) + TagChoices(|q0| + |out|, p.choices) == c0 + ChoiceRows(|q0|, out + [p])
  {
    ChoiceRowsSnoc(|q0|, out, p);
    QuestionRowsSnoc(documentId, out, p);
  }

  /** Stores a complete question and its choices, as an answer-flag line does. */
  method StoreQuestion(store: QuestionStore.Store, documentId: string, question: string, answer: string,
                       choices: seq<ChoiceDraft>, ghost q0: seq<QuestionStore.QuestionRow>,
                       ghost c0: seq<QuestionStore.ChoiceRow>, ghost out: seq<Parsed>)
    returns (id: nat)
    requires store.questions == q0 + QuestionRows(documentId, out)
    requires store.choices == c0 + ChoiceRows(|q0|, out)
    modifies store
    ensures store.questions == q0 + QuestionRows(documentId, out + [Parsed(question, answer, choices, None)])
    ensures store.choices == c0 + ChoiceRows(|q0|, out + [Parsed(question, answer, choices, None)])
    ensures id == |q0| + |out|
  {
    id := store.CreateQuestion(documentId, question, answer);
    store.CreateChoices(TagChoices(id, choices));
    EmitRows(q0, c0, documentId, out, Parsed(question, answer, choices, None));
  }

  /** An answer-flag line: store the pending question if it is complete, then start afresh. */
  method CloseQuestion(store: QuestionStore.Store, documentId: string, answer: Option<string>,
                       ghost q0: seq<QuestionStore.QuestionRow>, ghost c0: seq<QuestionStore.ChoiceRow>, ghost st: SegState,
                       currentQuestion: string, choices: seq<ChoiceDraft>, lastQuestionId: Option<nat>)
    returns (lastQuestionId': Option<nat>)
    requires Tracks(store, q0, c0, documentId, st, currentQuestion, choices, lastQuestionId)
    modifies store
    ensures Tracks(store, q0, c0, documentId, Apply(st, AnswerLine(answer)), [], [], lastQuestionId')
  {
    ghost var st' := Apply(st, AnswerLine(answer));
    var question := Trim(currentQuestion);
    lastQuestionId' := lastQuestionId;
    if question != [] && |choices| > 0 && answer.Some? && answer.value != [] {
      assert Emits(st, answer);
      var id := StoreQuestion(store, documentId, question, answer.value, choices, q0, c0, st.out);
      lastQuestionId' := Some(id);
      assert st'.out == st.out + [Parsed(question, answer.value, choices, None)];
      assert store.questions == q0 + QuestionRows(documentId, st'.out);
      assert store.choices == c0 + ChoiceRows(|q0|, st'.out);
      assert |st'.out| == |st.out| + 1;
      assert id == |q0| + |st'.out| - 1;
      assert lastQuestionId' == LastId(|q0|, st'.out);
    } else {
      assert !Emits(st, answer);
      assert st'.out == st.out;
      assert lastQuestionId' == LastId(|q0|, st'.out);
    }
    assert store.questions == q0 + QuestionRows(documentId, st'.out);
    assert store.choices == c0 + ChoiceRows(|q0|, st'.out);
    assert lastQuestionId' == LastId(|q0|, st'.out);
    assert Tracks(store, q0, c0, documentId, st', [], [], lastQuestionId');
  }

  /** A rationale-flag line: attach a non-empty rationale to the question stored last. */
  method AttachRationale(store: QuestionStore.Store, documentId: string, rationale: string,
                         ghost q0: seq<QuestionStore.QuestionRow>, ghost c0: seq<QuestionStore.ChoiceRow>, ghost st: SegState,
                         currentQuestion: string, choices: seq<ChoiceDraft>, lastQuestionId: Option<nat>)
    requires Tracks(store, q0, c0, documentId, st, currentQuestion, choices, lastQuestionId)
    modifies store
    ensures Tracks(store, q0, c0, documentId, Apply(st, RationaleLine(rationale)), currentQuestion, choices, lastQuestionId)
  {
    if lastQuestionId.Some? && rationale != [] {
      store.UpdateRationale(lastQuestionId.value, rationale);
      ghost var last := |st.out| - 1;
      ghost var p := st.out[last].(rationale := Some(rationale));
      ghost var st' := Apply(st, RationaleLine(rationale));
      assert st'.out == st.out[last := p];
      QuestionRowsUpdate(documentId, st.out, last, p);
      UpdateAfterPrefix(q0, QuestionRows(documentId, st.out), last, RowOf(documentId, p));
      ChoiceRowsOnlyReadChoices(|q0|, st.out, st'.out);
    }
  }

  /** The body of the loop of `saveItemData`, for a line already classified. */
  method SaveLine(store: QuestionStore.Store, documentId: string, kind: LineKind,
                  ghost q0: seq<QuestionStore.QuestionRow>, ghost c0: seq<QuestionStore.ChoiceRow>, ghost st: SegState,
                  currentQuestion: string, choices: seq<ChoiceDraft>, lastQuestionId: Option<nat>)
    returns (currentQuestion': string, choices': seq<ChoiceDraft>, lastQuestionId': Option<nat>)
    requires Tracks(store, q0, c0, documentId, st, currentQuestion, choices, lastQuestionId)
    modifies store
    ensures Tracks(store, q0, c0, documentId, Apply(st, kind), currentQuestion', choices', lastQuestionId')
  {
    currentQuestion', choices', lastQuestionId' := currentQuestion, choices, lastQuestionId;
    match kind {
    case ChoiceLine(c) =>
      choices' := choices + [c];
    case AnswerLine(answer) =>
      lastQuestionId' := CloseQuestion(store, documentId, answer, q0, c0, st, currentQuestion, choices, lastQuestionId);
      currentQuestion', choices' := [], [];
    case RationaleLine(rationale) =>
      AttachRationale(store, documentId, rationale, q0, c0, st, currentQuestion, choices, lastQuestionId);
    case TextLine(t) =>
      currentQuestion' := currentQuestion + t + "\n\n";
    case BlankLine =>
    }
  }

  /**
   * saveItemData: walks the lines of `content`, creating a question and its
   * choices at every accepted answer-flag line and updating the rationale of
   * the last created question at every accepted rationale-flag line.
   */
  method SaveItemData(store: QuestionStore.Store, documentId: string, content: string,
                      answerFlag: string, rationaleFlag: string)
    modifies store
    ensures store.questions ==
            old(store.questions) + QuestionRows(documentId, Segment(SplitLines(content), answerFlag, rationaleFlag))
    ensures store.choices ==
            old(store.choices) + ChoiceRows(|old(store.questions)|, Segment(SplitLines(content), answerFlag, rationaleFlag))
  {
    var lines := SplitLines(content);
    ghost var kinds := Kinds(lines, answerFlag, rationaleFlag);
    var currentQuestion: string := [];
    var choices: seq<ChoiceDraft> := [];
    var lastQuestionId: Option<nat> := None;
    var i := 0;
    while i < |lines|
      invariant 0 <= i <= |lines|
      invariant Tracks(store, old(store.questions), old(store.choices), documentId, Run(kinds[..i]),
                       currentQuestion, choices, lastQuestionId)
    {
      var kind := Classify(lines[i], answerFlag, rationaleFlag);
      currentQuestion, choices, lastQuestionId :=
        SaveLine(store, documentId, kind, old(store.questions), old(store.choices), Run(kinds[..i]),
                 currentQuestion, choices, lastQuestionId);
      RunSnoc(kinds, i);
      i := i + 1;
    }
    assert kinds[..i] == kinds;
  }

  // ----- properties of the segmenter -----

  predicate ChoiceOk(c: ChoiceDraft) {
    'A' <= c.letter <= 'Z' && IsTrimmed(c.text)
  }

  /** What every stored question satisfies. */
  predicate QuestionOk(p: Parsed) {
    && p.text != [] && IsTrimmed(p.text)
    && |p.choices| > 0 && (forall j :: 0 <= j < |p.choices| ==> ChoiceOk(p.choices[j]))
    && p.answer != []
    && (p.rationale.Some? ==> p.rationale.value != [] && IsTrimmed(p.rationale.value))
  }

  predicate KindOk(k: LineKind) {
    && (k.ChoiceLine? ==> ChoiceOk(k.choice))
    && (k.RationaleLine? ==> IsTrimmed(k.rationale))
  }

  predicate StateOk(st: SegState) {
    && (forall j :: 0 <= j < |st.pending| ==> ChoiceOk(st.pending[j]))
    && (forall j :: 0 <= j < |st.out| ==> QuestionOk(st.out[j]))
  }

  lemma ClassifyOk(line: string, answerFlag: string, rationaleFlag: string)
    ensures KindOk(Classify(line, answerFlag, rationaleFlag))
  {
    var t := Trim(line);
    if IsChoiceMarker(t) {
      var c := ChoiceDraft(t[0], Trim(t[2..]));
      assert ChoiceOk(c);
      assert Classify(line, answerFlag, rationaleFlag) == ChoiceLine(c);
    } else if !Includes(t, answerFlag) && rationaleFlag != [] && Includes(t, rationaleFlag) {
      var r := Trim(SplitSecond(t, rationaleFlag).value);
      assert Classify(line, answerFlag, rationaleFlag) == RationaleLine(r);
    }
  }

  lemma ApplyOk(st: SegState, k: LineKind)
    requires StateOk(st) && KindOk(k)
    ensures StateOk(Apply(st, k))
  {
    match k
    case AnswerLine(a) =>
      if Emits(st, a) {
        var p := Parsed(Trim(st.buffer), a.value, st.pending, None);
        assert QuestionOk(p);
        var out := st.out + [p];
        assert Apply(st, k).out == out;
        assert forall j :: 0 <= j < |out| ==> QuestionOk(out[j]) by {
          forall j | 0 <= j < |out|
            ensures QuestionOk(out[j])
          {
            if j < |st.out| {
              assert out[j] == st.out[j];
            }
          }
        }
      }
    case RationaleLine(rat) =>
      if |st.out| > 0 && rat != [] {
        var last := |st.out| - 1;
        var q := st.out[last].(rationale := Some(rat));
        assert QuestionOk(q);
        var out := st.out[last := q];
        assert Apply(st, k).out == out;
        assert forall j :: 0 <= j < |out| ==> QuestionOk(out[j]) by {
          forall j | 0 <= j < |out|
            ensures QuestionOk(out[j])
          {
            if j < last {
              assert out[j] == st.out[j];
            }
          }
        }
      }
    case ChoiceLine(c) =>
      var pending := st.pending + [c];
      assert Apply(st, k).pending == pending;
      assert forall j :: 0 <= j < |pending| ==> ChoiceOk(pending[j]) by {
        forall j | 0 <= j < |pending|
          ensures ChoiceOk(pending[j])
        {
          if j < |st.pending| {
            assert pending[j] == st.pending[j];
          }
        }
      }
    case _ =>
  }

  lemma {:induction false} RunOk(ks: seq<LineKind>)
    requires forall i :: 0 <= i < |ks| ==> KindOk(ks[i])
    ensures StateOk(Run(ks))
  {
    if ks != [] {
      RunOk(ks[..|ks| - 1]);
      ApplyOk(Run(ks[..|ks| - 1]), ks[|ks| - 1]);
    }
  }

  /**
   * Every stored question has trimmed non-empty text, at least one choice,
   * a non-empty answer, choices lettered `A`..`Z` with trimmed text, and a
   * trimmed non-empty rationale if any.
   */
  lemma SegmentWellFormed(lines: seq<string>, answerFlag: string, rationaleFlag: string)
    ensures forall j :: 0 <= j < |Segment(lines, answerFlag, rationaleFlag)| ==>
              QuestionOk(Segment(lines, answerFlag, rationaleFlag)[j])
  {
    var ks := Kinds(lines, answerFlag, rationaleFlag);
    forall i | 0 <= i < |ks|
      ensures KindOk(ks[i])
    {
      ClassifyOk(lines[i], answerFlag, rationaleFlag);
    }
    RunOk(ks);
  }

  function AnswerLineCount(ks: seq<LineKind>): nat {
    if ks == [] then 0 else AnswerLineCount(ks[..|ks| - 1]) + (if ks[|ks| - 1].AnswerLine? then 1 else 0)
  }

  /** At most one question per answer-flag line. */
  lemma {:induction false} RunCount(ks: seq<LineKind>)
    ensures |Run(ks).out| <= AnswerLineCount(ks)
  {
    if ks != [] {
      RunCount(ks[..|ks| - 1]);
    }
  }

  lemma {:induction false} RunAppendQuiet(ks: seq<LineKind>, tail: seq<LineKind>)
    requires forall i :: 0 <= i < |tail| ==> !tail[i].AnswerLine? && !tail[i].RationaleLine?
    ensures Run(ks + tail).out == Run(ks).out
    decreases |tail|
  {
    if tail != [] {
      var front := tail[..|tail| - 1];
      var all := ks + tail;
      assert all[..|all| - 1] == ks + front;
      assert all[|all| - 1] == tail[|tail| - 1];
      RunAppendQuiet(ks, front);
      var k := tail[|tail| - 1];
      assert Run(all) == Apply(Run(ks + front), k);
      assert Apply(Run(ks + front), k).out == Run(ks + front).out;
    } else {
      assert ks + tail == ks;
    }
  }

  lemma KindsAppend(a: seq<string>, b: seq<string>, answerFlag: string, rationaleFlag: string)
    ensures Kinds(a + b, answerFlag, rationaleFlag) == Kinds(a, answerFlag, rationaleFlag) + Kinds(b, answerFlag, rationaleFlag)
  {
    var l, r := Kinds(a + b, answerFlag, rationaleFlag), Kinds(a, answerFlag, rationaleFlag) + Kinds(b, answerFlag, rationaleFlag);
    forall i | 0 <= i < |l|
      ensures l[i] == r[i]
    {
      if i < |a| {
        assert (a + b)[i] == a[i];
      } else {
        assert (a + b)[i] == b[i - |a|];
      }
    }
  }

  /** Lines after the last answer- or rationale-flag line never reach the store: a trailing buffer is dropped. */
  lemma TrailingLinesDropped(lines: seq<string>, tail: seq<string>, answerFlag: string, rationaleFlag: string)
    requires forall i :: 0 <= i < |tail| ==>
               var k := Classify(tail[i], answerFlag, rationaleFlag); !k.AnswerLine? && !k.RationaleLine?
    ensures Segment(lines + tail, answerFlag, rationaleFlag) == Segment(lines, answerFlag, rationaleFlag)
  {
    KindsAppend(lines, tail, answerFlag, rationaleFlag);
    RunAppendQuiet(Kinds(lines, answerFlag, rationaleFlag), Kinds(tail, answerFlag, rationaleFlag));
  }

  /**
   * An answer-flag line that stores nothing leaves the last stored question
   * the target of the next rationale, which overwrites only that question's
   * rationale.
   */
  lemma RationaleAfterRejectedAnswer(st: SegState, a: Option<string>, rat: string)
    requires !Emits(st, a) && |st.out| > 0 && rat != []
    ensures var out := Apply(Apply(st, AnswerLine(a)), RationaleLine(rat)).out;
      && |out| == |st.out|
      && out[|out| - 1] == st.out[|st.out| - 1].(rationale := Some(rat))
      && forall j :: 0 <= j < |out| - 1 ==> out[j] == st.out[j]
  {
  }

  /** A rationale line that is empty, or comes before any stored question, changes nothing. */
  lemma RationaleIgnored(st: SegState, rat: string)
    requires |st.out| == 0 || rat == []
    ensures Apply(st, RationaleLine(rat)) == st
  {
  }

  /** The rows of the i-th stored question's choices carry that question's id. */
  lemma {:induction false} ChoiceRowsIds(base: nat, ps: seq<Parsed>)
    ensures forall j :: 0 <= j < |ChoiceRows(base, ps)| ==> base <= ChoiceRows(base, ps)[j].questionId < base + |ps|
  {
    if ps != [] {
      ChoiceRowsIds(base, ps[..|ps| - 1]);
    }
  }

  // ----- convertNestedOlToParagraphs -----

  /** `String.fromCharCode(65 + i)`: the UTF-16 code unit `(65 + i) mod 2^16`. */
  function LetterCode(i: nat): (u: nat)
    ensures u < 0x1_0000
    ensures i < 26 ==> u == 65 + i
  {
    (65 + i) % 0x1_0000
  }

  /** A code unit as a character; a lone surrogate, which a `char` cannot hold, becomes U+FFFD. */
  function CodeUnitChar(u: nat): (c: char)
    requires u < 0x1_0000
    ensures 0xD800 <= u < 0xE000 || c as int == u
  {
    if 0xD800 <= u < 0xE000 then '\U{FFFD}' else u as char
  }

  /** The paragraph that replaces the i-th item of a nested list, as one line of plain text. */
  function ItemLine(i: nat, itemText: string): string {
    [CodeUnitChar(LetterCode(i))] + ". " + Trim(itemText)
  }

  /** The lines produced for the items of one nested list, in document order. */
  method NestedListParagraphs(items: seq<string>) returns (paragraphs: seq<string>)
    ensures |paragraphs| == |items|
    ensures forall i :: 0 <= i < |items| ==> paragraphs[i] == ItemLine(i, items[i])
  {
    paragraphs := [];
    var i := 0;
    while i < |items|
      invariant 0 <= i <= |items|
      invariant |paragraphs| == i
      invariant forall j :: 0 <= j < i ==> paragraphs[j] == ItemLine(j, items[j])
    {
      var letter := CodeUnitChar(LetterCode(i));
      var text := Trim(items[i]);
      paragraphs := paragraphs + [[letter] + ". " + text];
      i := i + 1;
    }
  }

  /** How trim treats a rendered item line. */
  lemma TrimItemLine(c: char, t: string)
    requires IsTrimmed(t)
    ensures Trim([c] + ". " + t) == (if IsWhitespace(c) then [] else [c]) + (if t == [] then "." else ". " + t)
  {
    var head := if IsWhitespace(c) then [] else [c];
    var pad := if IsWhitespace(c) then [c] else [];
    var body := if t == [] then "." else ". " + t;
    var tail := if t == [] then " " else [];
    assert [c] + ". " + t == pad + (head + body) + tail;
    assert AllWhitespace(pad) && AllWhitespace(tail);
    assert IsTrimmed(head + body);
    TrimOfPadded(pad, head + body, tail);
  }

  lemma ClassifyChoice(line: string, answerFlag: string, rationaleFlag: string)
    requires IsChoiceMarker(Trim(line))
    ensures Classify(line, answerFlag, rationaleFlag) == ChoiceLine(ChoiceDraft(Trim(line)[0], Trim(Trim(line)[2..])))
  {
  }

  /** The text after a choice marker, as the segmenter reads it back. */
  lemma TrimAfterMarker(c: char, t: string)
    requires IsTrimmed(t)
    ensures var line := [c] + (if t == [] then "." else ". " + t); Trim(line[2..]) == t
  {
    var line := [c] + (if t == [] then "." else ". " + t);
    if t == [] {
      assert line[2..] == [];
      TrimEmpty(line[2..]);
    } else {
      assert line[2..] == " " + t + [];
      TrimOfPadded(" ", t, []);
    }
  }

  /** A line `X. text`, with `X` in `A`..`Z` and trimmed text, is read as that choice. */
  lemma ChoiceLineOf(c: char, t: string, answerFlag: string, rationaleFlag: string)
    requires 'A' <= c <= 'Z' && IsTrimmed(t)
    ensures Classify([c] + ". " + t, answerFlag, rationaleFlag) == ChoiceLine(ChoiceDraft(c, t))
  {
    var line := [c] + (if t == [] then "." else ". " + t);
    assert Trim([c] + ". " + t) == line by {
      TrimItemLine(c, t);
    }
    TrimAfterMarker(c, t);
    ClassifyChoice([c] + ". " + t, answerFlag, rationaleFlag);
  }

  /**
   * The first 26 items become the choices `A.` .. `Z.` with the item's trimmed
   * text. This is about the item's line on its own: an item whose text holds a
   * line feed is cut at it when the document's text is split into lines, and
   * only its first line carries the letter.
   */
  lemma ItemLineIsChoice(i: nat, itemText: string, answerFlag: string, rationaleFlag: string)
    requires i < 26
    ensures Classify(ItemLine(i, itemText), answerFlag, rationaleFlag) ==
            ChoiceLine(ChoiceDraft((65 + i) as char, Trim(itemText)))
  {
    var c := (65 + i) as char;
    assert CodeUnitChar(LetterCode(i)) == c;
    ChoiceLineOf(c, Trim(itemText), answerFlag, rationaleFlag);
  }

  lemma ClassifyNotChoice(line: string, answerFlag: string, rationaleFlag: string)
    requires !IsChoiceMarker(Trim(line))
    ensures !Classify(line, answerFlag, rationaleFlag).ChoiceLine?
  {
  }

  /** From the 27th item on, the letter is no longer `A`..`Z` and the line is not read as a choice. */
  lemma ItemLineBeyondZ(i: nat, itemText: string, answerFlag: string, rationaleFlag: string)
    requires 26 <= i < 0x1_0000 - 65
    ensures !Classify(ItemLine(i, itemText), answerFlag, rationaleFlag).ChoiceLine?
  {
    var c := CodeUnitChar(LetterCode(i));
    assert !('A' <= c <= 'Z');
    var t := Trim(itemText);
    assert !IsChoiceMarker(Trim([c] + ". " + t)) by {
      TrimItemLine(c, t);
    }
    ClassifyNotChoice(ItemLine(i, itemText), answerFlag, rationaleFlag);
  }
}
