/**
 * The document layout the persisting segmenter is written for, and the proof
 * that the segmenter reads such a document back question by question.
 *
 * A block is laid out as its question paragraphs, one `X. text` line per
 * choice, `<answer flag> <answer>` and, optionally, `<rationale flag>
 * <rationale>`. Under the conditions of `BlockOk` (no line can be mistaken
 * for another kind), `Segment` of the rendered lines is exactly the list of
 * blocks, with the question paragraphs joined by blank lines.
 */
module ExtractorRoundTrip {
  import opened Wrappers
  import opened JsString
  import opened Extractor

  datatype Block = Block(question: seq<string>, choices: seq<ChoiceDraft>, answer: string, rationale: Option<string>)

  function ChoiceText(c: ChoiceDraft): string {
    [c.letter] + ". " + c.text
  }

  function ChoiceTexts(cs: seq<ChoiceDraft>): (r: seq<string>)
    ensures |r| == |cs|
    ensures forall i :: 0 <= i < |cs| ==> r[i] == ChoiceText(cs[i])
  {
    seq(|cs|, i requires 0 <= i < |cs| => ChoiceText(cs[i]))
  }

  /** The lines of one block. */
  function BlockLines(b: Block, answerFlag: string, rationaleFlag: string): seq<string> {
    b.question + ChoiceTexts(b.choices) + [answerFlag + " " + b.answer] + RationaleLines(b.rationale, rationaleFlag)
  }

  function RationaleLines(rationale: Option<string>, rationaleFlag: string): seq<string> {
    if rationale.Some? then [rationaleFlag + " " + rationale.value] else []
  }

  /** The lines of a document made of these blocks, in order. */
  function Render(blocks: seq<Block>, answerFlag: string, rationaleFlag: string): seq<string> {
    if blocks == [] then []
    else Render(blocks[..|blocks| - 1], answerFlag, rationaleFlag) + BlockLines(blocks[|blocks| - 1], answerFlag, rationaleFlag)
  }

  /** Paragraphs joined by a blank line, as the segmenter's trimmed buffer holds them. */
  function JoinParagraphs(qs: seq<string>): string {
    if |qs| <= 1 then (if qs == [] then [] else qs[0])
    else JoinParagraphs(qs[..|qs| - 1]) + "\n\n" + qs[|qs| - 1]
  }

  function Expected(b: Block): Parsed {
    Parsed(JoinParagraphs(b.question), b.answer, b.choices, b.rationale)
  }

  function ExpectedAll(blocks: seq<Block>): (r: seq<Parsed>)
    ensures |r| == |blocks|
  {
    if blocks == [] then [] else ExpectedAll(blocks[..|blocks| - 1]) + [Expected(blocks[|blocks| - 1])]
  }

  // ----- when a rendered document is unambiguous -----

  /** A flag starts with a non-blank character and cannot begin a choice marker. */
  predicate FlagOk(flag: string) {
    flag != [] && !IsWhitespace(flag[0]) && !IsChoiceMarker(flag + " ")
  }

  predicate QuestionLineOk(q: string, answerFlag: string, rationaleFlag: string) {
    q != [] && IsTrimmed(q) && !IsChoiceMarker(q) && !Includes(q, answerFlag) && !Includes(q, rationaleFlag)
  }

  predicate RationaleOk(r: string, answerFlag: string, rationaleFlag: string) {
    r != [] && IsTrimmed(r) && !Includes(" " + r, rationaleFlag) && !Includes(rationaleFlag + " " + r, answerFlag)
  }

  predicate BlockOk(b: Block, answerFlag: string, rationaleFlag: string) {
    && |b.question| >= 1
    && (forall i :: 0 <= i < |b.question| ==> QuestionLineOk(b.question[i], answerFlag, rationaleFlag))
    && |b.choices| >= 1
    && (forall i :: 0 <= i < |b.choices| ==> ChoiceOk(b.choices[i]))
    && b.answer != [] && IsTrimmed(b.answer) && '.' !in b.answer && !Includes(" " + b.answer, answerFlag)
    && (b.rationale.Some? ==> RationaleOk(b.rationale.value, answerFlag, rationaleFlag))
  }

  // ----- how each rendered line is classified -----

  lemma ClassifyQuestionLine(q: string, answerFlag: string, rationaleFlag: string)
    requires rationaleFlag != [] && QuestionLineOk(q, answerFlag, rationaleFlag)
    ensures Classify(q, answerFlag, rationaleFlag) == TextLine(q)
  {
    TrimIdentity(q);
  }

  lemma ClassifyChoiceText(c: ChoiceDraft, answerFlag: string, rationaleFlag: string)
    requires ChoiceOk(c)
    ensures Classify(ChoiceText(c), answerFlag, rationaleFlag) == ChoiceLine(c)
  {
    ChoiceLineOf(c.letter, c.text, answerFlag, rationaleFlag);
  }

  /** `flag + " " + text` is its own trim, and is a choice marker exactly when `flag + " "` is. */
  lemma FlaggedLine(flag: string, text: string)
    requires FlagOk(flag) && text != [] && IsTrimmed(text)
    ensures Trim(flag + " " + text) == flag + " " + text
    ensures !IsChoiceMarker(flag + " " + text)
    ensures flag + " " + text == flag + (" " + text)
  {
    var line := flag + " " + text;
    assert line[0] == flag[0] && line[|line| - 1] == text[|text| - 1];
    assert IsTrimmed(line);
    TrimIdentity(line);
    assert line[..2] == (flag + " ")[..2];
  }

  /** `" " + text` trims to `text`. */
  lemma TrimLeadingSpace(text: string)
    requires IsTrimmed(text)
    ensures Trim(" " + text) == text
  {
    assert " " + text + [] == " " + text;
    TrimOfPadded(" ", text, []);
  }

  lemma ClassifyTrimmedAnswer(line: string, answerFlag: string, rationaleFlag: string)
    requires Trim(line) == line && !IsChoiceMarker(line) && Includes(line, answerFlag)
    ensures Classify(line, answerFlag, rationaleFlag) == AnswerLine(AnswerOf(line, answerFlag))
  {
  }

  lemma ClassifyTrimmedRationale(line: string, answerFlag: string, rationaleFlag: string)
    requires Trim(line) == line && !IsChoiceMarker(line) && !Includes(line, answerFlag)
    requires rationaleFlag != [] && Includes(line, rationaleFlag)
    ensures SplitSecond(line, rationaleFlag).Some?
    ensures Classify(line, answerFlag, rationaleFlag) == RationaleLine(Trim(SplitSecond(line, rationaleFlag).value))
  {
  }

  lemma AnswerOfFlagged(answer: string, answerFlag: string)
    requires FlagOk(answerFlag)
    requires answer != [] && IsTrimmed(answer) && '.' !in answer && !Includes(" " + answer, answerFlag)
    ensures AnswerOf(answerFlag + " " + answer, answerFlag) == Some(answer)
  {
    FlaggedLine(answerFlag, answer);
    SplitSecondAfterPrefix(answerFlag, " " + answer);
    TrimLeadingSpace(answer);
  }

  lemma ClassifyAnswerLine(answer: string, answerFlag: string, rationaleFlag: string)
    requires FlagOk(answerFlag)
    requires answer != [] && IsTrimmed(answer) && '.' !in answer && !Includes(" " + answer, answerFlag)
    ensures Classify(answerFlag + " " + answer, answerFlag, rationaleFlag) == AnswerLine(Some(answer))
  {
    FlaggedLine(answerFlag, answer);
    IncludesPrefix(answerFlag, " " + answer);
    ClassifyTrimmedAnswer(answerFlag + " " + answer, answerFlag, rationaleFlag);
    AnswerOfFlagged(answer, answerFlag);
  }

  lemma ClassifyRationaleLine(r: string, answerFlag: string, rationaleFlag: string)
    requires FlagOk(rationaleFlag) && RationaleOk(r, answerFlag, rationaleFlag)
    ensures Classify(rationaleFlag + " " + r, answerFlag, rationaleFlag) == RationaleLine(r)
  {
    FlaggedLine(rationaleFlag, r);
    IncludesPrefix(rationaleFlag, " " + r);
    SplitSecondAfterPrefix(rationaleFlag, " " + r);
    TrimLeadingSpace(r);
    ClassifyTrimmedRationale(rationaleFlag + " " + r, answerFlag, rationaleFlag);
  }

  // ----- the kinds of a block's lines -----

  function TextKinds(qs: seq<string>): (ks: seq<LineKind>)
    ensures |ks| == |qs| && forall i :: 0 <= i < |qs| ==> ks[i] == TextLine(qs[i])
  {
    seq(|qs|, i requires 0 <= i < |qs| => TextLine(qs[i]))
  }

  function ChoiceKinds(cs: seq<ChoiceDraft>): (ks: seq<LineKind>)
    ensures |ks| == |cs| && forall i :: 0 <= i < |cs| ==> ks[i] == ChoiceLine(cs[i])
  {
    seq(|cs|, i requires 0 <= i < |cs| => ChoiceLine(cs[i]))
  }

  function RationaleKinds(r: Option<string>): seq<LineKind> {
    if r.Some? then [RationaleLine(r.value)] else []
  }

  lemma KindsOfQuestion(qs: seq<string>, answerFlag: string, rationaleFlag: string)
    requires rationaleFlag != []
    requires forall i :: 0 <= i < |qs| ==> QuestionLineOk(qs[i], answerFlag, rationaleFlag)
    ensures Kinds(qs, answerFlag, rationaleFlag) == TextKinds(qs)
  {
    var l, r := Kinds(qs, answerFlag, rationaleFlag), TextKinds(qs);
    forall i | 0 <= i < |qs|
      ensures l[i] == r[i]
    {
      ClassifyQuestionLine(qs[i], answerFlag, rationaleFlag);
    }
  }

  lemma KindsOfChoices(cs: seq<ChoiceDraft>, answerFlag: string, rationaleFlag: string)
    requires forall i :: 0 <= i < |cs| ==> ChoiceOk(cs[i])
    ensures Kinds(ChoiceTexts(cs), answerFlag, rationaleFlag) == ChoiceKinds(cs)
  {
    var l, r := Kinds(ChoiceTexts(cs), answerFlag, rationaleFlag), ChoiceKinds(cs);
    forall i | 0 <= i < |cs|
      ensures l[i] == r[i]
    {
      ClassifyChoiceText(cs[i], answerFlag, rationaleFlag);
    }
  }

  /** The kinds the segmenter sees on a block's lines. */
  function BlockKinds(b: Block): seq<LineKind> {
    TextKinds(b.question) + ChoiceKinds(b.choices) + [AnswerLine(Some(b.answer))] + RationaleKinds(b.rationale)
  }

  lemma KindsOfOne(line: string, k: LineKind, answerFlag: string, rationaleFlag: string)
    requires Classify(line, answerFlag, rationaleFlag) == k
    ensures Kinds([line], answerFlag, rationaleFlag) == [k]
  {
    var ks := Kinds([line], answerFlag, rationaleFlag);
    assert ks[0] == k;
  }

  lemma KindsOfAnswer(answer: string, answerFlag: string, rationaleFlag: string)
    requires FlagOk(answerFlag)
    requires answer != [] && IsTrimmed(answer) && '.' !in answer && !Includes(" " + answer, answerFlag)
    ensures Kinds([answerFlag + " " + answer], answerFlag, rationaleFlag) == [AnswerLine(Some(answer))]
  {
    ClassifyAnswerLine(answer, answerFlag, rationaleFlag);
    KindsOfOne(answerFlag + " " + answer, AnswerLine(Some(answer)), answerFlag, rationaleFlag);
  }

  lemma KindsOfRationale(rationale: Option<string>, answerFlag: string, rationaleFlag: string)
    requires FlagOk(rationaleFlag)
    requires rationale.Some? ==> RationaleOk(rationale.value, answerFlag, rationaleFlag)
    ensures Kinds(RationaleLines(rationale, rationaleFlag), answerFlag, rationaleFlag) == RationaleKinds(rationale)
  {
    if rationale.Some? {
      ClassifyRationaleLine(rationale.value, answerFlag, rationaleFlag);
      KindsOfOne(rationaleFlag + " " + rationale.value, RationaleLine(rationale.value), answerFlag, rationaleFlag);
    }
  }

  lemma KindsOfParts(q: seq<string>, c: seq<string>, a: seq<string>, r: seq<string>, answerFlag: string, rationaleFlag: string)
    ensures Kinds(q + c + a + r, answerFlag, rationaleFlag) ==
            Kinds(q, answerFlag, rationaleFlag) + Kinds(c, answerFlag, rationaleFlag)
            + Kinds(a, answerFlag, rationaleFlag) + Kinds(r, answerFlag, rationaleFlag)
  {
    KindsAppend(q, c, answerFlag, rationaleFlag);
    KindsAppend(q + c, a, answerFlag, rationaleFlag);
    KindsAppend(q + c + a, r, answerFlag, rationaleFlag);
  }

  lemma KindsOfBlock(b: Block, answerFlag: string, rationaleFlag: string)
    requires FlagOk(answerFlag) && FlagOk(rationaleFlag) && BlockOk(b, answerFlag, rationaleFlag)
    ensures Kinds(BlockLines(b, answerFlag, rationaleFlag), answerFlag, rationaleFlag) == BlockKinds(b)
  {
    var af, rf := answerFlag, rationaleFlag;
    KindsOfQuestion(b.question, af, rf);
    KindsOfChoices(b.choices, af, rf);
    KindsOfAnswer(b.answer, af, rf);
    KindsOfRationale(b.rationale, af, rf);
    KindsOfParts(b.question, ChoiceTexts(b.choices), [af + " " + b.answer], RationaleLines(b.rationale, rf), af, rf);
  }

  // ----- the loop from an arbitrary state -----

  function Fold(st: SegState, ks: seq<LineKind>): SegState {
    if ks == [] then st else Apply(Fold(st, ks[..|ks| - 1]), ks[|ks| - 1])
  }

  lemma {:induction false} FoldAppend(st: SegState, a: seq<LineKind>, b: seq<LineKind>)
    ensures Fold(st, a + b) == Fold(Fold(st, a), b)
    decreases |b|
  {
    if b == [] {
      assert a + b == a;
    } else {
      var front := b[..|b| - 1];
      assert (a + b)[..|a + b| - 1] == a + front;
      assert (a + b)[|a + b| - 1] == b[|b| - 1];
      FoldAppend(st, a, front);
    }
  }

  lemma {:induction false} RunIsFold(ks: seq<LineKind>)
    ensures Run(ks) == Fold(Init, ks)
  {
    if ks != [] {
      RunIsFold(ks[..|ks| - 1]);
    }
  }

  /** The buffer after the question paragraphs: each one followed by a blank line. */
  function Buffered(qs: seq<string>): string {
    if qs == [] then [] else Buffered(qs[..|qs| - 1]) + qs[|qs| - 1] + "\n\n"
  }

  lemma {:induction false} FoldTexts(st: SegState, qs: seq<string>)
    ensures Fold(st, TextKinds(qs)) == st.(buffer := st.buffer + Buffered(qs))
  {
    if qs == [] {
      assert st.buffer + [] == st.buffer;
    } else {
      var front, q := qs[..|qs| - 1], qs[|qs| - 1];
      var ks := TextKinds(qs);
      assert ks[..|ks| - 1] == TextKinds(front);
      FoldTexts(st, front);
      assert st.buffer + Buffered(front) + q + "\n\n" == st.buffer + Buffered(qs);
    }
  }

  lemma {:induction false} FoldChoices(st: SegState, cs: seq<ChoiceDraft>)
    ensures Fold(st, ChoiceKinds(cs)) == st.(pending := st.pending + cs)
  {
    if cs == [] {
      assert st.pending + [] == st.pending;
    } else {
      var front, c := cs[..|cs| - 1], cs[|cs| - 1];
      var ks := ChoiceKinds(cs);
      assert ks[..|ks| - 1] == ChoiceKinds(front);
      FoldChoices(st, front);
      assert st.pending + front + [c] == st.pending + cs;
    }
  }

  /** The joined paragraphs start with the first paragraph's first character and end with the last one's last. */
  lemma {:induction false} JoinParagraphsEnds(qs: seq<string>)
    requires |qs| >= 1 && forall i :: 0 <= i < |qs| ==> qs[i] != []
    ensures var j := JoinParagraphs(qs);
      j != [] && j[0] == qs[0][0] && j[|j| - 1] == qs[|qs| - 1][|qs[|qs| - 1]| - 1]
  {
    if |qs| > 1 {
      JoinParagraphsEnds(qs[..|qs| - 1]);
    }
  }

  lemma {:induction false} BufferedIsJoined(qs: seq<string>)
    requires |qs| >= 1
    ensures Buffered(qs) == JoinParagraphs(qs) + "\n\n"
  {
    if |qs| > 1 {
      BufferedIsJoined(qs[..|qs| - 1]);
    } else {
      assert qs[..0] == [];
    }
  }

  lemma TrimParagraphBreak(j: string)
    requires IsTrimmed(j)
    ensures Trim(j + "\n\n") == j
  {
    assert AllWhitespace("\n\n") by {
      assert IsWhitespace('\n');
    }
    assert [] + j + "\n\n" == j + "\n\n";
    TrimOfPadded([], j, "\n\n");
  }

  lemma TrimBuffered(qs: seq<string>)
    requires |qs| >= 1 && forall i :: 0 <= i < |qs| ==> qs[i] != [] && IsTrimmed(qs[i])
    ensures Trim(Buffered(qs)) == JoinParagraphs(qs) != []
  {
    var j := JoinParagraphs(qs);
    assert j != [] && IsTrimmed(j) by {
      JoinParagraphsEnds(qs);
      assert IsTrimmed(qs[0]) && IsTrimmed(qs[|qs| - 1]);
    }
    BufferedIsJoined(qs);
    TrimParagraphBreak(j);
  }

  /** An answer line after question text and choices closes the question. */
  lemma ApplyAnswer(out: seq<Parsed>, qs: seq<string>, cs: seq<ChoiceDraft>, answer: string)
    requires |qs| >= 1 && forall i :: 0 <= i < |qs| ==> qs[i] != [] && IsTrimmed(qs[i])
    requires |cs| >= 1 && answer != []
    ensures Apply(SegState(Buffered(qs), cs, out), AnswerLine(Some(answer))) ==
            SegState([], [], out + [Parsed(JoinParagraphs(qs), answer, cs, None)])
  {
    TrimBuffered(qs);
  }

  lemma FoldOne(st: SegState, k: LineKind)
    ensures Fold(st, [k]) == Apply(st, k)
  {
    assert [k][..0] == [];
  }

  /** A rationale line right after a question was closed attaches to that question. */
  lemma FoldRationale(out: seq<Parsed>, p: Parsed, rationale: Option<string>)
    requires p.rationale.None? && (rationale.Some? ==> rationale.value != [])
    ensures Fold(SegState([], [], out + [p]), RationaleKinds(rationale)) ==
            SegState([], [], out + [p.(rationale := rationale)])
  {
    if rationale.Some? {
      FoldOne(SegState([], [], out + [p]), RationaleLine(rationale.value));
      assert (out + [p])[|out| := p.(rationale := rationale)] == out + [p.(rationale := rationale)];
    } else {
      assert p.(rationale := rationale) == p;
    }
  }

  lemma FoldBlockKinds(out: seq<Parsed>, b: Block)
    requires |b.question| >= 1 && forall i :: 0 <= i < |b.question| ==> b.question[i] != [] && IsTrimmed(b.question[i])
    requires |b.choices| >= 1 && b.answer != [] && (b.rationale.Some? ==> b.rationale.value != [])
    ensures Fold(SegState([], [], out), BlockKinds(b)) == SegState([], [], out + [Expected(b)])
  {
    var t, c, a, r := TextKinds(b.question), ChoiceKinds(b.choices), [AnswerLine(Some(b.answer))], RationaleKinds(b.rationale);
    var st0 := SegState([], [], out);
    var st2 := SegState(Buffered(b.question), b.choices, out);
    var p := Parsed(JoinParagraphs(b.question), b.answer, b.choices, None);
    assert Fold(st0, t + c) == st2 by {
      FoldAppend(st0, t, c);
      FoldTexts(st0, b.question);
      assert [] + Buffered(b.question) == Buffered(b.question);
      FoldChoices(SegState(Buffered(b.question), [], out), b.choices);
      assert [] + b.choices == b.choices;
    }
    assert Fold(st0, t + c + a) == SegState([], [], out + [p]) by {
      FoldAppend(st0, t + c, a);
      FoldOne(st2, AnswerLine(Some(b.answer)));
      ApplyAnswer(out, b.question, b.choices, b.answer);
    }
    assert Fold(st0, t + c + a + r) == SegState([], [], out + [Expected(b)]) by {
      FoldAppend(st0, t + c + a, r);
      FoldRationale(out, p, b.rationale);
    }
  }

  /** One block, read from a state with an empty buffer and no pending choices, stores exactly that block. */
  lemma FoldBlock(out: seq<Parsed>, b: Block, answerFlag: string, rationaleFlag: string)
    requires FlagOk(answerFlag) && FlagOk(rationaleFlag) && BlockOk(b, answerFlag, rationaleFlag)
    ensures Fold(SegState([], [], out), Kinds(BlockLines(b, answerFlag, rationaleFlag), answerFlag, rationaleFlag)) ==
            SegState([], [], out + [Expected(b)])
  {
    KindsOfBlock(b, answerFlag, rationaleFlag);
    assert forall i :: 0 <= i < |b.question| ==> b.question[i] != [] && IsTrimmed(b.question[i]);
    FoldBlockKinds(out, b);
  }

  lemma {:induction false} FoldRender(blocks: seq<Block>, answerFlag: string, rationaleFlag: string)
    requires FlagOk(answerFlag) && FlagOk(rationaleFlag)
    requires forall i :: 0 <= i < |blocks| ==> BlockOk(blocks[i], answerFlag, rationaleFlag)
    ensures Fold(Init, Kinds(Render(blocks, answerFlag, rationaleFlag), answerFlag, rationaleFlag)) ==
            SegState([], [], ExpectedAll(blocks))
  {
    if blocks == [] {
      assert Kinds([], answerFlag, rationaleFlag) == [];
    } else {
      var front, b := blocks[..|blocks| - 1], blocks[|blocks| - 1];
      FoldRender(front, answerFlag, rationaleFlag);
      KindsAppend(Render(front, answerFlag, rationaleFlag), BlockLines(b, answerFlag, rationaleFlag), answerFlag, rationaleFlag);
      FoldAppend(Init, Kinds(Render(front, answerFlag, rationaleFlag), answerFlag, rationaleFlag),
                 Kinds(BlockLines(b, answerFlag, rationaleFlag), answerFlag, rationaleFlag));
      FoldBlock(ExpectedAll(front), b, answerFlag, rationaleFlag);
    }
  }

  /**
   * The segmenter inverts the layout: on the lines of a well-formed document
   * it stores exactly its blocks, in order, with their rationales.
   */
  lemma SegmentRender(blocks: seq<Block>, answerFlag: string, rationaleFlag: string)
    requires FlagOk(answerFlag) && FlagOk(rationaleFlag)
    requires forall i :: 0 <= i < |blocks| ==> BlockOk(blocks[i], answerFlag, rationaleFlag)
    ensures Segment(Render(blocks, answerFlag, rationaleFlag), answerFlag, rationaleFlag) == ExpectedAll(blocks)
  {
    RunIsFold(Kinds(Render(blocks, answerFlag, rationaleFlag), answerFlag, rationaleFlag));
    FoldRender(blocks, answerFlag, rationaleFlag);
  }

  /** The same, for the document's text as `saveItemData` receives it: the lines joined by line feeds. */
  lemma SegmentDocument(blocks: seq<Block>, answerFlag: string, rationaleFlag: string)
    requires FlagOk(answerFlag) && FlagOk(rationaleFlag)
    requires forall i :: 0 <= i < |blocks| ==> BlockOk(blocks[i], answerFlag, rationaleFlag)
    requires |blocks| >= 1
    requires forall i :: 0 <= i < |Render(blocks, answerFlag, rationaleFlag)| ==>
      '\n' !in Render(blocks, answerFlag, rationaleFlag)[i]
    ensures |Render(blocks, answerFlag, rationaleFlag)| >= 1
    ensures Segment(SplitLines(JoinLines(Render(blocks, answerFlag, rationaleFlag))), answerFlag, rationaleFlag)
            == ExpectedAll(blocks)
  {
    var b := blocks[|blocks| - 1];
    assert |BlockLines(b, answerFlag, rationaleFlag)| >= 1;
    SplitJoin(Render(blocks, answerFlag, rationaleFlag));
    SegmentRender(blocks, answerFlag, rationaleFlag);
  }
}
