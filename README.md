# Flash: the question segmenters, image correlation and quiz state

Flash turns a Word document of exam items into study material: flash cards
(question and answer) and multiple-choice quizzes with rationales. This
project models the deterministic heart of the application and proves what
it does with the lines, paragraphs and cards it is given:

- **The persisting segmenter** (`saveItemData`, module `Extractor`). It walks
  the trimmed lines of the document's plain text. Each line is a choice
  marker, an answer-flag line, a rationale-flag line or text, checked in that
  order. It creates question and choice rows in the backend and rewrites the
  rationale of the last question it created. The backend tables are the
  class `QuestionStore.Store`, whose `seq` fields the methods append to and
  update. `ExtractorRoundTrip` proves that on a document laid out as
  question, `X. choice` lines, answer line and optional rationale line, the
  segmenter stores exactly those blocks. The nested-list re-lettering
  (`convertNestedOlToParagraphs`) gives the i-th item the letter with code
  65 + i.
- **The image correlator** (`extractImages`, module `RationaleImages`). It
  counts the paragraphs that start with the rationale flag. After each one
  it walks forward over the following siblings to the next image, stopping
  at a paragraph with text. A `data:image/` source becomes a file tagged
  with the paragraph's ordinal. `base64ToFile` parses the `data:` URL
  (section 3 of RFC 2397) and decodes it with `atob`. `atob` is modelled in
  module `Base64` as the forgiving-base64 decode of the HTML and Infra
  standards, over the alphabet of section 4 of RFC 4648, and is proved to
  invert that section's padded encoder. `generateFileName` is modelled too.
- **The read-time segmenters.** The flash-card page (`FlashCardsPage`)
  attaches images by rationale ordinal, and an image wins over the text
  rationale. The multiple-choice page (`MultipleChoicePage`) carries the
  quiz state of existing cards over to rebuilt ones, and records a selected
  choice. The upload page (`HomePage`) has the minimal question/answer
  splitter and the upload checks. Both quiz pages share the wrap-around
  navigation of `Cards` (the same arithmetic is at
  src/app/multiple-choice/MultipleChoice.tsx:104 and :112-113).
- **The completion gate** (`generateRationalesForQuestions`, module
  `RationaleGenerator`). It selects the questions of a document that lack a
  rationale and carry no image index, builds one numbered prompt for them,
  and writes the model's answers back by position.
- **The quiz views.** `ChoiceCardView` covers the choice lock, the button
  colours and the rationale precedence of the multiple-choice card.
  `QuestionNavigatorView` covers the indicator colours and the current-card
  ring of the navigator.

The JavaScript string operations these rely on are in `JsString`: `trim`,
`includes`, `split(sep)[1]` (also with an empty separator), `replace(".",
"")`, `split("\n")`/`join("\n")` and the decimal rendering of integers.
`Wrappers` holds `Option` and `Result`.

Each loop of the source is a method with a `for` or `while` loop. Its
result, or the new state of the store, is tied to a function of the inputs:
a fold of a one-line step function over the lines, or a scan over the
siblings. The lemmas then state what the source promises about those
functions.

Three behaviours of the code are easy to misread, and the model follows the
code in each:

- In `extractImages`, the comment at
  src/app/services/rationaleImageService.ts:115 says the walk looks for the
  next sibling that is an image, but the code passes over a bare `<img>` next
  to the rationale paragraph: the test `nextElem.is("p > img")` at line 118
  never holds for a sibling of a paragraph. The only way out of the walk with
  an image is `find("img")` on an element that contains one
  (`RationaleImages.PassedOver`).
- On the upload page, an empty answer flag makes `split("")[1]` undefined on
  any line of fewer than two UTF-16 code units, so `.trim()` throws
  (`HomePage.EmptyFlagThrows`). A line of one character above U+FFFF is two
  code units and does not throw (`HomePage.EmptyFlagAstralLine`).
- In the completion gate, an entry that is missing or empty becomes `""`.

## Model

| member | source | states |
|---|---|---|
| JsString.Trim | src/app/services/extractorService.ts:70 | the result has no whitespace at either end and is no longer than the input |
| JsString.TrimIsSlice | src/app/services/extractorService.ts:70 | trim keeps exactly the slice between a whitespace prefix and a whitespace suffix of the input |
| JsString.TrimIdentity | src/app/services/extractorService.ts:70 | trim leaves a string unchanged if and only if it has no whitespace at either end |
| JsString.TrimEmpty | src/app/services/extractorService.ts:113 | a line trims to the empty (falsy) string if and only if it is all whitespace |
| JsString.IndexOfFrom | src/app/services/extractorService.ts:76 | the result is the first position at or after the start where the pattern occurs; none means no occurrence from there on |
| JsString.IncludesIff | src/app/services/extractorService.ts:76 | `includes` holds if and only if the pattern occurs at some position |
| JsString.SplitSecond | src/app/services/extractorService.ts:78-79 | `split(sep)[1]` exists exactly when the separator occurs, and holds no further separator; with an empty separator it exists exactly when the string has at least two UTF-16 code units, and is the second one |
| JsString.Utf16Length | src/app/page.tsx:102 | a string has at least as many UTF-16 code units as characters, and exactly as many when every character is in the Basic Multilingual Plane |
| JsString.SecondCodeUnit | src/app/page.tsx:102-104 | the second UTF-16 code unit is the second character when the first two are in the Basic Multilingual Plane, and U+FFFD when the first character is above U+FFFF |
| JsString.SplitSecondAfterPrefix | src/app/services/extractorService.ts:78-79 | splitting `sep + rest` gives back `rest` when `rest` holds no further separator |
| JsString.ReplaceFirstDot | src/app/services/extractorService.ts:81 | only the first period is removed; a string without a period is unchanged |
| JsString.SplitLines | src/app/services/extractorService.ts:62 | splitting gives at least one line, and no line holds a line feed |
| JsString.JoinSplit | src/app/services/extractorService.ts:62 | joining the split lines with line feeds gives back the text |
| JsString.SplitJoin | src/app/services/extractorService.ts:62 | splitting joined lines that hold no line feed gives back the lines |
| JsString.FirstIndexOfChar | src/app/services/rationaleImageService.ts:150 | the result is the first position of the character, and none means the character does not occur |
| JsString.NumberToString | src/app/services/rationaleImageService.ts:53 | a non-empty run of decimal digits, with a leading zero only for zero |
| JsString.ParseNumberToString | src/app/services/rationaleImageService.ts:53 | reading the digits back gives the number |
| JsString.NumberToStringInjective | src/app/services/rationaleImageService.ts:53 | distinct numbers have distinct renderings |
| Base64.BinaryString | src/app/services/rationaleImageService.ts:159 | one character per byte, whose code is that byte |
| Base64.Atob | src/app/services/rationaleImageService.ts:159 | every character of a decoded binary string has a code below 256 |
| Base64.DecodeEncodeNoPad | src/app/services/rationaleImageService.ts:159 | decoding the unpadded base64 encoding of any bytes gives the bytes back |
| Base64.AtobEncode | src/app/services/rationaleImageService.ts:159 | `atob` of the padded base64 encoding of any bytes is their binary string |
| Base64.EncodeChars | src/app/services/rationaleImageService.ts:159 | the padded encoding uses only the alphabet and '=', and is empty only for no bytes |
| QuestionStore.ApplyUpdate | src/app/services/questionService.ts:57-69 | an update sets the rationale of the row with its id, leaves every other row alone, and changes nothing for a missing id |
| QuestionStore.ApplyUpdates | src/app/services/questionService.ts:71-87 | applying a batch of updates keeps the number of rows |
| QuestionStore.ApplyUpdatesEffect | src/app/services/questionService.ts:71-87 | with distinct ids, each named row gets its update's rationale and every row not named is unchanged |
| QuestionStore.Store.CreateQuestion | src/app/services/questionService.ts:5-16 | appends the question without rationale, returns its new id (the previous row count) and leaves the choices alone |
| QuestionStore.Store.CreateChoices | src/app/services/choiceService.ts:5-13 | appends the choice rows in order and leaves the questions alone |
| QuestionStore.Store.UpdateRationale | src/app/services/questionService.ts:57-69 | the questions become the single-update result and the choices are unchanged |
| QuestionStore.Store.BulkUpdateRationales | src/app/services/questionService.ts:71-87 | the updates are applied one after another in the given order; the choices are unchanged |
| Extractor.Classify | src/app/services/extractorService.ts:70-115 | how one trimmed line is read: a choice marker, the answer flag, a non-empty rationale, or text, checked in the order `ClassifySpec` states |
| Extractor.ClassifySpec | src/app/services/extractorService.ts:70-115 | on the trimmed line: a choice marker first (even with the answer flag in it), else the answer flag, else a non-empty rationale flag, else text or blank; a choice is the first character and the trimmed rest after two |
| Extractor.Run | src/app/services/extractorService.ts:69-116 | the loop state after lines of the given kinds, one step per line in order; `SegmentWellFormed` and `RunCount` state its properties |
| Extractor.Apply | src/app/services/extractorService.ts:76-104 | an answer line empties the buffer and the pending choices whether or not it stores a question, and stores one exactly when the trimmed buffer, the pending choices and the answer are all non-empty |
| Extractor.TagChoices | src/app/services/extractorService.ts:93-96 | every pending choice, in order, becomes a row with its letter and text and the new question's id |
| Extractor.StoreQuestion | src/app/services/extractorService.ts:84-98 | a stored question is appended with no rationale, its id is the number of rows before it, and its choice rows carry that id |
| Extractor.CloseQuestion | src/app/services/extractorService.ts:76-104 | the store and the loop variables after an answer-flag line are those of the step function; the last id moves only when a question is stored |
| Extractor.AttachRationale | src/app/services/extractorService.ts:105-112 | the store after a rationale-flag line is that of the step function: only the last stored question's rationale changes |
| Extractor.SaveLine | src/app/services/extractorService.ts:69-116 | one loop pass keeps the store equal to the rows of the questions segmented so far |
| Extractor.Segment | src/app/services/extractorService.ts:56-121 | the questions `saveItemData` stores for the lines, a trailing unanswered buffer dropped; `SaveItemData` ties the store to it, `SegmentWellFormed` and `TrailingLinesDropped` state its properties |
| Extractor.SaveItemData | src/app/services/extractorService.ts:56-121 | the store gains exactly the rows of the segmented questions, in order, with each choice row tagged with its question's id |
| Extractor.SegmentWellFormed | src/app/services/extractorService.ts:72-111 | every stored question has trimmed non-empty text, a non-empty answer, at least one choice lettered A..Z with trimmed text, and a non-empty trimmed rationale if any |
| Extractor.RunCount | src/app/services/extractorService.ts:76-100 | no more questions are stored than there are answer-flag lines |
| Extractor.TrailingLinesDropped | src/app/services/extractorService.ts:113-116 | text after the last flag line never reaches the store |
| Extractor.RationaleAfterRejectedAnswer | src/app/services/extractorService.ts:83-111 | after an answer line that stores nothing, a rationale overwrites only the rationale of the question stored before |
| Extractor.RationaleIgnored | src/app/services/extractorService.ts:109-111 | an empty rationale, or one before any stored question, changes nothing |
| Extractor.ChoiceRowsIds | src/app/services/extractorService.ts:93-96 | every choice row carries the id of one of the questions stored in this run |
| Extractor.ChoiceLineOf | src/app/services/extractorService.ts:72-75 | a line `X. text` with X in A..Z and trimmed text is read as exactly that choice |
| Extractor.LetterCode | src/app/services/extractorService.ts:17 | the letter's code unit is below 2^16, and is 65 + i for the first 26 items |
| Extractor.CodeUnitChar | src/app/services/extractorService.ts:17 | a code unit outside the surrogate range becomes the character with that code |
| Extractor.NestedListParagraphs | src/app/services/extractorService.ts:16-20 | one paragraph per item, in order: the item's letter, a period, a space and the trimmed item text |
| Extractor.ItemLineIsChoice | src/app/services/extractorService.ts:16-19 | the first 26 items come back from the segmenter as the choices A..Z with the item's trimmed text |
| Extractor.ItemLineBeyondZ | src/app/services/extractorService.ts:17 | from the 27th item on, the paragraph is not read as a choice |
| ExtractorRoundTrip.ClassifyQuestionLine | src/app/services/extractorService.ts:113-114 | a question line of the layout is read as text |
| ExtractorRoundTrip.ClassifyChoiceText | src/app/services/extractorService.ts:72-75 | a rendered choice line is read back as that choice |
| ExtractorRoundTrip.ClassifyAnswerLine | src/app/services/extractorService.ts:76-81 | `<answer flag> <answer>` is read as that answer |
| ExtractorRoundTrip.ClassifyRationaleLine | src/app/services/extractorService.ts:105-107 | `<rationale flag> <rationale>` is read as that rationale |
| ExtractorRoundTrip.BufferedIsJoined | src/app/services/extractorService.ts:113-114 | the buffer holds the question paragraphs joined by blank lines, followed by a blank line |
| ExtractorRoundTrip.FoldBlock | src/app/services/extractorService.ts:69-116 | the lines of one block, read from an empty buffer, store exactly that block with its rationale |
| ExtractorRoundTrip.SegmentRender | src/app/services/extractorService.ts:69-116 | the segmenter inverts the layout: on a well-formed document it stores exactly its blocks, in order |
| ExtractorRoundTrip.SegmentDocument | src/app/services/extractorService.ts:62-116 | the same round trip for the document text, as the lines joined by line feeds |
| RationaleImages.WalkEnd | src/app/services/rationaleImageService.ts:116-128 | the walk ends at or after its start and never past the last sibling |
| RationaleImages.WalkEndIsFirstStop | src/app/services/rationaleImageService.ts:116-128 | the walk passes over every sibling before the first one that holds an image or is a paragraph with text, and stops there |
| RationaleImages.FindImageAfter | src/app/services/rationaleImageService.ts:116-131 | the `while` walk returns the source the walk specification finds |
| RationaleImages.ImageAfter | src/app/services/rationaleImageService.ts:116-131 | the `src` the walk from a sibling finds: the first image inside the first sibling that holds an image or is a paragraph with text, none when a text paragraph or the end comes first; its properties are the walk lemmas that follow |
| RationaleImages.ImageAfterIff | src/app/services/rationaleImageService.ts:116-131 | an image is found if and only if it is the first image inside the first sibling that stops the walk |
| RationaleImages.ImageBeforeText | src/app/services/rationaleImageService.ts:119-126 | a paragraph with both text and an image ends the walk with its image |
| RationaleImages.PassedOver | src/app/services/rationaleImageService.ts:118-127 | a bare image sibling and an empty paragraph are passed over |
| RationaleImages.ParseDataUrl | src/app/services/rationaleImageService.ts:150-156 | the pattern `^data:([^;]+);base64,(.+)$` as a parse into type and payload; what it accepts is stated by the three lemmas that follow |
| RationaleImages.ParseDataUrlSound | src/app/services/rationaleImageService.ts:150-156 | a match has a non-empty type without ';', a non-empty payload without line terminators, and the URL is made of them |
| RationaleImages.ParseDataUrlOf | src/app/services/rationaleImageService.ts:150-156 | every string of the pattern's form matches, with its type and payload as the groups |
| RationaleImages.ParseDataUrlIff | src/app/services/rationaleImageService.ts:150-156 | the pattern yields a type and payload if and only if the URL is exactly `data:<type>;base64,<payload>` with well-formed parts |
| RationaleImages.FileType | src/app/services/rationaleImageService.ts:167-168 | the file keeps a printable lower-case ASCII type unchanged; otherwise the type keeps its length or is dropped |
| RationaleImages.CharCodes | src/app/services/rationaleImageService.ts:160-164 | the byte array has the string's length, and byte i is char code i modulo 256 |
| RationaleImages.CopyCharCodes | src/app/services/rationaleImageService.ts:160-164 | the loop fills a new array with the char codes |
| RationaleImages.DataUrlToFile | src/app/services/rationaleImageService.ts:148-169 | a file is made if and only if the URL matches and its payload decodes; it has the given name |
| RationaleImages.Base64ToFile | src/app/services/rationaleImageService.ts:148-169 | the method returns the file of the specification, or the error it throws |
| RationaleImages.CharCodesOfBinary | src/app/services/rationaleImageService.ts:162-164 | copying a binary string's char codes gives back its bytes |
| RationaleImages.DataUrlRoundTrip | src/app/services/rationaleImageService.ts:148-169 | bytes encoded as a base64 `data:` URL come back as a file with exactly those bytes |
| RationaleImages.FlagCount | src/app/services/rationaleImageService.ts:113-114 | there are no more rationale paragraphs than siblings looked at |
| RationaleImages.FlagCountStep | src/app/services/rationaleImageService.ts:113-138 | the counter grows by one exactly at each rationale paragraph, whatever follows it |
| RationaleImages.EmptyFlagCountsParagraphs | src/app/services/rationaleImageService.ts:113-114 | with an empty flag every paragraph counts |
| RationaleImages.EntryFor | src/app/services/rationaleImageService.ts:130-137 | an entry carries the ordinal of its rationale paragraph |
| RationaleImages.EntryForDataImage | src/app/services/rationaleImageService.ts:130-136 | a `data:image/` source always gives an entry unless converting it throws |
| RationaleImages.ConvertImageAfter | src/app/services/rationaleImageService.ts:116-137 | the callback's work for one rationale paragraph is the entry of the specification |
| RationaleImages.ExtractImages | src/app/services/rationaleImageService.ts:94-146 | the method returns every entry of the scan, or nothing once a conversion threw |
| RationaleImages.Scan | src/app/services/rationaleImageService.ts:109-145 | the `each` callback over the first siblings: the entries so far, in paragraph order, or the first conversion error; its properties are the scan lemmas that follow |
| RationaleImages.ExtractedImages | src/app/services/rationaleImageService.ts:94-146 | the result of `extractImages`: every entry of the scan, or the empty list once a conversion threw (see `AllOrNothing`) |
| RationaleImages.ScanFailureSticks | src/app/services/rationaleImageService.ts:142-145 | once a conversion has thrown, the whole scan has failed |
| RationaleImages.AllOrNothing | src/app/services/rationaleImageService.ts:142-145 | an image that fails to convert empties the whole result |
| RationaleImages.ScanIndices | src/app/services/rationaleImageService.ts:109-140 | entries come in strictly increasing ordinal order (so one per ordinal), each below the number of rationale paragraphs |
| RationaleImages.ScanEntriesSound | src/app/services/rationaleImageService.ts:130-138 | every entry is the converted `data:image/` image found after the rationale paragraph with its ordinal |
| RationaleImages.ScanEntriesComplete | src/app/services/rationaleImageService.ts:130-138 | every rationale paragraph followed by a `data:image/` image has an entry with its ordinal |
| RationaleImages.GenerateFileName | src/app/services/rationaleImageService.ts:50-55 | with an index the path is `<documentId>/rationale-<index>-<timestamp>.png`, without one `<documentId>/rationale-<timestamp>.png`; either way it starts with the document id and ends in `.png` |
| RationaleImages.GenerateFileNameInjective | src/app/services/rationaleImageService.ts:50-55 | within one document, the path determines the index (or its absence) and the timestamp |
| Cards.NewCard | src/app/flashcards/FlashCards.tsx:42-46 | a new card has the given question, choices and answer, and no rationale, image or selection |
| Cards.Next | src/app/flashcards/FlashCards.tsx:101 | the next index is within the deck |
| Cards.Prev | src/app/flashcards/FlashCards.tsx:111-113 | the previous index of a card in the deck is within the deck |
| Cards.PrevNext | src/app/flashcards/FlashCards.tsx:101-113 | going back undoes going on |
| Cards.NextPrev | src/app/flashcards/FlashCards.tsx:101-113 | going on undoes going back |
| Cards.AdvanceWithin | src/app/flashcards/FlashCards.tsx:101 | short of the last card, k presses of Next move k places |
| Cards.FullRound | src/app/flashcards/FlashCards.tsx:101 | as many Next presses as there are cards come back to the same card |
| FlashCardsPage.FindFrom | src/app/flashcards/FlashCards.tsx:51-53 | the lookup finds the first row with the index, and none means no row has it |
| FlashCardsPage.NewestImageWins | src/app/flashcards/FlashCards.tsx:51-53 | with the rows newest first, the image found is at least as new as any row with that index |
| FlashCardsPage.BuildFlashcards | src/app/flashcards/FlashCards.tsx:26-67 | the loop builds the cards of the fold of the step function over the lines, and nothing without an answer flag |
| FlashCardsPage.Step | src/app/flashcards/FlashCards.tsx:37-65 | one loop pass over a line, as the three line lemmas that follow state case by case |
| FlashCardsPage.AnswerLine | src/app/flashcards/FlashCards.tsx:37-48 | an answer line adds a card exactly when the trimmed buffer is non-empty, with the trimmed text after the flag (periods kept); it empties the buffer and wins over a rationale flag on the same line |
| FlashCardsPage.RationaleLine | src/app/flashcards/FlashCards.tsx:49-61 | a rationale line gives the last card the image for the current ordinal, leaving its text alone, or else the trimmed text; it is a no-op before any card, and the ordinal advances in every case |
| FlashCardsPage.TextLine | src/app/flashcards/FlashCards.tsx:62-65 | a non-blank line is appended untrimmed with a line feed; a blank one changes nothing |
| FlashCardsPage.Run | src/app/flashcards/FlashCards.tsx:36-66 | the loop state after the lines, from no cards, an empty buffer and ordinal 0; `RunCounts` and `RunCardsWellFormed` state its properties |
| FlashCardsPage.RunCounts | src/app/flashcards/FlashCards.tsx:36-66 | the image ordinal is the number of rationale lines so far, and there are no more cards than answer lines |
| FlashCardsPage.RunCardsWellFormed | src/app/flashcards/FlashCards.tsx:36-66 | every card has a non-empty trimmed question and no choices |
| MultipleChoicePage.FindQuestionFrom | src/app/multiple-choice/MultipleChoice.tsx:47-49 | the lookup finds the first card with the question, and none means no card has it |
| MultipleChoicePage.CarryOver | src/app/multiple-choice/MultipleChoice.tsx:47-53 | a rebuilt card with the quiz state of the first existing card with its question, as `CarryOverFirstMatch` states |
| MultipleChoicePage.CarryOverFirstMatch | src/app/multiple-choice/MultipleChoice.tsx:47-53 | only the selection and the revealed state are copied, from the first card with an identical question; with none the new card keeps its unset state |
| MultipleChoicePage.ChoiceOf | src/app/multiple-choice/MultipleChoice.tsx:34-37 | a choice line's letter is A..Z and its text is trimmed |
| MultipleChoicePage.Step | src/app/multiple-choice/MultipleChoice.tsx:54-58 | the last-card index always points at the newest card, or is -1 when there is none |
| MultipleChoicePage.Run | src/app/multiple-choice/MultipleChoice.tsx:33-68 | after any lines the last-card index points at the newest card, or is -1 when there is none |
| MultipleChoicePage.BuildMultipleChoice | src/app/multiple-choice/MultipleChoice.tsx:26-69 | the loop builds the cards of the fold of the step function over the lines, and nothing without an answer flag |
| MultipleChoicePage.ProcessLine | src/app/multiple-choice/MultipleChoice.tsx:34-67 | one loop pass updates the four loop variables as the step function does |
| MultipleChoicePage.ChoiceLine | src/app/multiple-choice/MultipleChoice.tsx:34-38 | a choice line is a choice even when it also holds the answer flag |
| MultipleChoicePage.AnswerLine | src/app/multiple-choice/MultipleChoice.tsx:38-58 | an answer line adds a card exactly when the buffer is non-empty and a choice is pending (an empty answer allowed), with the untrimmed buffer and the pending choices in order; buffer and choices are emptied either way |
| MultipleChoicePage.RationaleLine | src/app/multiple-choice/MultipleChoice.tsx:59-64 | a rationale line overwrites the newest card's rationale, even with empty text, and is a no-op before any card |
| MultipleChoicePage.StepWellFormed | src/app/multiple-choice/MultipleChoice.tsx:33-67 | one line keeps every card with a non-empty question and at least one lettered choice |
| MultipleChoicePage.RunCardsWellFormed | src/app/multiple-choice/MultipleChoice.tsx:33-68 | every card built has a non-empty question and at least one lettered choice |
| MultipleChoicePage.SelectChoice | src/app/multiple-choice/MultipleChoice.tsx:119-127 | the deck keeps its length and only the current card changes, gaining the selection and the revealed state |
| MultipleChoicePage.SelectChoiceIdempotent | src/app/multiple-choice/MultipleChoice.tsx:119-127 | selecting the same choice again changes nothing |
| MultipleChoicePage.SelectionSurvivesRebuild | src/app/multiple-choice/MultipleChoice.tsx:47-53 | a rebuilt card keeps the selection made on the first card with its question |
| HomePage.HandleFileChange | src/app/page.tsx:58-78 | the outcome of a change event: the toast of the first failing check with the state left alone, or the file taken; `FileChangeChecks` states the order |
| HomePage.FileChangeChecks | src/app/page.tsx:59-77 | the checks run in order (no file, over 10 MiB, not a DOCX), each toast is raised exactly when the earlier checks pass and its own fails, and a file is taken only when every check passes |
| HomePage.HandleDrop | src/app/page.tsx:133-140 | a drop clears the drag and takes the first dropped file, if any |
| HomePage.DropBypassesChecks | src/app/page.tsx:137-139 | a file the input rejects as too large and not a DOCX is taken when dropped |
| HomePage.ProcessLine | src/app/page.tsx:101-111 | one pass of the loop body yields the new buffer and cards of the step function, or the exception it throws |
| HomePage.GenerateFlashcards | src/app/page.tsx:96-114 | the loop builds the cards of the fold of the step function over the lines, or the exception it throws |
| HomePage.Step | src/app/page.tsx:101-111 | one loop pass, or the exception it throws; the line lemmas that follow state it case by case |
| HomePage.AnswerLine | src/app/page.tsx:101-108 | a flag line adds a card exactly when the trimmed buffer is non-empty, with the trimmed text after the first flag; the buffer is emptied either way |
| HomePage.TextLine | src/app/page.tsx:109-111 | every other line, empty ones included, goes into the buffer with a line feed |
| HomePage.Run | src/app/page.tsx:100-112 | the state after the lines, a thrown exception ending the loop for good; the run lemmas that follow state its properties |
| HomePage.RunFailureSticks | src/app/page.tsx:100-112 | once a line has thrown, no later line matters |
| HomePage.RunCardsBounded | src/app/page.tsx:100-112 | with a non-empty flag nothing throws, there are no more cards than flag lines, and every question is non-empty and trimmed |
| HomePage.EmptyFlagThrows | src/app/page.tsx:101-104 | with an empty flag, a line of fewer than two UTF-16 code units throws, whatever came before |
| HomePage.EmptyFlagStep | src/app/page.tsx:101-108 | with an empty flag a line throws if and only if it has fewer than two UTF-16 code units; otherwise it closes the buffer with the second code unit, trimmed, as the answer |
| HomePage.EmptyFlagAstralLine | src/app/page.tsx:101-104 | a line of one character above U+FFFF is two code units, so with an empty flag it does not throw |
| HomePage.TrailingTextDropped | src/app/page.tsx:100-114 | text after the last flag line never becomes a card |
| RationaleGenerator.QuestionsByDocument | src/app/services/questionService.ts:19-42 | the document's questions with their choices, oldest first, each once, none left out (the two lemmas that follow) |
| RationaleGenerator.QuestionsUpToFacts | src/app/services/questionService.ts:19-41 | the query returns only rows of the document, each once, oldest first |
| RationaleGenerator.QuestionsUpToComplete | src/app/services/questionService.ts:19-41 | the query leaves out no row of the document |
| RationaleGenerator.Candidates | src/app/services/rationaleGeneratorService.ts:38-44 | every candidate is a position in the question list |
| RationaleGenerator.CandidatesIff | src/app/services/rationaleGeneratorService.ts:38-44 | a position is a candidate if and only if its rationale is missing or blank and the position is not an image index; candidates keep list order, and without such a position there is none |
| RationaleGenerator.CandidateIdsIncreasing | src/app/services/rationaleGeneratorService.ts:35-44 | the candidates' question ids are distinct and increasing |
| RationaleGenerator.ChoiceLines | src/app/services/rationaleGeneratorService.ts:52-54 | one prompt line per choice |
| RationaleGenerator.BlockLines | src/app/services/rationaleGeneratorService.ts:50-56 | a block has a header, one line per choice, an answer line and a blank line |
| RationaleGenerator.AppendChoiceLines | src/app/services/rationaleGeneratorService.ts:52-54 | the inner loop appends each choice line followed by a line feed |
| RationaleGenerator.Prompt | src/app/services/rationaleGeneratorService.ts:49-57 | the prompt text built from the candidates' blocks, numbered from 1 in candidate order; `BuildPrompt` ties the loops to it and `PromptSplits` states its lines |
| RationaleGenerator.BuildPrompt | src/app/services/rationaleGeneratorService.ts:49-57 | the nested loops build the prompt of the specification: the candidates' blocks numbered from 1, in candidate order |
| RationaleGenerator.PromptSplits | src/app/services/rationaleGeneratorService.ts:49-57 | when no field holds a line feed, the prompt's lines are exactly the blocks' lines |
| RationaleGenerator.Updates | src/app/services/rationaleGeneratorService.ts:63-66 | one update per candidate |
| RationaleGenerator.GenerateRationales | src/app/services/rationaleGeneratorService.ts:31-69 | the store's questions become those of the gate specification, the choices are unchanged, and the prompt sent is the specified one (none when the gate returns early) |
| RationaleGenerator.SentPrompt | src/app/services/rationaleGeneratorService.ts:35-59 | the prompt the gate sends for the document, none when no question needs a rationale (see `RerunIsNoOp`) |
| RationaleGenerator.GateRows | src/app/services/rationaleGeneratorService.ts:31-69 | the question rows after the gate; `GateEffect` and `FilledAfterGate` state what changes |
| RationaleGenerator.GateEffect | src/app/services/rationaleGeneratorService.ts:63-68 | with a reply, the i-th candidate's row gets the i-th answer or "" and every other row is unchanged; without one nothing changes |
| RationaleGenerator.QuestionsAfterRationales | src/app/services/rationaleGeneratorService.ts:35 | rewriting rationales does not change which questions the query returns, or their order |
| RationaleGenerator.FilledAfterGate | src/app/services/rationaleGeneratorService.ts:31-69 | after a reply with non-blank answers, every question of the document without an image index has a non-blank rationale |
| RationaleGenerator.RerunIsNoOp | src/app/services/rationaleGeneratorService.ts:46 | once every candidate got a non-blank answer, running the gate again sends nothing and changes nothing |
| ChoiceCardView.HandleChoiceClick | src/app/components/MultipleChoiceCard.tsx:16-20 | the selection passed to the page, none when the click is ignored; `ClickIffEnabled` and `AnswerLocked` state when |
| ChoiceCardView.ClickIffEnabled | src/app/components/MultipleChoiceCard.tsx:16-20 | a click reaches the page if and only if the button is enabled, and passes the clicked letter on |
| ChoiceCardView.AnswerLocked | src/app/components/MultipleChoiceCard.tsx:16-20 | once a choice is selected, the card is revealed and no later click on it reaches the page |
| ChoiceCardView.ButtonClass | src/app/components/MultipleChoiceCard.tsx:31-44 | every button class starts with the common base class |
| ChoiceCardView.ColorClass | src/app/components/MultipleChoiceCard.tsx:34-44 | revealed: green if and only if correct whatever was selected, red if and only if selected and wrong, gray otherwise; neutral if and only if unrevealed |
| ChoiceCardView.ButtonClassDetermined | src/app/components/MultipleChoiceCard.tsx:31-44 | the colour can be read back from the class string |
| ChoiceCardView.AtMostOneGreenOneRed | src/app/components/MultipleChoiceCard.tsx:29-41 | with distinct letters, at most one button is green and at most one is red |
| ChoiceCardView.ShownRationale | src/app/components/MultipleChoiceCard.tsx:58-76 | what is shown under the choices, with the precedence `RationalePrecedence` states |
| ChoiceCardView.RationalePrecedence | src/app/components/MultipleChoiceCard.tsx:58-76 | a rationale is shown only when the switch is on and the card revealed; the image wins, and the text is shown if and only if there is no image |
| QuestionNavigatorView.IndicatorColor | src/app/components/QuestionNavigator.tsx:22-30 | gray if and only if unrevealed; green if and only if revealed with the answer selected; red otherwise, also when nothing was selected |
| QuestionNavigatorView.Cells | src/app/components/QuestionNavigator.tsx:53-63 | one cell per card |
| QuestionNavigatorView.CellAt | src/app/components/QuestionNavigator.tsx:53-63 | one cell: its caption and its class, with the ring and labels `RingOnlyAtCurrent` and `LabelsDistinct` state |
| QuestionNavigatorView.RingOnlyAtCurrent | src/app/components/QuestionNavigator.tsx:57-58 | a cell's class holds the ring if and only if it is the current card's cell |
| QuestionNavigatorView.LabelsDistinct | src/app/components/QuestionNavigator.tsx:61 | cell i is labelled i + 1, and no label is used twice |
| QuestionNavigatorView.IndicatorAfterSelect | src/app/components/QuestionNavigator.tsx:22-30 | after a choice is selected, the current cell is green if and only if the choice is the answer, and red otherwise |
| QuestionNavigatorView.NavigatorAgreesWithCard | src/app/components/QuestionNavigator.tsx:23-29 | the navigator agrees with the card: the selected choice's button is green, red or neutral as the cell is |

## Left out

- The backend: Supabase calls become appends to and updates of the `seq` fields of `QuestionStore.Store`. A question's id is its row number, and rows keep creation order. Errors the backend returns are not modelled, nor the authentication check before an upload.
- Extractor.SaveItemData: a failing `createQuestion`, `createChoices` or `updateQuestions` would stop the loop and rethrow. The model always succeeds.
- RationaleGenerator.GenerateRationales: a database failure in the middle of `bulkUpdateQuestions` is not modelled; the store applies every update.
- The Gemini call (`getRationale`): its parsed reply is a parameter (`None` when it is missing, in which case indexing it throws before any update). Entries that are not strings are not modelled.
- Document conversion (mammoth's `extractRawText` and `convertToHtml`, `html-to-text`, cheerio). The segmenters take the plain text. The image correlator takes the flat sequence of sibling elements its walk moves along, each a paragraph with its text and the `src` of its images, a bare image, or another element. Nesting below that level (paragraphs inside table cells) is not modelled. A missing `src` is the empty string, which every test treats as falsy.
- Extractor.NestedListParagraphs: models the letters and the item paragraphs of one nested list. The DOM replacement of the list by those paragraphs is not modelled.
- Extractor.CodeUnitChar: a Dafny `char` cannot hold a lone surrogate. `String.fromCharCode(65 + i)` yields one when 65 + i, modulo 2^16, falls in U+D800..U+DFFF, and the model then has U+FFFD.
- JsString.SplitSecond: with an empty separator the string splits into UTF-16 code units, and when the second one is half of a surrogate pair a Dafny `char` cannot hold it, so the model has U+FFFD there. This changes only the answer text of `HomePage.GenerateFlashcards`, `HomePage.EmptyFlagThrows` and `Extractor.AnswerOf`, never whether a line throws or whether an answer is empty.
- HomePage.GenerateFlashcards: with an empty flag, an answer that is half of a surrogate pair is U+FFFD, as under `JsString.SplitSecond`; which lines throw and which cards are made are exact.
- `atob` is the forgiving-base64 decode. Its DOMString conversion of the argument is not modelled.
- RationaleImages.FileType: only the type normalisation of the `File` constructor is modelled. The `Blob` wrapper is not.
- `generateFileName` uses `Date.now()`, which is a parameter. The upload it names (`uploadRationaleImage`) is a storage call and is not modelled.
- `handleFileChange`: the `files` list is an `Option` (none when the browser gives none). The `!file` guard of `generateFlashcards`, `FileReader` and the asynchronous `onload` are left out. The splitter starts from the extracted text.
- HomePage.HandleDrop: the drag event is reduced to its list of files. The `dragging` flag stands for the stored drag event.
- The `id` field of a card is never set by the modelled pages and is left out. An unset `rationale` or `rationaleImage` is the empty string, an unset `isRevealed` is `false`, and an unset `selectedAnswer` is `None`.
- Shuffle (`Math.random`), the fade timers, the keyboard listeners, loading flags, React state plumbing, routing and authentication are left out.
- Page guards on `docId` and on a missing context or document are left out. The builders start from the document's content; the answer flag being unset is the `None` result.
