# Drag-and-drop fill-in-the-blank quiz, modelled in Dafny

The modelled component, `DragDropQuiz`, shows a paragraph template with `[_input]`
markers, a row of blanks and a bank of word tokens. The user drags a word onto a
blank. A word is accepted only if its text is that blank's correct answer. An
accepted word is recorded for the blank and leaves the word bank. A wrong word, or
a drop outside every blank, changes nothing. Submitting checks that every blank
holds its correct answer.

The model keeps the controller's logic and leaves out the presentation:

- `wrappers.dfy` (module `Wrappers`): `Option`.
- `text.dfy` (module `Text`): JavaScript's `String.prototype.replace` with a
  string pattern. `IndexOf` finds the leftmost occurrence. `ReplaceFirst`
  replaces only that occurrence, and leaves a string with no occurrence unchanged.
- `paragraph.dfy` (module `Paragraph`): the marker, the underlined `<span>` a blank
  becomes, and `FillEach`, the replace-per-blank fold that `updateParagraph`
  computes. It also holds a reference rendering, `Interleave` over `Split`: the
  paragraph cut at its markers, with the i-th marker showing the i-th text. The
  lemmas prove the fold equals this reference when no shown text holds a marker.
- `quiz.dfy` (module `Quiz`): the data model (`Blank`, `DragWord`, the `Session`
  value of recorded answers and remaining words). It has the lookups
  (`Array.prototype.find`), the filter that removes a placed word, and `Judge`,
  the decision `handleDragEnd` takes. `Dropped` is the session after one drop and
  `Replay` the session after a run of drops. `AllCorrect` is the `every` of
  `checkAnswers`. The lemmas cover invariants over single drops and over runs.
- `session.dfy` (module `DragDropQuiz`): the class `QuizSession`. It holds the
  component's state in place (`answers` for `userAnswers`, `items` for
  `dragItems`) and has three members:
  - `Drop` is the drag-end handler, proved against `Judge` and `Dropped`.
  - `Render` is the `forEach` loop of `updateParagraph`, proved against
    `FillEach` and, through it, against `Interleave`.
  - `CheckAnswers` is the submit predicate.

  The module ends with an example session as a client of the class
  ("I like [_input] and [_input]." with the words apples and bananas):
  `ApplesAndBananas`, `WrongWordFirst`, `ApplesFirst` and `BananasLast`.

A few choices follow the code:

- Ids are plain integers.
- A drop with no blank under the pointer is `overId == None`. That covers both a
  null `over` and a falsy `over.id`; the ids the component registers are
  non-empty strings, so they are never falsy.
- Lookups return the leftmost match, as `find` does. Unique ids are assumed only
  where a lemma says so.
- The source throws in one case: the target blank exists but the dragged id
  matches no remaining word, so `draggedWord.word` reads a property of
  `undefined`. The model returns the outcome `WordMissing` there and leaves the
  state unchanged.
- After the first drop of the example session, the second marker is not left
  in place: it becomes a `_` span, because every blank is processed
  (`ApplesFirst`).

## Model

| member | source | states |
|---|---|---|
| Text.IndexFrom | src/components/DragDropFill.js:51-54 | the result is the leftmost occurrence of the pattern at or after the start index; None means no occurrence there |
| Text.IndexOf | src/components/DragDropFill.js:51-54 | the result is the leftmost occurrence; None exactly when the pattern does not occur |
| Text.ReplaceFirst | src/components/DragDropFill.js:51-54 | only the leftmost occurrence is replaced, with the replacement inserted literally; without an occurrence the string is unchanged |
| Paragraph.Span | src/components/DragDropFill.js:53 | the underlined span template with the shown text inserted literally (a definition; no contract) |
| Paragraph.FillEach | src/components/DragDropFill.js:48-56 | the `forEach` fold: each blank's span replaces the first remaining marker (a definition; `FillEachExact` and `RenderLeavesMarker` state its effect) |
| Paragraph.Split | src/components/DragDropFill.js:49-55 | cuts the paragraph into marker-free segments that, joined with markers, give the paragraph back |
| Paragraph.FillEachClean | src/components/DragDropFill.js:49-55 | once no marker remains, every further blank's replacement is a no-op |
| Paragraph.ReplaceFirstSealed | src/components/DragDropFill.js:51-54 | text before an already inserted span is never touched by a later replacement |
| Paragraph.ReplaceShiftAt | src/components/DragDropFill.js:51-54 | the first marker after a sealed prefix is the first marker of the whole string, so replacing it leaves the prefix in place |
| Paragraph.FillEachSealed | src/components/DragDropFill.js:49-55 | a filled prefix stays as it is for all the remaining blanks |
| Paragraph.FillEachExact | src/components/DragDropFill.js:47-57 | when no segment and no text holds a marker, rendering the joined segments makes the i-th marker the span of the i-th blank's text; markers beyond the blanks stay verbatim |
| Paragraph.RenderedExactly | src/components/DragDropFill.js:47-57 | for any paragraph, when no shown text holds a marker, the rendering equals the reference interleaving of its segments with the blanks' spans |
| Paragraph.InterleaveLeavesMarker | src/components/DragDropFill.js:49-55 | when no segment and no text holds a marker, the reference rendering still contains a marker exactly when there are fewer texts than markers |
| Paragraph.RenderLeavesMarker | src/components/DragDropFill.js:47-57 | when no shown text holds a marker: after rendering, a marker is visible exactly when the paragraph has more markers than there are blanks |
| Quiz.FindBlank | src/components/DragDropFill.js:63 | returns the leftmost blank with the id; None exactly when no blank has it |
| Quiz.FindWord | src/components/DragDropFill.js:64 | returns the leftmost remaining word with the id; None exactly when no word has it |
| Quiz.Without | src/components/DragDropFill.js:72-74 | the kept words are exactly those whose id is not removed; the list never grows |
| Quiz.WithoutCounts | src/components/DragDropFill.js:72-74 | every kept word keeps its multiplicity; every word with a removed id is gone entirely |
| Quiz.WithoutAppend | src/components/DragDropFill.js:72-74 | the filter distributes over concatenation, so the kept words stay in their original relative order |
| Quiz.WithoutNothing | src/components/DragDropFill.js:45 | removing no ids leaves the initial word bank as it is |
| Quiz.WithoutTwice | src/components/DragDropFill.js:72-74 | removing ids in two successive drops is removing their union from the initial bank |
| Quiz.Judge | src/components/DragDropFill.js:60-66 | no target iff over is absent; no blank iff no blank has the target id; word missing (where the source throws) iff the blank exists and no word has the dragged id; otherwise a placement exactly when the leftmost word's text equals the leftmost blank's correct answer |
| Quiz.Dropped | src/components/DragDropFill.js:59-77 | the session changes exactly when `Judge` decides a placement, so no target, unknown blank, missing word or wrong word leave it unchanged; a change records the blank's correct answer under the target id and filters the dragged id out of the items; keys are never removed; items only shrink |
| Quiz.MismatchChangesNothing | src/components/DragDropFill.js:66 | a word whose text differs from the blank's correct answer leaves answers and items unchanged |
| Quiz.PlacementRecords | src/components/DragDropFill.js:66-74 | a correct word is recorded for its blank; every other key and value stays; exactly the dragged id leaves the items |
| Quiz.DropKeepsAnswersCorrect | src/components/DragDropFill.js:66-70 | a drop keeps every recorded answer equal to its blank's correct answer and changes no answer already recorded |
| Quiz.ReplayKeepsAnswersCorrect | src/components/DragDropFill.js:59-77 | over any run of drops: only correct answers are recorded, answers only grow and never change, and the word bank only loses words |
| Quiz.AbsentNeverPlaced | src/components/DragDropFill.js:64-74 | a word id missing from the bank is never placed by any later drop |
| Quiz.PlacedAtMostOnce | src/components/DragDropFill.js:64-74 | no two placements of a run use the same word, so a word fills at most one blank |
| Quiz.AllCorrect | src/components/DragDropFill.js:80 | true iff every blank has a recorded answer equal to its correct answer (so true for no blanks, false if any blank is unfilled) |
| Quiz.CheckIffAllFilled | src/components/DragDropFill.js:79-82 | with only correct answers recorded and distinct blank ids, the check passes iff the recorded ids are exactly the blank ids, iff there are as many answers as blanks |
| DragDropQuiz.Shown | src/components/DragDropFill.js:50 | the text a blank shows: the recorded answer, or `_` when it is absent or empty (a definition; no contract) |
| DragDropQuiz.ShownAnswers | src/components/DragDropFill.js:49-50 | one shown text per blank, in blank order (a definition; `ShownClean` states its property) |
| DragDropQuiz.ShownClean | src/components/DragDropFill.js:50 | while every recorded answer is correct, if no correct answer contains a marker, no shown text (answer or `_`) does |
| DragDropQuiz.QuizSession.constructor | src/components/DragDropFill.js:43-45 | starts with no answers and the full word bank, with the invariant established |
| DragDropQuiz.QuizSession.Drop | src/components/DragDropFill.js:59-77 | keeps the invariant (only correct answers; the bank is the initial one without the placed words); the outcome is the decision of `Judge`; the new answers and items are those of `Dropped` |
| DragDropQuiz.QuizSession.Render | src/components/DragDropFill.js:47-57 | the result is the per-blank first-marker fold; on a valid session with marker-free correct answers it is the reference interleaving, and a marker survives iff there are more markers than blanks |
| DragDropQuiz.QuizSession.CheckAnswers | src/components/DragDropFill.js:79-82 | true iff every blank holds its correct answer; on a valid session with distinct blank ids, iff there are as many answers as blanks |

## Left out

- The JSX layout, the inline styles and `dangerouslySetInnerHTML` (src/components/DragDropFill.js:84-119) are presentation only. This includes the word shown inside each drop target (line 97), which follows the same answer-or-`_` rule as `Shown`.
- The `Draggable` and `Droppable` components and the `@dnd-kit` hooks (lines 5-40) are a foreign library with visual effect only. `Drop` receives the ids that the drag engine would deliver.
- Loading `data.json` (lines 3 and 43) is I/O. The paragraph, blanks and words are constructor parameters.
- The `alert` in `checkAnswers` (line 81) is user-interface output. Only the boolean is modelled.
- React's asynchronous state updates and functional updaters (lines 67-74) are not modelled. One drop is one atomic step.
- `parseInt` of the string ids (lines 63-64) is not modelled; ids are integers. So a non-numeric or non-integer id is not covered.
- The `$` patterns that `String.replace` would interpret in a replacement string are not modelled. The answer is inserted literally.
- The `color` styling of words (lines 106-107) is not modelled. `color` is carried as data only.
- The thrown `TypeError` is not modelled as an exception. `QuizSession.Drop` returns the outcome `WordMissing` and leaves the state unchanged.
- DragDropQuiz.QuizSession.Render: the exact interleaving and the marker-count statement are proved only when no blank's correct answer contains `[_input]`. Such an answer would be searched again by the following replacements. For that case the contract gives only the fold.
- Quiz.CheckIffAllFilled: "passes iff there are as many answers as blanks" holds only with distinct blank ids, so the lemma requires them. The plain statement (every blank holds its correct answer) needs no such condition and is `Quiz.AllCorrect`.
