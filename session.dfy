/**
 * The quiz component's controller: the session state it owns, the drag-end
 * handler that updates it in place, the paragraph rendering loop and the
 * submit check.
 */
module DragDropQuiz {
  import opened Wrappers
  import opened Text
  import opened Paragraph
  import opened Quiz

  /** What a blank shows: its recorded answer, or `_` when there is none or it is empty. */
  function Shown(answers: map<int, string>, id: int): string
  {
    if id in answers && answers[id] != "" then answers[id] else "_"
  }

  /** The text shown for each blank, in the order of the blanks. */
  function ShownAnswers(blanks: seq<Blank>, answers: map<int, string>): (r: seq<string>)
    ensures |r| == |blanks| && forall i :: 0 <= i < |blanks| ==> r[i] == Shown(answers, blanks[i].id)
  {
    seq(|blanks|, i requires 0 <= i < |blanks| => Shown(answers, blanks[i].id))
  }

  /**
   * When no blank's correct answer holds a marker, neither does anything a
   * blank shows while every recorded answer is correct.
   */
  lemma ShownClean(blanks: seq<Blank>, answers: map<int, string>)
    requires AnswersCorrect(blanks, answers)
    requires forall i :: 0 <= i < |blanks| ==> Clean(blanks[i].correctAnswer)
    ensures AllClean(ShownAnswers(blanks, answers))
  {
    var texts := ShownAnswers(blanks, answers);
    NoBracketClean("_");
    forall i | 0 <= i < |texts| ensures Clean(texts[i]) {
      var id := blanks[i].id;
      if id in answers && answers[id] != "" {
        var j :| 0 <= j < |blanks| && blanks[j] == FindBlank(blanks, id).value && blanks[j].id == id &&
                 forall j' :: 0 <= j' < j ==> blanks[j'].id != id;
      }
    }
  }

  lemma CheckIffAllFilledWhenValid(blanks: seq<Blank>, answers: map<int, string>)
    ensures AnswersCorrect(blanks, answers) && DistinctIds(blanks) ==>
              (AllCorrect(blanks, answers) <==> |answers| == |blanks|)
  {
    if AnswersCorrect(blanks, answers) && DistinctIds(blanks) {
      CheckIffAllFilled(blanks, answers);
    }
  }

  class QuizSession {
    const paragraph: string
    const blanks: seq<Blank>
    /** The word bank the session started with. */
    ghost const words: seq<DragWord>
    /** The recorded answers, by blank id (`userAnswers`). */
    var answers: map<int, string>
    /** The words still offered (`dragItems`). */
    var items: seq<DragWord>
    /** The ids of the words placed so far. */
    ghost var used: set<int>

    /**
     * Only correct answers are recorded, and the word bank is the initial one
     * without the placed words.
     */
    ghost predicate Valid()
      reads this
    {
      AnswersCorrect(blanks, answers) && items == Without(words, used)
    }

    constructor (paragraph: string, blanks: seq<Blank>, dragWords: seq<DragWord>)
      ensures Valid()
      ensures this.paragraph == paragraph && this.blanks == blanks && words == dragWords
      ensures answers == map[] && items == dragWords && used == {}
    {
      this.paragraph := paragraph;
      this.blanks := blanks;
      words := dragWords;
      answers := map[];
      items := dragWords;
      used := {};
      WithoutNothing(dragWords);
    }

    /**
     * `handleDragEnd`: a drag of word `activeId` released over blank `overId`
     * (None when released outside every blank). Only a correct word changes
     * anything: it is recorded for the blank and leaves the word bank.
     */
    method Drop(activeId: int, overId: Option<int>) returns (outcome: DropOutcome)
      requires Valid()
      modifies this
      ensures Valid()
      ensures outcome == Judge(blanks, old(items), activeId, overId)
      ensures Session(answers, items) == Dropped(blanks, Session(old(answers), old(items)), activeId, overId)
      ensures used == if outcome.Placed? then old(used) + {activeId} else old(used)
    {
      DropKeepsAnswersCorrect(blanks, Session(answers, items), activeId, overId);
      if overId.None? {
        outcome := NoTarget;
        return;
      }
      var blank := FindBlank(blanks, overId.value);
      var dragged := FindWord(items, activeId);
      if blank.None? {
        outcome := NoSuchBlank;
      } else if dragged.None? {
        outcome := WordMissing;
      } else if dragged.value.word == blank.value.correctAnswer {
        outcome := Placed(blank.value, dragged.value);
        WithoutTwice(words, used, {dragged.value.id});
        answers := answers[blank.value.id := dragged.value.word];
        items := Without(items, {dragged.value.id});
        used := used + {dragged.value.id};
      } else {
        outcome := Mismatch;
      }
    }

    /**
     * `updateParagraph`: for each blank in turn, the first remaining marker
     * becomes a span showing that blank's answer or `_`. When no correct
     * answer holds a marker, the i-th marker shows the i-th blank and a marker
     * survives exactly when there are more markers than blanks.
     */
    method Render() returns (html: string)
      ensures html == FillEach(paragraph, ShownAnswers(blanks, answers))
      ensures Valid() && (forall i :: 0 <= i < |blanks| ==> Clean(blanks[i].correctAnswer)) ==>
                html == Interleave(Split(paragraph), ShownAnswers(blanks, answers)) &&
                (Contains(html, Marker) <==> |blanks| < |Split(paragraph)| - 1)
    {
      ghost var texts := ShownAnswers(blanks, answers);
      html := paragraph;
      var i := 0;
      assert texts[i..] == texts;
      while i < |blanks|
        invariant 0 <= i <= |blanks|
        invariant FillEach(html, texts[i..]) == FillEach(paragraph, texts)
      {
        var answer := Shown(answers, blanks[i].id);
        assert texts[i..][1..] == texts[i + 1..];
        html := ReplaceFirst(html, Marker, Span(answer));
        i := i + 1;
      }
      if Valid() && (forall i :: 0 <= i < |blanks| ==> Clean(blanks[i].correctAnswer)) {
        ShownClean(blanks, answers);
        RenderedExactly(paragraph, texts);
        RenderLeavesMarker(paragraph, texts);
      }
    }

    /**
     * `checkAnswers` without its alert: every blank holds its correct answer.
     * With distinct blank ids this is the same as having one answer per blank.
     */
    predicate CheckAnswers()
      reads this
      ensures CheckAnswers() <==> forall i :: 0 <= i < |blanks| ==>
                blanks[i].id in answers && answers[blanks[i].id] == blanks[i].correctAnswer
      ensures Valid() && DistinctIds(blanks) ==> (CheckAnswers() <==> |answers| == |blanks|)
    {
      CheckIffAllFilledWhenValid(blanks, answers);
      AllCorrect(blanks, answers)
    }
  }

  /** The example paragraph once "apples" fills the first blank: the second marker becomes a `_` span. */
  lemma ApplesRendered()
    ensures FillEach("I like [_input] and [_input].", ["apples", "_"]) ==
            "I like " + Span("apples") + " and " + Span("_") + "."
  {
    var segs := ["I like ", " and ", "."];
    assert Join(segs) == "I like [_input] and [_input].";
    NoBracketClean(segs[0]);
    NoBracketClean(segs[1]);
    NoBracketClean(segs[2]);
    NoBracketClean("apples");
    NoBracketClean("_");
    FillEachExact(segs, ["apples", "_"]);
  }

  const ExampleParagraph: string := "I like [_input] and [_input]."
  const ExampleBlanks: seq<Blank> := [Blank(1, "apples"), Blank(2, "bananas")]
  const Apples: DragWord := DragWord(1, "apples", "")
  const Bananas: DragWord := DragWord(2, "bananas", "")

  /**
   * An example session with two blanks: a wrong word changes nothing, the
   * right words fill their blanks one after the other, and the check then
   * passes.
   */
  method ApplesAndBananas()
  {
    var quiz := new QuizSession(ExampleParagraph, ExampleBlanks, [Apples, Bananas]);
    WrongWordFirst(quiz);
    var html := ApplesFirst(quiz);
    BananasLast(quiz);
  }

  /** Dropping "bananas" on the blank that expects "apples" is ignored and the check fails. */
  method WrongWordFirst(quiz: QuizSession)
    requires quiz.Valid() && quiz.blanks == ExampleBlanks
    requires quiz.answers == map[] && quiz.items == [Apples, Bananas]
    modifies quiz
    ensures quiz.Valid() && quiz.answers == map[] && quiz.items == [Apples, Bananas]
    ensures !quiz.CheckAnswers()
  {
    var outcome := quiz.Drop(2, Some(1));
    assert outcome == Mismatch;
  }

  /** Placing "apples" fills the first blank; the second still shows `_`. */
  method ApplesFirst(quiz: QuizSession) returns (html: string)
    requires quiz.Valid() && quiz.blanks == ExampleBlanks && quiz.paragraph == ExampleParagraph
    requires quiz.answers == map[] && quiz.items == [Apples, Bananas]
    modifies quiz
    ensures quiz.Valid() && quiz.answers == map[1 := "apples"] && quiz.items == [Bananas]
    ensures html == "I like " + Span("apples") + " and " + Span("_") + "."
  {
    var outcome := quiz.Drop(1, Some(1));
    assert outcome == Placed(ExampleBlanks[0], Apples);
    assert quiz.items == Without([Apples, Bananas], {1});
    assert [Apples, Bananas][1..] == [Bananas] && Without([Bananas], {1}) == [Bananas];
    html := quiz.Render();
    assert ShownAnswers(ExampleBlanks, quiz.answers) == ["apples", "_"];
    ApplesRendered();
  }

  /** Placing the remaining word completes the exercise. */
  method BananasLast(quiz: QuizSession)
    requires quiz.Valid() && quiz.blanks == ExampleBlanks
    requires quiz.answers == map[1 := "apples"] && quiz.items == [Bananas]
    modifies quiz
    ensures quiz.Valid() && quiz.items == [] && quiz.answers == map[1 := "apples", 2 := "bananas"]
    ensures quiz.CheckAnswers()
  {
    var outcome := quiz.Drop(2, Some(2));
    assert outcome == Placed(ExampleBlanks[1], Bananas);
  }
}
