/**
 * The fill-in-the-blank quiz as values: the exercise data, the decision taken
 * when a drag ends, the session state it changes, and the submit check.
 */
module Quiz {
  import opened Wrappers

  /** A fill-in slot of the paragraph and the one word it accepts. */
  datatype Blank = Blank(id: int, correctAnswer: string)

  /** A word token of the word bank; `color` is only a display hint. */
  datatype DragWord = DragWord(id: int, word: string, color: string)

  /** The state a drop changes: recorded answers by blank id and the words still offered. */
  datatype Session = Session(answers: map<int, string>, items: seq<DragWord>)

  /** What a finished drag amounted to. */
  datatype DropOutcome =
    | NoTarget                          // released outside every blank
    | NoSuchBlank                       // the target id names no blank
    | WordMissing                       // the dragged id is not among the words: the handler throws
    | Mismatch                          // the word is not the blank's answer
    | Placed(blank: Blank, word: DragWord)

  /** One drag-end event: the dragged word's id and, if any, the blank it was released over. */
  datatype DragEnd = DragEnd(activeId: int, overId: Option<int>)

  /** `blanks.find(b => b.id === id)`: the leftmost blank with that id. */
  function FindBlank(blanks: seq<Blank>, id: int): (r: Option<Blank>)
    ensures r.None? <==> forall i :: 0 <= i < |blanks| ==> blanks[i].id != id
    ensures r.Some? ==> exists i :: 0 <= i < |blanks| && blanks[i] == r.value && r.value.id == id &&
                                   forall j :: 0 <= j < i ==> blanks[j].id != id
  {
    if blanks == [] then None
    else if blanks[0].id == id then Some(blanks[0])
    else
      var r := FindBlank(blanks[1..], id);
      assert r.Some? ==> exists i :: 0 <= i < |blanks| && blanks[i] == r.value && r.value.id == id &&
                                    forall j :: 0 <= j < i ==> blanks[j].id != id by {
        if r.Some? {
          var i :| 0 <= i < |blanks[1..]| && blanks[1..][i] == r.value && r.value.id == id &&
                   forall j :: 0 <= j < i ==> blanks[1..][j].id != id;
          assert blanks[i + 1] == r.value;
          assert forall j :: 0 < j < i + 1 ==> blanks[j].id != id by {
            forall j | 0 < j < i + 1 ensures blanks[j].id != id {
              assert blanks[j] == blanks[1..][j - 1];
            }
          }
        }
      }
      r
  }

  /** `dragItems.find(item => item.id === id)`: the leftmost remaining word with that id. */
  function FindWord(items: seq<DragWord>, id: int): (r: Option<DragWord>)
    ensures r.None? <==> forall i :: 0 <= i < |items| ==> items[i].id != id
    ensures r.Some? ==> exists i :: 0 <= i < |items| && items[i] == r.value && r.value.id == id &&
                                   forall j :: 0 <= j < i ==> items[j].id != id
  {
    if items == [] then None
    else if items[0].id == id then Some(items[0])
    else
      var r := FindWord(items[1..], id);
      assert r.Some? ==> exists i :: 0 <= i < |items| && items[i] == r.value && r.value.id == id &&
                                    forall j :: 0 <= j < i ==> items[j].id != id by {
        if r.Some? {
          var i :| 0 <= i < |items[1..]| && items[1..][i] == r.value && r.value.id == id &&
                   forall j :: 0 <= j < i ==> items[1..][j].id != id;
          assert items[i + 1] == r.value;
          assert forall j :: 0 < j < i + 1 ==> items[j].id != id by {
            forall j | 0 < j < i + 1 ensures items[j].id != id {
              assert items[j] == items[1..][j - 1];
            }
          }
        }
      }
      r
  }

  /**
   * The words whose id is not in `ids`, in their original order: the
   * `filter(item => item.id !== id)` of a drop, for `ids == {id}`.
   */
  function Without(items: seq<DragWord>, ids: set<int>): (r: seq<DragWord>)
    ensures forall w :: w in r <==> w in items && w.id !in ids
    ensures |r| <= |items|
  {
    if items == [] then []
    else if items[0].id in ids then Without(items[1..], ids)
    else [items[0]] + Without(items[1..], ids)
  }

  /** Each word kept by the filter keeps its multiplicity; each removed one is gone entirely. */
  lemma {:induction false} WithoutCounts(items: seq<DragWord>, ids: set<int>, w: DragWord)
    ensures multiset(Without(items, ids))[w] == if w.id in ids then 0 else multiset(items)[w]
    decreases |items|
  {
    if items != [] {
      assert items == [items[0]] + items[1..];
      WithoutCounts(items[1..], ids, w);
    }
  }

  /** Removing no ids keeps the word bank as it is. */
  lemma {:induction false} WithoutNothing(items: seq<DragWord>)
    ensures Without(items, {}) == items
    decreases |items|
  {
    if items != [] {
      WithoutNothing(items[1..]);
    }
  }

  /** Removing ids in two rounds is removing them all at once. */
  lemma {:induction false} WithoutTwice(items: seq<DragWord>, a: set<int>, b: set<int>)
    ensures Without(Without(items, a), b) == Without(items, a + b)
    decreases |items|
  {
    if items != [] {
      WithoutTwice(items[1..], a, b);
    }
  }

  /** Filtering distributes over concatenation, so the kept words keep their relative order. */
  lemma {:induction false} WithoutAppend(xs: seq<DragWord>, ys: seq<DragWord>, ids: set<int>)
    ensures Without(xs + ys, ids) == Without(xs, ids) + Without(ys, ids)
    decreases |xs|
  {
    if xs != [] {
      var zs := xs + ys;
      assert zs != [] && zs[0] == xs[0] && zs[1..] == xs[1..] + ys;
      WithoutAppend(xs[1..], ys, ids);
      if xs[0].id !in ids {
        assert Without(zs, ids) == [xs[0]] + Without(zs[1..], ids);
        assert Without(xs, ids) == [xs[0]] + Without(xs[1..], ids);
      }
    } else {
      assert xs + ys == ys;
    }
  }

  /**
   * The decision `handleDragEnd` takes: no target, target naming no blank,
   * dragged word missing (where the source dereferences `undefined` and
   * throws), wrong word, or a placement of the leftmost matching word on the
   * leftmost matching blank.
   */
  function Judge(blanks: seq<Blank>, items: seq<DragWord>, activeId: int, overId: Option<int>): (r: DropOutcome)
    ensures r.NoTarget? <==> overId.None?
    ensures r.NoSuchBlank? <==> overId.Some? && forall i :: 0 <= i < |blanks| ==> blanks[i].id != overId.value
    ensures r.WordMissing? <==>
              overId.Some? && (exists i :: 0 <= i < |blanks| && blanks[i].id == overId.value) &&
              forall i :: 0 <= i < |items| ==> items[i].id != activeId
    ensures r.Mismatch? ==>
              overId.Some? && FindBlank(blanks, overId.value).Some? && FindWord(items, activeId).Some? &&
              FindWord(items, activeId).value.word != FindBlank(blanks, overId.value).value.correctAnswer
    ensures r.Placed? ==>
              overId.Some? && FindBlank(blanks, overId.value) == Some(r.blank) &&
              FindWord(items, activeId) == Some(r.word) && r.word.word == r.blank.correctAnswer
  {
    match overId
    case None => NoTarget
    case Some(target) =>
      match FindBlank(blanks, target)
      case None => NoSuchBlank
      case Some(blank) =>
        match FindWord(items, activeId)
        case None => WordMissing
        case Some(word) => if word.word == blank.correctAnswer then Placed(blank, word) else Mismatch
  }

  /**
   * Every recorded answer belongs to a blank and is that blank's correct
   * answer (the leftmost blank with the id, as the drop looks it up).
   */
  ghost predicate AnswersCorrect(blanks: seq<Blank>, answers: map<int, string>)
  {
    forall k :: k in answers ==> FindBlank(blanks, k).Some? && answers[k] == FindBlank(blanks, k).value.correctAnswer
  }

  /** The session after one drag end, as `handleDragEnd` leaves it. */
  function Dropped(blanks: seq<Blank>, s: Session, activeId: int, overId: Option<int>): (r: Session)
    ensures overId.None? ==> r == s
    ensures overId.Some? && (forall i :: 0 <= i < |blanks| ==> blanks[i].id != overId.value) ==> r == s
    ensures (forall i :: 0 <= i < |s.items| ==> s.items[i].id != activeId) ==> r == s
    ensures r != s ==>
              overId.Some? && FindBlank(blanks, overId.value).Some? &&
              r.answers == s.answers[overId.value := FindBlank(blanks, overId.value).value.correctAnswer]
    ensures r != s ==> r.items == Without(s.items, {activeId})
    ensures s.answers.Keys <= r.answers.Keys
    ensures forall w :: w in r.items ==> w in s.items
    ensures r != s <==> Judge(blanks, s.items, activeId, overId).Placed?
  {
    match Judge(blanks, s.items, activeId, overId)
    case Placed(blank, word) => Session(s.answers[blank.id := word.word], Without(s.items, {word.id}))
    case _ => s
  }

  /** A wrong word leaves the session exactly as it was. */
  lemma MismatchChangesNothing(blanks: seq<Blank>, s: Session, activeId: int, target: int)
    requires FindBlank(blanks, target).Some? && FindWord(s.items, activeId).Some?
    requires FindWord(s.items, activeId).value.word != FindBlank(blanks, target).value.correctAnswer
    ensures Dropped(blanks, s, activeId, Some(target)) == s
  {
  }

  /**
   * A correct word is recorded for its blank, every other answer stays, and
   * exactly the words with its id leave the word bank.
   */
  lemma PlacementRecords(blanks: seq<Blank>, s: Session, activeId: int, target: int)
    requires FindBlank(blanks, target).Some? && FindWord(s.items, activeId).Some?
    requires FindWord(s.items, activeId).value.word == FindBlank(blanks, target).value.correctAnswer
    ensures var r := Dropped(blanks, s, activeId, Some(target));
            && target in r.answers && r.answers[target] == FindWord(s.items, activeId).value.word
            && (forall k :: k in s.answers && k != target ==> k in r.answers && r.answers[k] == s.answers[k])
            && r.answers.Keys == s.answers.Keys + {target}
            && r.items == Without(s.items, {activeId})
  {
  }

  /** No drop records a wrong answer or changes one already recorded. */
  lemma DropKeepsAnswersCorrect(blanks: seq<Blank>, s: Session, activeId: int, overId: Option<int>)
    requires AnswersCorrect(blanks, s.answers)
    ensures var r := Dropped(blanks, s, activeId, overId);
            AnswersCorrect(blanks, r.answers) && forall k :: k in s.answers ==> r.answers[k] == s.answers[k]
  {
  }

  /** The session after a run of drag ends, handled one at a time. */
  function Replay(blanks: seq<Blank>, s: Session, events: seq<DragEnd>): Session
    decreases |events|
  {
    if events == [] then s
    else Replay(blanks, Dropped(blanks, s, events[0].activeId, events[0].overId), events[1..])
  }

  /** The outcome of each drag end of a run. */
  function Outcomes(blanks: seq<Blank>, s: Session, events: seq<DragEnd>): (r: seq<DropOutcome>)
    ensures |r| == |events|
    decreases |events|
  {
    if events == [] then []
    else [Judge(blanks, s.items, events[0].activeId, events[0].overId)] +
         Outcomes(blanks, Dropped(blanks, s, events[0].activeId, events[0].overId), events[1..])
  }

  /**
   * Over any run of drops only correct answers are ever recorded, no answer
   * is removed or changed, and the word bank only loses words.
   */
  lemma {:induction false} ReplayKeepsAnswersCorrect(blanks: seq<Blank>, s: Session, events: seq<DragEnd>)
    requires AnswersCorrect(blanks, s.answers)
    ensures var r := Replay(blanks, s, events);
            && AnswersCorrect(blanks, r.answers)
            && s.answers.Keys <= r.answers.Keys
            && (forall k :: k in s.answers ==> r.answers[k] == s.answers[k])
            && (forall w :: w in r.items ==> w in s.items)
    decreases |events|
  {
    if events != [] {
      var s' := Dropped(blanks, s, events[0].activeId, events[0].overId);
      DropKeepsAnswersCorrect(blanks, s, events[0].activeId, events[0].overId);
      ReplayKeepsAnswersCorrect(blanks, s', events[1..]);
    }
  }

  /** A word id absent from the word bank is never placed by any later drop. */
  lemma {:induction false} AbsentNeverPlaced(blanks: seq<Blank>, s: Session, events: seq<DragEnd>, x: int)
    requires forall w :: w in s.items ==> w.id != x
    ensures forall k :: 0 <= k < |events| && Outcomes(blanks, s, events)[k].Placed? ==>
              Outcomes(blanks, s, events)[k].word.id != x
    decreases |events|
  {
    if events != [] {
      var s' := Dropped(blanks, s, events[0].activeId, events[0].overId);
      AbsentNeverPlaced(blanks, s', events[1..], x);
      var o := Outcomes(blanks, s, events);
      forall k | 0 <= k < |events| && o[k].Placed? ensures o[k].word.id != x {
        if k > 0 {
          assert o[k] == Outcomes(blanks, s', events[1..])[k - 1];
        }
      }
    }
  }

  /** A word is placed in at most one blank: no two placements of a run use the same word id. */
  lemma {:induction false} PlacedAtMostOnce(blanks: seq<Blank>, s: Session, events: seq<DragEnd>, i: int, j: int)
    requires 0 <= i < j < |events|
    ensures var o := Outcomes(blanks, s, events);
            o[i].Placed? && o[j].Placed? ==> o[i].word.id != o[j].word.id
    decreases |events|
  {
    var s' := Dropped(blanks, s, events[0].activeId, events[0].overId);
    var o := Outcomes(blanks, s, events);
    assert o[j] == Outcomes(blanks, s', events[1..])[j - 1];
    if i == 0 {
      if o[0].Placed? {
        AbsentNeverPlaced(blanks, s', events[1..], o[0].word.id);
      }
    } else {
      assert o[i] == Outcomes(blanks, s', events[1..])[i - 1];
      PlacedAtMostOnce(blanks, s', events[1..], i - 1, j - 1);
    }
  }

  /** `blanks.every(b => answers[b.id] === b.correctAnswer)`. */
  function AllCorrect(blanks: seq<Blank>, answers: map<int, string>): (ok: bool)
    ensures ok <==> forall i :: 0 <= i < |blanks| ==>
                      blanks[i].id in answers && answers[blanks[i].id] == blanks[i].correctAnswer
  {
    if blanks == [] then true
    else
      && blanks[0].id in answers && answers[blanks[0].id] == blanks[0].correctAnswer
      && AllCorrect(blanks[1..], answers)
  }

  /** No two blanks share an id, as the exercise data is meant to be. */
  ghost predicate DistinctIds(blanks: seq<Blank>)
  {
    forall i, j :: 0 <= i < j < |blanks| ==> blanks[i].id != blanks[j].id
  }

  /** The ids of the blanks. */
  function Ids(blanks: seq<Blank>): (r: set<int>)
    ensures forall k :: k in r <==> exists i :: 0 <= i < |blanks| && blanks[i].id == k
  {
    if blanks == [] then {}
    else
      var rest := Ids(blanks[1..]);
      assert forall k :: k in rest <==> exists i :: 1 <= i < |blanks| && blanks[i].id == k by {
        forall k | k in rest ensures exists i :: 1 <= i < |blanks| && blanks[i].id == k {
          var i :| 0 <= i < |blanks[1..]| && blanks[1..][i].id == k;
          assert blanks[i + 1].id == k;
        }
        forall k | (exists i :: 1 <= i < |blanks| && blanks[i].id == k) ensures k in rest {
          var i :| 1 <= i < |blanks| && blanks[i].id == k;
          assert blanks[1..][i - 1].id == k;
        }
      }
      {blanks[0].id} + rest
  }

  lemma {:induction false} DistinctIdsCount(blanks: seq<Blank>)
    requires DistinctIds(blanks)
    ensures |Ids(blanks)| == |blanks|
    decreases |blanks|
  {
    if blanks != [] {
      assert DistinctIds(blanks[1..]) by {
        forall i, j | 0 <= i < j < |blanks[1..]| ensures blanks[1..][i].id != blanks[1..][j].id {
          assert blanks[1..][i] == blanks[i + 1] && blanks[1..][j] == blanks[j + 1];
        }
      }
      DistinctIdsCount(blanks[1..]);
      assert blanks[0].id !in Ids(blanks[1..]);
    }
  }

  /** With distinct ids, the blank a lookup finds is the one at the id's position. */
  lemma FindBlankAt(blanks: seq<Blank>, i: int)
    requires DistinctIds(blanks) && 0 <= i < |blanks|
    ensures FindBlank(blanks, blanks[i].id) == Some(blanks[i])
  {
    var r := FindBlank(blanks, blanks[i].id);
    var i' :| 0 <= i' < |blanks| && blanks[i'] == r.value && r.value.id == blanks[i].id &&
              forall j :: 0 <= j < i' ==> blanks[j].id != blanks[i].id;
    assert i' == i;
  }

  /** Every recorded answer belongs to some blank. */
  lemma KeysAreBlankIds(blanks: seq<Blank>, answers: map<int, string>)
    requires AnswersCorrect(blanks, answers)
    ensures answers.Keys <= Ids(blanks)
  {
    forall k | k in answers ensures k in Ids(blanks) {
      var i :| 0 <= i < |blanks| && blanks[i] == FindBlank(blanks, k).value && blanks[i].id == k &&
               forall j :: 0 <= j < i ==> blanks[j].id != k;
    }
  }

  /** A subset as large as its superset is the whole superset. */
  lemma SubsetOfEqualSize(a: set<int>, b: set<int>)
    requires a <= b
    ensures |a| == |b| <==> a == b
  {
    assert b == a + (b - a);
    assert |b| == |a| + |b - a|;
    if |a| == |b| {
      assert b - a == {};
    }
  }

  /**
   * While every recorded answer is correct and blank ids are distinct, the
   * submit check passes exactly when every blank is filled, that is, when
   * there are as many answers as blanks.
   */
  lemma CheckIffAllFilled(blanks: seq<Blank>, answers: map<int, string>)
    requires AnswersCorrect(blanks, answers) && DistinctIds(blanks)
    ensures AllCorrect(blanks, answers) <==> answers.Keys == Ids(blanks)
    ensures AllCorrect(blanks, answers) <==> |answers| == |blanks|
  {
    KeysAreBlankIds(blanks, answers);
    if answers.Keys == Ids(blanks) {
      forall i | 0 <= i < |blanks|
        ensures blanks[i].id in answers && answers[blanks[i].id] == blanks[i].correctAnswer
      {
        FindBlankAt(blanks, i);
      }
    }
    DistinctIdsCount(blanks);
    SubsetOfEqualSize(answers.Keys, Ids(blanks));
    assert |answers.Keys| == |answers|;
  }
}
