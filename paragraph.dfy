/**
 * Rendering of the exercise paragraph: every blank, in order, replaces the
 * first remaining `[_input]` marker with an underlined span holding the text
 * shown for that blank.
 */
module Paragraph {
  import opened Wrappers
  import opened Text

  /** The blank marker written into the paragraph template. */
  const Marker: string := "[_input]"
  /**
   * The opening tag of a filled blank, `<span style="border-bottom: 1px solid
   * black; padding: 2px 8px;">`, written in short pieces so that the verifier
   * can inspect it character by character.
   */
  const SpanOpen: string :=
    "<span st" + "yle=\"bor" + "der-bott" + "om: 1px " + "solid bl" + "ack; pad" + "ding: 2p" + "x 8px;\">"
  const SpanClose: string := "</span>"

  /** The markup that stands for a blank showing `text`. */
  function Span(text: string): string
  {
    SpanOpen + text + SpanClose
  }

  /** `s` holds no marker. */
  ghost predicate Clean(s: string)
  {
    !Contains(s, Marker)
  }

  ghost predicate AllClean(ss: seq<string>)
  {
    forall i :: 0 <= i < |ss| ==> Clean(ss[i])
  }

  /**
   * The paragraph after one replacement per text, in order: the fold that the
   * rendering loop computes.
   */
  function FillEach(p: string, texts: seq<string>): string
    decreases |texts|
  {
    if texts == [] then p
    else FillEach(ReplaceFirst(p, Marker, Span(texts[0])), texts[1..])
  }

  /** The segments glued back together with a marker between neighbours. */
  function Join(segs: seq<string>): string
    requires |segs| >= 1
    decreases |segs|
  {
    if |segs| == 1 then segs[0] else segs[0] + Marker + Join(segs[1..])
  }

  /**
   * The reference rendering: the i-th marker between segments becomes the span
   * of the i-th text; once the texts run out the remaining markers stay as
   * they are.
   */
  function Interleave(segs: seq<string>, texts: seq<string>): string
    requires |segs| >= 1
    decreases |segs|
  {
    if |segs| == 1 then segs[0]
    else if texts == [] then Join(segs)
    else segs[0] + Span(texts[0]) + Interleave(segs[1..], texts[1..])
  }

  lemma MarkerShape()
    ensures |Marker| == 8 && Marker[0] == '['
    ensures forall k :: 1 <= k < |Marker| ==> Marker[k] != '['
    ensures '<' !in Marker && '>' !in Marker
  {
  }

  /** A string without an opening bracket holds no marker. */
  lemma NoBracketClean(s: string)
    requires '[' !in s
    ensures Clean(s)
  {
    MarkerShape();
  }

  /** Each character inside an occurrence is the matching character of the marker. */
  lemma CharOfOccurrence(s: string, j: int, t: int)
    requires OccursAt(s, Marker, j) && j <= t < j + |Marker|
    ensures s[t] == Marker[t - j]
  {
    assert s[j..j + |Marker|][t - j] == s[t];
  }

  /** The text before the leftmost marker holds no marker. */
  lemma CleanBeforeFirst(p: string, i: int)
    requires IsFirst(p, Marker, i)
    ensures Clean(p[..i])
  {
    forall j | OccursAt(p[..i], Marker, j) ensures false {
      assert p[..i][j..j + |Marker|] == p[j..j + |Marker|];
      assert OccursAt(p, Marker, j);
    }
  }

  /** Cutting at every marker and gluing the pieces back gives the paragraph. */
  function Split(p: string): (segs: seq<string>)
    ensures |segs| >= 1 && AllClean(segs) && Join(segs) == p
    decreases |p|
  {
    match IndexOf(p, Marker)
    case None => [p]
    case Some(i) =>
      CleanBeforeFirst(p, i);
      MarkerShape();
      var rest := Split(p[i + |Marker|..]);
      assert p == p[..i] + Marker + p[i + |Marker|..] by {
        assert p[i..i + |Marker|] == Marker;
      }
      assert ([p[..i]] + rest)[1..] == rest;
      [p[..i]] + rest
  }

  /**
   * A prefix that is marker-free and ends in a character no marker contains
   * cannot take part in any occurrence.
   */
  ghost predicate Sealed(q: string)
  {
    Clean(q) && |q| > 0 && q[|q| - 1] !in Marker
  }

  lemma SealedShift(q: string, x: string, j: int)
    requires Sealed(q)
    ensures OccursAt(q + x, Marker, j) <==> j >= |q| && OccursAt(x, Marker, j - |q|)
  {
    MarkerShape();
    if j >= |q| && j + |Marker| <= |q + x| {
      assert (q + x)[j..j + |Marker|] == x[j - |q|..j - |q| + |Marker|];
    }
    if 0 <= j < |q| && OccursAt(q + x, Marker, j) {
      if j + |Marker| <= |q| {
        assert (q + x)[j..j + |Marker|] == q[j..j + |Marker|];
        assert OccursAt(q, Marker, j);
      } else {
        CharOfOccurrence(q + x, j, |q| - 1);
      }
    }
  }

  lemma SealedContains(q: string, x: string)
    requires Sealed(q)
    ensures Clean(q + x) <==> Clean(x)
  {
    forall j | OccursAt(q + x, Marker, j) ensures OccursAt(x, Marker, j - |q|) {
      SealedShift(q, x, j);
    }
    forall j | OccursAt(x, Marker, j) ensures OccursAt(q + x, Marker, j + |q|) {
      SealedShift(q, x, j + |q|);
    }
  }

  /** Two marker-free strings stay marker-free when the second starts outside the marker's characters. */
  lemma CleanConcat(a: string, b: string)
    requires Clean(a) && Clean(b) && |b| > 0 && b[0] !in Marker
    ensures Clean(a + b)
  {
    MarkerShape();
    forall j | OccursAt(a + b, Marker, j) ensures false {
      if j + |Marker| <= |a| {
        assert (a + b)[j..j + |Marker|] == a[j..j + |Marker|];
        assert OccursAt(a, Marker, j);
      } else if j >= |a| {
        assert (a + b)[j..j + |Marker|] == b[j - |a|..j - |a| + |Marker|];
        assert OccursAt(b, Marker, j - |a|);
      } else {
        CharOfOccurrence(a + b, j, |a|);
      }
    }
  }

  /** A span around marker-free text is sealed, and so is a marker-free segment followed by it. */
  lemma SpanSealed(seg: string, text: string)
    requires Clean(seg) && Clean(text)
    ensures Sealed(Span(text)) && Sealed(seg + Span(text))
  {
    MarkerShape();
    NoBracketClean(SpanOpen);
    NoBracketClean(SpanClose);
    CleanConcat(text, SpanClose);
    SealedContains(SpanOpen, text + SpanClose);
    assert Span(text) == SpanOpen + (text + SpanClose);
    var sp := Span(text);
    assert sp[0] == '<' && sp[|sp| - 1] == '>';
    CleanConcat(seg, sp);
    assert (seg + sp)[|seg + sp| - 1] == '>';
  }

  /** In a marker-free segment followed by a marker, the leftmost occurrence is that marker. */
  lemma FirstAfterClean(a: string, b: string)
    requires Clean(a)
    ensures IsFirst(a + Marker + b, Marker, |a|)
  {
    MarkerShape();
    var p := a + Marker + b;
    assert p[|a|..|a| + |Marker|] == Marker;
    forall j | 0 <= j < |a| && OccursAt(p, Marker, j) ensures false {
      if j + |Marker| <= |a| {
        assert p[j..j + |Marker|] == a[j..j + |Marker|];
        assert OccursAt(a, Marker, j);
      } else {
        CharOfOccurrence(p, j, |a|);
      }
    }
  }

  /** Behind a sealed prefix, the leftmost occurrence moves by the prefix's length. */
  lemma FirstShift(q: string, x: string, i: int)
    requires Sealed(q) && IsFirst(x, Marker, i)
    ensures IsFirst(q + x, Marker, |q| + i)
  {
    forall j | 0 <= j < |q| + i ensures !OccursAt(q + x, Marker, j) {
      SealedShift(q, x, j);
    }
    SealedShift(q, x, |q| + i);
  }

  lemma ReplaceAtFirst(s: string, i: int, rep: string)
    requires IsFirst(s, Marker, i)
    ensures ReplaceFirst(s, Marker, rep) == s[..i] + rep + s[i + |Marker|..]
  {
  }

  /** The first marker of `x` is the first marker of `q + x`, so both replacements hit it. */
  lemma ReplaceShiftAt(q: string, x: string, i: int, rep: string)
    requires Sealed(q) && IsFirst(x, Marker, i)
    ensures ReplaceFirst(q + x, Marker, rep) == q + ReplaceFirst(x, Marker, rep)
  {
    FirstShift(q, x, i);
    var n := |Marker|;
    calc {
      ReplaceFirst(q + x, Marker, rep);
      { ReplaceAtFirst(q + x, |q| + i, rep); }
      (q + x)[..|q| + i] + rep + (q + x)[|q| + i + n..];
      { assert (q + x)[..|q| + i] == q + x[..i];
        assert (q + x)[|q| + i + n..] == x[i + n..]; }
      (q + x[..i]) + rep + x[i + n..];
      q + (x[..i] + rep + x[i + n..]);
      { ReplaceAtFirst(x, i, rep); }
      q + ReplaceFirst(x, Marker, rep);
    }
  }

  /** A sealed prefix is never touched by a replacement. */
  lemma ReplaceFirstSealed(q: string, x: string, rep: string)
    requires Sealed(q)
    ensures ReplaceFirst(q + x, Marker, rep) == q + ReplaceFirst(x, Marker, rep)
  {
    SealedContains(q, x);
    if !Contains(x, Marker) {
      assert ReplaceFirst(q + x, Marker, rep) == q + x;
    } else {
      ReplaceShiftAt(q, x, IndexOf(x, Marker).value, rep);
    }
  }

  lemma {:induction false} FillEachSealed(q: string, x: string, texts: seq<string>)
    requires Sealed(q)
    ensures FillEach(q + x, texts) == q + FillEach(x, texts)
    decreases |texts|
  {
    if texts != [] {
      ReplaceFirstSealed(q, x, Span(texts[0]));
      FillEachSealed(q, ReplaceFirst(x, Marker, Span(texts[0])), texts[1..]);
    }
  }

  /** With no marker left, every further replacement is a no-op. */
  lemma {:induction false} FillEachClean(p: string, texts: seq<string>)
    requires Clean(p)
    ensures FillEach(p, texts) == p
    decreases |texts|
  {
    if texts != [] {
      FillEachClean(p, texts[1..]);
    }
  }

  /**
   * The exact effect of the rendering fold on a paragraph cut at its markers:
   * the i-th marker shows the i-th text, and markers beyond the texts remain.
   */
  lemma {:induction false} FillEachExact(segs: seq<string>, texts: seq<string>)
    requires |segs| >= 1 && AllClean(segs) && AllClean(texts)
    ensures FillEach(Join(segs), texts) == Interleave(segs, texts)
    decreases |segs|
  {
    if texts == [] {
    } else if |segs| == 1 {
      FillEachClean(segs[0], texts);
    } else {
      var a, rest := segs[0], Join(segs[1..]);
      assert Join(segs) == a + Marker + rest;
      FirstAfterClean(a, rest);
      MarkerShape();
      assert (a + Marker + rest)[..|a|] == a;
      assert (a + Marker + rest)[|a| + |Marker|..] == rest;
      assert ReplaceFirst(Join(segs), Marker, Span(texts[0])) == a + Span(texts[0]) + rest;
      SpanSealed(a, texts[0]);
      FillEachSealed(a + Span(texts[0]), rest, texts[1..]);
      assert AllClean(segs[1..]) && AllClean(texts[1..]);
      FillEachExact(segs[1..], texts[1..]);
    }
  }

  /** The rendering of any paragraph, given that the shown texts hold no marker. */
  lemma RenderedExactly(p: string, texts: seq<string>)
    requires AllClean(texts)
    ensures FillEach(p, texts) == Interleave(Split(p), texts)
  {
    FillEachExact(Split(p), texts);
  }

  /** A marker survives the reference rendering exactly when there are fewer texts than markers. */
  lemma {:induction false} InterleaveLeavesMarker(segs: seq<string>, texts: seq<string>)
    requires |segs| >= 1 && AllClean(segs) && AllClean(texts)
    ensures Contains(Interleave(segs, texts), Marker) <==> |texts| < |segs| - 1
    decreases |segs|
  {
    if |segs| == 1 {
    } else if texts == [] {
      var a := segs[0];
      assert Join(segs) == a + Marker + Join(segs[1..]);
      FirstAfterClean(a, Join(segs[1..]));
    } else {
      SpanSealed(segs[0], texts[0]);
      SealedContains(segs[0] + Span(texts[0]), Interleave(segs[1..], texts[1..]));
      assert AllClean(segs[1..]) && AllClean(texts[1..]);
      InterleaveLeavesMarker(segs[1..], texts[1..]);
    }
  }

  /**
   * After rendering, a marker is still visible exactly when the paragraph
   * holds more markers than there are texts.
   */
  lemma RenderLeavesMarker(p: string, texts: seq<string>)
    requires AllClean(texts)
    ensures Contains(FillEach(p, texts), Marker) <==> |texts| < |Split(p)| - 1
  {
    RenderedExactly(p, texts);
    InterleaveLeavesMarker(Split(p), texts);
  }
}
