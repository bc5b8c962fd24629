/**
 * Paragraph reflow: the sentences are laid out one after another, and a
 * paragraph break is inserted before the sentence that crosses the current
 * chapter boundary, unless the boundary lies more than the tolerance past
 * the sentence's start or the output so far is still short. The laid-out
 * text then goes through the cleanup.
 */
module ParagraphReflow {
  import opened Captions
  import opened Cleanup

  /** How far (in centiseconds) a boundary may lie past a sentence's start and still break before it. */
  const Tolerance := 200
  /** No break is inserted while the output has at most this many characters. */
  const MinWritten := 10
  /** The paragraph separator. */
  const ParagraphBreak := "\n\n"

  /** The loop state: the output so far and the index of the current boundary. */
  datatype ReflowState = ReflowState(transcript: string, paragraph: nat)

  /**
   * Whether a break goes before sentence `s` when the boundary cursor is at
   * `cursor` and `written` characters have been output.
   */
  predicate OpensParagraph(s: Sentence, bs: seq<int>, cursor: nat, written: nat)
  {
    && cursor < |bs|
    && SentenceEnd(s) > bs[cursor]
    && !(bs[cursor] > s.start + Tolerance)
    && written > MinWritten
  }

  /** One iteration of the reflow loop. */
  function Step(st: ReflowState, s: Sentence, bs: seq<int>): (r: ReflowState)
    ensures st.paragraph <= r.paragraph <= st.paragraph + 1
    ensures |st.transcript| <= |r.transcript| && r.transcript[..|st.transcript|] == st.transcript
  {
    if OpensParagraph(s, bs, st.paragraph, |st.transcript|) then
      ReflowState(st.transcript + ParagraphBreak + s.text, st.paragraph + 1)
    else
      ReflowState(st.transcript + s.text, st.paragraph)
  }

  /** The state after the loop has run over all of `ss` from `st`. */
  function Run(ss: seq<Sentence>, bs: seq<int>, st: ReflowState): (r: ReflowState)
    ensures st.paragraph <= r.paragraph <= st.paragraph + |ss|
    ensures |st.transcript| <= |r.transcript| && r.transcript[..|st.transcript|] == st.transcript
  {
    if ss == [] then st else Run(ss[1..], bs, Step(st, ss[0], bs))
  }

  /** The break decision taken before each sentence, in order. */
  function Breaks(ss: seq<Sentence>, bs: seq<int>, st: ReflowState): (r: seq<bool>)
    ensures |r| == |ss|
  {
    if ss == [] then []
    else [OpensParagraph(ss[0], bs, st.paragraph, |st.transcript|)] + Breaks(ss[1..], bs, Step(st, ss[0], bs))
  }

  /** The number of breaks taken. */
  function Count(brks: seq<bool>): nat
  {
    if brks == [] then 0 else (if brks[0] then 1 else 0) + Count(brks[1..])
  }

  /** The sentence texts in order, each preceded by a separator where `brks` says so. */
  function Joined(ss: seq<Sentence>, brks: seq<bool>): string
    requires |brks| == |ss|
  {
    if ss == [] then ""
    else (if brks[0] then ParagraphBreak else "") + ss[0].text + Joined(ss[1..], brks[1..])
  }

  /** `_generate_text`: the reflow loop followed by the cleanup. */
  method GenerateText(ss: seq<Sentence>, bs: seq<int>) returns (text: string)
    ensures text == Clean(Run(ss, bs, ReflowState("", 0)).transcript)
    ensures bs == [] ==> text == Clean(Texts(ss))
  {
    var transcript := "";
    var paragraph: nat := 0;
    for i := 0 to |ss|
      invariant Run(ss[i..], bs, ReflowState(transcript, paragraph)) == Run(ss, bs, ReflowState("", 0))
    {
      var s := ss[i];
      ghost var before := ReflowState(transcript, paragraph);
      assert Run(ss[i..], bs, before) == Run(ss[i + 1..], bs, Step(before, s, bs)) by {
        assert ss[i..][1..] == ss[i + 1..];
      }
      var endTime := s.start + s.duration;
      if paragraph < |bs| && endTime > bs[paragraph] {
        if bs[paragraph] > s.start + Tolerance {
          transcript := transcript + s.text;
          assert ReflowState(transcript, paragraph) == Step(before, s, bs);
          continue;
        }
        if |transcript| > MinWritten {
          paragraph := paragraph + 1;
          transcript := transcript + ParagraphBreak;
        }
      }
      transcript := transcript + s.text;
      assert ReflowState(transcript, paragraph) == Step(before, s, bs);
    }
    assert ss[|ss|..] == [];
    text := Clean(transcript);
    if bs == [] {
      NoBoundariesIsConcatenation(ss, ReflowState("", 0));
      assert "" + Texts(ss) == Texts(ss);
    }
  }

  /**
   * The loop appends every sentence text exactly once, in order, each
   * preceded by a separator exactly where a break was decided, and the
   * cursor advances once per break.
   */
  lemma {:induction false} RunIsJoined(ss: seq<Sentence>, bs: seq<int>, st: ReflowState)
    ensures Run(ss, bs, st).transcript == st.transcript + Joined(ss, Breaks(ss, bs, st))
    ensures Run(ss, bs, st).paragraph == st.paragraph + Count(Breaks(ss, bs, st))
  {
    if ss != [] {
      var next := Step(st, ss[0], bs);
      RunIsJoined(ss[1..], bs, next);
      var brks := Breaks(ss, bs, st);
      assert brks[1..] == Breaks(ss[1..], bs, next);
      var sep := if brks[0] then ParagraphBreak else "";
      assert next.transcript == st.transcript + sep + ss[0].text;
      var rest := Joined(ss[1..], brks[1..]);
      Regroup(st.transcript + sep, ss[0].text, rest);
      Regroup(st.transcript, sep, ss[0].text + rest);
      Regroup(sep, ss[0].text, rest);
    }
  }

  /** The cursor never passes the end of the boundary list. */
  lemma {:induction false} CursorStaysInBounds(ss: seq<Sentence>, bs: seq<int>, st: ReflowState)
    requires st.paragraph <= |bs|
    ensures st.paragraph <= Run(ss, bs, st).paragraph <= |bs|
  {
    if ss != [] {
      CursorStaysInBounds(ss[1..], bs, Step(st, ss[0], bs));
    }
  }

  /** Hence the number of separators inserted is at most the number of boundaries. */
  lemma AtMostOneBreakPerBoundary(ss: seq<Sentence>, bs: seq<int>)
    ensures Count(Breaks(ss, bs, ReflowState("", 0))) <= |bs|
  {
    RunIsJoined(ss, bs, ReflowState("", 0));
    CursorStaysInBounds(ss, bs, ReflowState("", 0));
  }

  /**
   * A break goes before sentence `i` exactly when, in the state the loop has
   * reached after the first `i` sentences, the cursor is on a boundary that
   * the sentence ends after, that boundary lies no more than the tolerance
   * past the sentence's start, and more than `MinWritten` characters are out.
   */
  lemma {:induction false} BreakRule(ss: seq<Sentence>, bs: seq<int>, st: ReflowState, i: nat)
    requires i < |ss|
    ensures var before := Run(ss[..i], bs, st);
      Breaks(ss, bs, st)[i] <==>
        && before.paragraph < |bs|
        && SentenceEnd(ss[i]) > bs[before.paragraph]
        && bs[before.paragraph] <= ss[i].start + Tolerance
        && |before.transcript| > MinWritten
  {
    if i == 0 {
      assert ss[..0] == [];
    } else {
      var next := Step(st, ss[0], bs);
      BreakRule(ss[1..], bs, next, i - 1);
      assert ss[..i][1..] == ss[1..][..i - 1];
      assert Run(ss[..i], bs, st) == Run(ss[1..][..i - 1], bs, next);
      assert Breaks(ss, bs, st)[i] == Breaks(ss[1..], bs, next)[i - 1];
    }
  }

  /** Without separators the joined text is the plain concatenation of the sentences. */
  lemma {:induction false} JoinedWithoutBreaks(ss: seq<Sentence>, brks: seq<bool>)
    requires |brks| == |ss| && Count(brks) == 0
    ensures Joined(ss, brks) == Texts(ss)
  {
    if ss != [] {
      JoinedWithoutBreaks(ss[1..], brks[1..]);
    }
  }

  /** Separators add exactly two characters each. */
  lemma {:induction false} JoinedLength(ss: seq<Sentence>, brks: seq<bool>)
    requires |brks| == |ss|
    ensures |Joined(ss, brks)| == |Texts(ss)| + 2 * Count(brks)
  {
    if ss != [] {
      JoinedLength(ss[1..], brks[1..]);
    }
  }

  /** With no boundaries the loop never breaks and outputs the plain concatenation. */
  lemma {:induction false} NoBoundariesIsConcatenation(ss: seq<Sentence>, st: ReflowState)
    ensures Run(ss, [], st).transcript == st.transcript + Texts(ss)
  {
    if ss != [] {
      NoBoundariesIsConcatenation(ss[1..], Step(st, ss[0], []));
      Regroup(st.transcript, ss[0].text, Texts(ss[1..]));
    }
  }

  /** While the output is short, even a sentence squarely across its boundary gets no break. */
  lemma ShortOutputExample()
    ensures Breaks([Sentence("Hi. ", 0, 500), Sentence("Yes. ", 500, 500)], [100], ReflowState("", 0)) == [false, false]
  {
  }

  /** Once more than ten characters are out, the crossing sentence opens a paragraph. */
  lemma BreakAfterLongOutputExample()
    ensures Run([Sentence("Hello there. ", 0, 500), Sentence("Next. ", 500, 500)], [600], ReflowState("", 0))
      == ReflowState("Hello there. \n\nNext. ", 1)
  {
  }

  /** A boundary more than two seconds past the crossing sentence's start gets no break there. */
  lemma PrematureCrossingExample()
    ensures Breaks([Sentence("Hello there. ", 0, 500), Sentence("Next. ", 500, 500)], [800], ReflowState("", 0)) == [false, false]
  {
  }
}
