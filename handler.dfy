/**
 * The handler's entry point: it normalises the video reference, picks a
 * caption track, and, when there is one, runs the sentence assembler, the
 * chapter-boundary parser and the reflow over the already-fetched data.
 * Optionally the paragraph breaks are rendered as HTML.
 */
module VideosHandler {
  import opened Wrappers
  import opened Captions
  import opened TrackSelection
  import opened SentenceAssembly
  import opened ChapterBoundaries
  import opened Cleanup
  import opened ParagraphReflow

  /** The text returned when no track in an accepted language exists. */
  const SorryMessage := "Unfortunately, there are no subs for this video :("
  /** The canonical watch address, to be followed by the video id. */
  const WatchPrefix := "https://www.youtube.com/watch?v="
  /** The marker that makes the input count as a link rather than a bare id. */
  const SiteMarker := "youtube"
  /** What each paragraph separator becomes in HTML output. */
  const HtmlBreak := "<br><br>"

  /** `pat` occurs in `s` starting at index `i`. */
  predicate OccursAt(s: string, pat: string, i: nat)
  {
    i + |pat| <= |s| && s[i..i + |pat|] == pat
  }

  /** Python's `pat in s`. */
  function Contains(s: string, pat: string): (r: bool)
    ensures r <==> exists i: nat :: OccursAt(s, pat, i)
    decreases |s|
  {
    if |s| < |pat| then
      assert forall i: nat :: !OccursAt(s, pat, i);
      false
    else if s[..|pat|] == pat then
      assert OccursAt(s, pat, 0);
      true
    else
      var r := Contains(s[1..], pat);
      assert forall i: nat :: OccursAt(s, pat, i + 1) <==> OccursAt(s[1..], pat, i) by {
        forall i: nat ensures OccursAt(s, pat, i + 1) <==> OccursAt(s[1..], pat, i) {
          if i + 1 + |pat| <= |s| {
            assert s[1..][i..i + |pat|] == s[i + 1..i + 1 + |pat|];
          }
        }
      }
      assert !OccursAt(s, pat, 0);
      assert forall i: nat :: OccursAt(s, pat, i) ==> i > 0 && OccursAt(s[1..], pat, i - 1);
      r
  }

  /**
   * `s.split("=")[-1]`: the longest tail of `s` without `=`; it is all of
   * `s` when `s` has no `=`, and otherwise it starts right after the last `=`.
   */
  function AfterLastEquals(s: string): (r: string)
    ensures '=' !in r
    ensures |r| <= |s| && r == s[|s| - |r|..]
    ensures |r| < |s| ==> s[|s| - |r| - 1] == '='
  {
    if s == [] then []
    else if s[|s| - 1] == '=' then []
    else
      var rest := AfterLastEquals(s[..|s| - 1]);
      assert s[|s| - |rest| - 1..] == s[..|s| - 1][|s| - 1 - |rest|..] + [s[|s| - 1]];
      rest + [s[|s| - 1]]
  }

  /** The video id: a link containing the marker is cut after its last `=`; anything else is taken as the id. */
  function VideoId(s: string): (r: string)
    ensures Contains(s, SiteMarker) ==> '=' !in r && |r| <= |s| && r == s[|s| - |r|..]
    ensures !Contains(s, SiteMarker) ==> r == s
  {
    if Contains(s, SiteMarker) then AfterLastEquals(s) else s
  }

  /** Any text ending in `=` followed by a tail without `=` splits back to that tail. */
  lemma {:induction false} AfterLastEqualsOfTail(p: string, id: string)
    requires p != [] && p[|p| - 1] == '='
    requires '=' !in id
    ensures AfterLastEquals(p + id) == id
    decreases |id|
  {
    var s := p + id;
    if id == [] {
      assert s == p;
    } else {
      assert s[|s| - 1] == id[|id| - 1];
      assert s[..|s| - 1] == p + id[..|id| - 1];
      AfterLastEqualsOfTail(p, id[..|id| - 1]);
      assert id[..|id| - 1] + [id[|id| - 1]] == id;
    }
  }

  /** The canonical watch link of an id without `=` yields that id back. */
  lemma WatchLinkRoundTrip(id: string)
    requires '=' !in id
    ensures VideoId(WatchPrefix + id) == id
  {
    var s := WatchPrefix + id;
    assert s[12..19] == SiteMarker;
    assert OccursAt(s, SiteMarker, 12);
    AfterLastEqualsOfTail(WatchPrefix, id);
  }

  /** `s` has two line breaks in a row starting at `k`. */
  predicate DoubleBreakAt(s: string, k: int)
  {
    0 <= k && k + 1 < |s| && s[k] == '\n' && s[k + 1] == '\n'
  }

  /** The reverse rewrite: each `<br><br>`, read left to right, back to a paragraph separator. */
  function Unrender(t: string): string
    decreases |t|
  {
    if t == [] then []
    else if t[0] == '<' && |t| >= |HtmlBreak| && t[..|HtmlBreak|] == HtmlBreak then ParagraphBreak + Unrender(t[|HtmlBreak|..])
    else [t[0]] + Unrender(t[1..])
  }

  /**
   * `s.replace("\n\n", "<br><br>")`: left to right, non-overlapping. The
   * result starts where the input does and no two line breaks in a row
   * survive.
   */
  function RenderHtml(s: string): (r: string)
    ensures r == [] <==> s == []
    ensures r != [] ==> r[0] == (if DoubleBreakAt(s, 0) then '<' else s[0])
    ensures forall k :: !DoubleBreakAt(r, k)
    decreases |s|
  {
    if s == [] then []
    else if DoubleBreakAt(s, 0) then
      var rest := RenderHtml(s[2..]);
      assert forall k :: DoubleBreakAt(HtmlBreak + rest, k) ==> DoubleBreakAt(rest, k - |HtmlBreak|);
      HtmlBreak + rest
    else
      var rest := RenderHtml(s[1..]);
      assert forall k :: DoubleBreakAt([s[0]] + rest, k) ==> DoubleBreakAt(rest, k - 1) || k == 0;
      [s[0]] + rest
  }

  /** A leading separator becomes `<br><br>` and the rewrite goes on after it. */
  lemma RenderHtmlLeadingBreak(b: string)
    ensures RenderHtml(ParagraphBreak + b) == HtmlBreak + RenderHtml(b)
  {
    var s := ParagraphBreak + b;
    assert DoubleBreakAt(s, 0);
    assert s[2..] == b;
  }

  /** A character that does not start a separator is kept, and the rewrite goes on after it. */
  lemma RenderHtmlKeepsHead(s: string)
    requires s != [] && !DoubleBreakAt(s, 0)
    ensures RenderHtml(s) == [s[0]] + RenderHtml(s[1..])
  {
  }

  /**
   * A prefix with no double line break that does not end in a line break is
   * kept as it is, and the rewrite goes on after it.
   */
  lemma {:induction false} RenderHtmlPlainPrefix(a: string, c: string)
    requires forall k :: !DoubleBreakAt(a, k)
    requires a == [] || a[|a| - 1] != '\n'
    ensures RenderHtml(a + c) == a + RenderHtml(c)
    decreases |a|
  {
    if a != [] {
      var s := a + c;
      assert s[0] == a[0] && s[1..] == a[1..] + c;
      assert !DoubleBreakAt(s, 0) by {
        if |a| > 1 {
          assert !DoubleBreakAt(a, 0);
          assert s[1] == a[1];
        }
      }
      RenderHtmlKeepsHead(s);
      assert forall k :: !DoubleBreakAt(a[1..], k) by {
        forall k ensures !DoubleBreakAt(a[1..], k) {
          assert !DoubleBreakAt(a, k + 1);
        }
      }
      RenderHtmlPlainPrefix(a[1..], c);
      var rc := RenderHtml(c);
      assert [a[0]] + (a[1..] + rc) == a + rc;
    } else {
      assert a + c == c;
    }
  }

  /**
   * The first separator is the one replaced: text with no double line break
   * that does not end in a line break is kept, its following `"\n\n"`
   * becomes `<br><br>`, and the rewrite goes on after it.
   */
  lemma RenderHtmlFirstBreak(a: string, b: string)
    requires forall k :: !DoubleBreakAt(a, k)
    requires a == [] || a[|a| - 1] != '\n'
    ensures RenderHtml(a + ParagraphBreak + b) == a + HtmlBreak + RenderHtml(b)
  {
    var p := ParagraphBreak + b;
    var rb := RenderHtml(b);
    RenderHtmlPlainPrefix(a, p);
    RenderHtmlLeadingBreak(b);
    assert a + ParagraphBreak + b == a + p;
    assert a + (HtmlBreak + rb) == a + HtmlBreak + rb;
  }

  /** The reverse rewrite turns a leading `<br><br>` back into a separator. */
  lemma UnrenderTag(rest: string)
    ensures Unrender(HtmlBreak + rest) == ParagraphBreak + Unrender(rest)
  {
    var t := HtmlBreak + rest;
    assert t[..|HtmlBreak|] == HtmlBreak;
    assert t[|HtmlBreak|..] == rest;
  }

  /** The reverse rewrite keeps a leading character other than `<`. */
  lemma UnrenderKeepsHead(c: char, rest: string)
    requires c != '<'
    ensures Unrender([c] + rest) == [c] + Unrender(rest)
  {
    assert ([c] + rest)[1..] == rest;
  }

  /** On text without `<`, the reverse rewrite gives the input back. */
  lemma {:induction false} RenderHtmlRoundTrip(s: string)
    requires '<' !in s
    ensures Unrender(RenderHtml(s)) == s
    decreases |s|
  {
    if s != [] {
      if DoubleBreakAt(s, 0) {
        var rest := RenderHtml(s[2..]);
        assert RenderHtml(s) == HtmlBreak + rest;
        RenderHtmlRoundTrip(s[2..]);
        UnrenderTag(rest);
        assert s == ParagraphBreak + s[2..];
      } else {
        var rest := RenderHtml(s[1..]);
        RenderHtmlKeepsHead(s);
        RenderHtmlRoundTrip(s[1..]);
        UnrenderKeepsHead(s[0], rest);
        assert s == [s[0]] + s[1..];
      }
    }
  }

  /** Text without a paragraph separator is left as it is. */
  lemma {:induction false} RenderHtmlKeepsPlainText(s: string)
    requires forall k :: !DoubleBreakAt(s, k)
    ensures RenderHtml(s) == s
    decreases |s|
  {
    if s != [] {
      assert !DoubleBreakAt(s, 0);
      assert forall k :: DoubleBreakAt(s[1..], k) ==> DoubleBreakAt(s, k + 1);
      RenderHtmlKeepsPlainText(s[1..]);
      assert [s[0]] + s[1..] == s;
    }
  }

  /** A single line break is kept and a run of three becomes one separator and a break. */
  lemma RenderHtmlExample()
    ensures RenderHtml("a\n\n\nb") == "a<br><br>\nb"
  {
    var s := "a\n\n\nb";
    assert !DoubleBreakAt(s, 0);
    assert s[1..] == "\n\n\nb";
    assert DoubleBreakAt(s[1..], 0);
    assert s[1..][2..] == "\nb";
    assert !DoubleBreakAt("\nb", 0);
    assert "\nb"[1..] == "b";
    assert RenderHtml("b") == "b";
  }

  /** The handler's reply: the canonical link, the id and the article text. */
  datatype Response = Response(videoUrl: string, videoId: string, text: string)

  /** The one failure of the modelled pipeline: a selected track with no fragments. */
  datatype HandlerError = EmptyTranscript

  /** The article built from a non-empty track and the video description. */
  function Article(frags: seq<Fragment>, description: string, htmlRender: bool): (r: string)
    requires frags != []
    ensures htmlRender ==> forall k :: !DoubleBreakAt(r, k)
  {
    var sentences := Assemble(frags, "", 0);
    var boundaries := Boundaries(description, FragmentEnd(frags[|frags| - 1]));
    var text := Clean(Run(sentences, boundaries, ReflowState("", 0)).transcript);
    if htmlRender then RenderHtml(text) else text
  }

  /**
   * `__call__` over already-fetched data: the manually created tracks and
   * the video description stand for the transcript and video lookups.
   */
  method Handle(urlOrId: string, tracks: seq<Track>, description: string, htmlRender: bool)
    returns (r: Result<Response, HandlerError>)
    ensures SelectTrack(tracks, OkLanguageCodes).None? ==>
      r == Success(Response(WatchPrefix + VideoId(urlOrId), VideoId(urlOrId), SorryMessage))
    ensures SelectTrack(tracks, OkLanguageCodes) == Some([]) ==> r == Failure(EmptyTranscript)
    ensures SelectTrack(tracks, OkLanguageCodes).Some? && SelectTrack(tracks, OkLanguageCodes).value != [] ==>
      var frags := SelectTrack(tracks, OkLanguageCodes).value;
      r == Success(Response(WatchPrefix + VideoId(urlOrId), VideoId(urlOrId), Article(frags, description, htmlRender)))
  {
    var videoId := urlOrId;
    if Contains(urlOrId, SiteMarker) {
      videoId := AfterLastEquals(urlOrId);
    }
    assert videoId == VideoId(urlOrId);
    var videoUrl := WatchPrefix + videoId;
    var subs := GetVideoSubs(tracks, OkLanguageCodes);
    if subs.None? {
      return Success(Response(videoUrl, videoId, SorryMessage));
    }
    var frags := subs.value;
    var starts := GetTimestamps(description, frags);
    if starts.None? {
      return Failure(EmptyTranscript);
    }
    var sentences := ConvertToSentences(frags);
    var text := GenerateText(sentences, starts.value);
    if htmlRender {
      text := RenderHtml(text);
    }
    assert text == Article(frags, description, htmlRender);
    return Success(Response(videoUrl, videoId, text));
  }
}
