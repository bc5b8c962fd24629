/**
 * The data model of the transcript pipeline: caption fragments as the
 * transcript provider delivers them, caption tracks keyed by language code,
 * and the sentences the assembler builds from fragments.
 *
 * All times are whole centiseconds, so the source's `round(x, 2)` on
 * seconds is the identity and the 2.0 s tolerance is 200.
 */
module Captions {

  /** One time-coded caption unit: `{"text", "start", "duration"}`. */
  datatype Fragment = Fragment(text: string, start: int, duration: int)

  /** One manually created caption track: its language code and its fragments. */
  datatype Track = Track(code: string, fragments: seq<Fragment>)

  /** A run of fragments closed by terminal punctuation. */
  datatype Sentence = Sentence(text: string, start: int, duration: int)

  /** The end of a fragment on the video's time line. */
  function FragmentEnd(f: Fragment): int
  {
    f.start + f.duration
  }

  /** The `end_time` the reflow engine computes for a sentence. */
  function SentenceEnd(s: Sentence): int
  {
    s.start + s.duration
  }

  /** The concatenation of the sentences' texts, in order. */
  function Texts(ss: seq<Sentence>): string
  {
    if ss == [] then "" else ss[0].text + Texts(ss[1..])
  }

  /** Concatenation regroups. */
  lemma Regroup(a: string, b: string, c: string)
    ensures (a + b) + c == a + (b + c)
  {
  }
}
