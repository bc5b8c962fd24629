/**
 * Sentence assembly: caption fragments are merged into sentences, a
 * sentence closing at every fragment whose raw text ends in `.`, `!` or `?`.
 *
 * The start of the next sentence is set to the duration just computed, as
 * the source does; `SentenceEndsAreExact` and `StartsDriftExample` show what
 * that does and does not preserve.
 */
module SentenceAssembly {
  import opened Captions

  /** Whether a fragment's raw text ends in terminal punctuation. */
  predicate Terminated(text: string)
  {
    |text| > 0 && text[|text| - 1] in {'.', '!', '?'}
  }

  /** The text with each line break turned into a space. */
  function SpaceNewlines(text: string): (r: string)
    ensures |r| == |text| && '\n' !in r
    ensures forall k :: 0 <= k < |text| ==> r[k] == if text[k] == '\n' then ' ' else text[k]
  {
    if text == [] then ""
    else [if text[0] == '\n' then ' ' else text[0]] + SpaceNewlines(text[1..])
  }

  /** Text without line breaks is left as it is. */
  lemma NoNewlinesUnchanged(text: string)
    requires '\n' !in text
    ensures SpaceNewlines(text) == text
  {
    if text != [] {
      NoNewlinesUnchanged(text[1..]);
    }
  }

  /** What one fragment contributes to the sentence being built. */
  function Piece(f: Fragment): string
  {
    SpaceNewlines(f.text) + " "
  }

  /** The contributions of a run of fragments, in order. */
  function Pieces(fs: seq<Fragment>): string
  {
    if fs == [] then "" else Piece(fs[0]) + Pieces(fs[1..])
  }

  /**
   * The sentences built from `frags` when `pending` has been accumulated so
   * far and the current sentence starts at `startTime`.
   */
  function Assemble(frags: seq<Fragment>, pending: string, startTime: int): (r: seq<Sentence>)
    ensures |r| <= |frags|
    decreases |frags|
  {
    if frags == [] then []
    else
      var acc := pending + Piece(frags[0]);
      if Terminated(frags[0].text) then
        var duration := FragmentEnd(frags[0]) - startTime;
        [Sentence(acc, startTime, duration)] + Assemble(frags[1..], "", duration)
      else
        Assemble(frags[1..], acc, startTime)
  }

  /** The loop of `_convert_to_sentences`. */
  method ConvertToSentences(frags: seq<Fragment>) returns (sentences: seq<Sentence>)
    ensures sentences == Assemble(frags, "", 0)
  {
    sentences := [];
    var current := "";
    var startTime := 0;
    for i := 0 to |frags|
      invariant sentences + Assemble(frags[i..], current, startTime) == Assemble(frags, "", 0)
    {
      var sub := frags[i];
      ghost var before := Assemble(frags[i..], current, startTime);
      assert frags[i..][0] == sub && frags[i..][1..] == frags[i + 1..];
      current := current + (SpaceNewlines(sub.text) + " ");
      if Terminated(sub.text) {
        var duration := sub.start + sub.duration - startTime;
        assert before == [Sentence(current, startTime, duration)] + Assemble(frags[i + 1..], "", duration);
        sentences := sentences + [Sentence(current, startTime, duration)];
        current := "";
        startTime := duration;
      } else {
        assert before == Assemble(frags[i + 1..], current, startTime);
      }
    }
    assert frags[|frags|..] == [];
  }

  /** The end times of the terminated fragments, in order. */
  function TerminatedEnds(frags: seq<Fragment>): (ends: seq<int>)
    ensures |ends| <= |frags|
  {
    if frags == [] then []
    else (if Terminated(frags[0].text) then [FragmentEnd(frags[0])] else []) + TerminatedEnds(frags[1..])
  }

  /**
   * One sentence per terminated fragment, and every sentence ends exactly
   * where its closing fragment ends, whatever start it was given.
   */
  lemma {:induction false} SentenceEndsAreExact(frags: seq<Fragment>, pending: string, startTime: int)
    ensures var ss := Assemble(frags, pending, startTime);
            |ss| == |TerminatedEnds(frags)| &&
            forall i :: 0 <= i < |ss| ==> SentenceEnd(ss[i]) == TerminatedEnds(frags)[i]
  {
    if frags != [] {
      var acc := pending + Piece(frags[0]);
      var ends := TerminatedEnds(frags);
      if Terminated(frags[0].text) {
        var d := FragmentEnd(frags[0]) - startTime;
        SentenceEndsAreExact(frags[1..], "", d);
        var rest := Assemble(frags[1..], "", d);
        var ss := [Sentence(acc, startTime, d)] + rest;
        assert Assemble(frags, pending, startTime) == ss;
        assert ends == [FragmentEnd(frags[0])] + TerminatedEnds(frags[1..]);
        forall i | 0 <= i < |ss| ensures SentenceEnd(ss[i]) == ends[i] {
          if i > 0 { assert ss[i] == rest[i - 1]; }
        }
      } else {
        SentenceEndsAreExact(frags[1..], acc, startTime);
        assert ends == TerminatedEnds(frags[1..]);
      }
    }
  }

  /**
   * The first sentence starts at the given start time, and each later
   * sentence starts at the previous sentence's duration.
   */
  lemma {:induction false} SentenceStartsChain(frags: seq<Fragment>, pending: string, startTime: int)
    ensures var ss := Assemble(frags, pending, startTime);
            (ss != [] ==> ss[0].start == startTime) &&
            forall i :: 0 <= i < |ss| - 1 ==> ss[i + 1].start == ss[i].duration
  {
    if frags != [] {
      var acc := pending + Piece(frags[0]);
      if Terminated(frags[0].text) {
        var d := FragmentEnd(frags[0]) - startTime;
        SentenceStartsChain(frags[1..], "", d);
        var rest := Assemble(frags[1..], "", d);
        var ss := [Sentence(acc, startTime, d)] + rest;
        assert Assemble(frags, pending, startTime) == ss;
        forall i | 0 <= i < |ss| - 1 ensures ss[i + 1].start == ss[i].duration {
          assert ss[i + 1] == rest[i];
          if i > 0 { assert ss[i] == rest[i - 1]; }
        }
      } else {
        SentenceStartsChain(frags[1..], acc, startTime);
      }
    }
  }

  /** The length of the longest prefix of `frags` that ends with a terminated fragment. */
  function LastClosed(frags: seq<Fragment>): (n: nat)
    ensures n <= |frags|
    ensures n > 0 ==> Terminated(frags[n - 1].text)
    ensures forall k :: n <= k < |frags| ==> !Terminated(frags[k].text)
  {
    if frags == [] then 0
    else if Terminated(frags[|frags| - 1].text) then |frags|
    else LastClosed(frags[..|frags| - 1])
  }

  /** `LastClosed` is the only length with its two defining properties. */
  lemma LastClosedUnique(frags: seq<Fragment>, n: nat)
    requires n <= |frags|
    requires n > 0 ==> Terminated(frags[n - 1].text)
    requires forall k :: n <= k < |frags| ==> !Terminated(frags[k].text)
    ensures n == LastClosed(frags)
  {
    var m := LastClosed(frags);
  }

  /** Dropping the first fragment shortens the closed prefix by one, unless it is empty. */
  lemma LastClosedTail(frags: seq<Fragment>)
    requires frags != []
    ensures LastClosed(frags[1..]) == if LastClosed(frags) == 0 then 0 else LastClosed(frags) - 1
  {
    var n := LastClosed(frags);
    var tail := frags[1..];
    if n <= 1 {
      LastClosedUnique(tail, 0);
    } else {
      assert tail[n - 2] == frags[n - 1];
      LastClosedUnique(tail, n - 1);
    }
  }

  /** The text still accumulated, and so dropped, when the fragments run out. */
  function Leftover(frags: seq<Fragment>, pending: string): string
  {
    if frags == [] then pending
    else if Terminated(frags[0].text) then Leftover(frags[1..], "")
    else Leftover(frags[1..], pending + Piece(frags[0]))
  }

  /** Sentence texts followed by the dropped text are exactly everything accumulated. */
  lemma {:induction false} TextsThenLeftover(frags: seq<Fragment>, pending: string, startTime: int)
    ensures Texts(Assemble(frags, pending, startTime)) + Leftover(frags, pending) == pending + Pieces(frags)
  {
    if frags != [] {
      var f0, tail := frags[0], frags[1..];
      var acc := pending + Piece(f0);
      assert Pieces(frags) == Piece(f0) + Pieces(tail);
      Regroup(pending, Piece(f0), Pieces(tail));
      if Terminated(f0.text) {
        var d := FragmentEnd(f0) - startTime;
        var rest := Assemble(tail, "", d);
        var left := Leftover(tail, "");
        TextsThenLeftover(tail, "", d);
        assert Texts(rest) + left == Pieces(tail) by {
          assert "" + Pieces(tail) == Pieces(tail);
        }
        var ss := [Sentence(acc, startTime, d)] + rest;
        assert Texts(Assemble(frags, pending, startTime)) == acc + Texts(rest) by {
          assert Assemble(frags, pending, startTime) == ss;
          assert ss[1..] == rest;
        }
        assert Leftover(frags, pending) == left;
        Regroup(acc, Texts(rest), left);
      } else {
        TextsThenLeftover(tail, acc, startTime);
        assert Assemble(frags, pending, startTime) == Assemble(tail, acc, startTime);
        assert Leftover(frags, pending) == Leftover(tail, acc);
      }
    }
  }

  /** The dropped text is the unterminated run after the last terminated fragment. */
  lemma {:induction false} LeftoverIsOpenRun(frags: seq<Fragment>, pending: string)
    ensures Leftover(frags, pending) ==
            (if LastClosed(frags) == 0 then pending else "") + Pieces(frags[LastClosed(frags)..])
  {
    if frags == [] {
      assert frags[0..] == [];
    } else {
      var f0, tail := frags[0], frags[1..];
      var n := LastClosed(frags);
      LastClosedTail(frags);
      if Terminated(f0.text) {
        LeftoverIsOpenRun(tail, "");
        assert n >= 1;
        assert tail[n - 1..] == frags[n..];
      } else {
        var acc := pending + Piece(f0);
        LeftoverIsOpenRun(tail, acc);
        if n == 0 {
          assert tail[0..] == tail && frags[0..] == frags;
        } else {
          assert n != 1;
          assert tail[n - 1..] == frags[n..];
        }
      }
    }
  }

  /** With no terminated fragment, nothing is emitted. */
  lemma {:induction false} NothingClosedNothingEmitted(frags: seq<Fragment>, pending: string, startTime: int)
    requires LastClosed(frags) == 0
    ensures Assemble(frags, pending, startTime) == []
  {
    if frags != [] {
      assert !Terminated(frags[0].text);
      LastClosedTail(frags);
      NothingClosedNothingEmitted(frags[1..], pending + Piece(frags[0]), startTime);
    }
  }

  /** The contributions of two runs placed one after the other. */
  lemma {:induction false} PiecesAppend(a: seq<Fragment>, b: seq<Fragment>)
    ensures Pieces(a + b) == Pieces(a) + Pieces(b)
  {
    if a == [] {
      assert a + b == b;
    } else {
      PiecesAppend(a[1..], b);
      assert (a + b)[0] == a[0];
      assert (a + b)[1..] == a[1..] + b;
      Regroup(Piece(a[0]), Pieces(a[1..]), Pieces(b));
    }
  }

  /** The contributions of a list split at any point. */
  lemma PiecesSplit(frags: seq<Fragment>, n: nat)
    requires n <= |frags|
    ensures Pieces(frags) == Pieces(frags[..n]) + Pieces(frags[n..])
  {
    assert frags == frags[..n] + frags[n..];
    PiecesAppend(frags[..n], frags[n..]);
  }

  /** Equal strings with equal endings have equal beginnings. */
  lemma CancelRight(a: string, b: string, c: string)
    requires a + c == b + c
    ensures a == b
  {
    assert |a| == |b|;
    assert a == (a + c)[..|a|];
    assert b == (b + c)[..|b|];
  }

  /**
   * The sentence texts, concatenated, are the pending text followed by the
   * contributions of every fragment up to and including the last terminated
   * one; a trailing unterminated run contributes nothing.
   */
  lemma SentenceTextsCoverClosedPrefix(frags: seq<Fragment>, pending: string, startTime: int)
    ensures Texts(Assemble(frags, pending, startTime)) ==
            if LastClosed(frags) == 0 then "" else pending + Pieces(frags[..LastClosed(frags)])
  {
    var n := LastClosed(frags);
    if n == 0 {
      NothingClosedNothingEmitted(frags, pending, startTime);
    } else {
      var t := Texts(Assemble(frags, pending, startTime));
      var open := Pieces(frags[n..]);
      TextsThenLeftover(frags, pending, startTime);
      LeftoverIsOpenRun(frags, pending);
      PiecesSplit(frags, n);
      assert "" + open == open;
      assert t + open == (pending + Pieces(frags[..n])) + open;
      CancelRight(t, pending + Pieces(frags[..n]), open);
    }
  }

  /** A last fragment that is terminated closes the pending sentence. */
  lemma ClosingStep(f: Fragment, pending: string, startTime: int)
    requires Terminated(f.text)
    ensures Assemble([f], pending, startTime) == [Sentence(pending + Piece(f), startTime, FragmentEnd(f) - startTime)]
  {
    assert [f][1..] == [];
  }

  /** An unterminated fragment only extends the pending text. */
  lemma OpenStep(f: Fragment, rest: seq<Fragment>, pending: string, startTime: int)
    requires !Terminated(f.text)
    ensures Assemble([f] + rest, pending, startTime) == Assemble(rest, pending + Piece(f), startTime)
  {
    assert ([f] + rest)[1..] == rest;
  }

  /**
   * An unterminated fragment followed by a terminated one give a single
   * sentence holding both contributions, from 0 to the second fragment's end.
   */
  lemma TwoFragmentSentence(a: Fragment, b: Fragment)
    requires !Terminated(a.text) && Terminated(b.text)
    ensures Assemble([a, b], "", 0) == [Sentence(Piece(a) + Piece(b), 0, FragmentEnd(b))]
  {
    OpenStep(a, [b], "", 0);
    assert [a] + [b] == [a, b];
    ClosingStep(b, "" + Piece(a), 0);
    assert "" + Piece(a) == Piece(a);
  }

  lemma HelloPiece()
    ensures Piece(Fragment("Hello", 0, 200)) == "Hello "
  {
    NoNewlinesUnchanged("Hello");
  }

  lemma WorldPiece()
    ensures Piece(Fragment("world.", 200, 100)) == "world. "
  {
    NoNewlinesUnchanged("world.");
  }

  /** `("Hello", 0, 2 s), ("world.", 2 s, 1 s)` give one sentence of 3 s. */
  lemma HelloWorldExample()
    ensures Assemble([Fragment("Hello", 0, 200), Fragment("world.", 200, 100)], "", 0)
            == [Sentence("Hello world. ", 0, 300)]
  {
    HelloPiece();
    WorldPiece();
    assert "Hello " + "world. " == "Hello world. ";
    TwoFragmentSentence(Fragment("Hello", 0, 200), Fragment("world.", 200, 100));
  }

  /**
   * From the third sentence on, a sentence need not start where the previous
   * one ends: three one-second sentences give the third a start of 1 s.
   */
  lemma StartsDriftExample()
    ensures var ss := Assemble([Fragment("A.", 0, 100), Fragment("B.", 100, 100), Fragment("C.", 200, 100)], "", 0);
            |ss| == 3 && ss[2].start == 100 && SentenceEnd(ss[1]) == 200
  {
    var f0, f1, f2 := Fragment("A.", 0, 100), Fragment("B.", 100, 100), Fragment("C.", 200, 100);
    assert Terminated(f0.text) && Terminated(f1.text) && Terminated(f2.text);
    assert [f0, f1, f2][1..] == [f1, f2];
    assert [f1, f2][1..] == [f2];
    assert [f2][1..] == [];
  }
}
