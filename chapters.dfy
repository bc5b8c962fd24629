/**
 * Chapter-boundary extraction: chapter timestamps are scraped from a video
 * description with the pattern `\d{1,2}:\d{2}`, scanned left to right with
 * non-overlapping, leftmost matches; the end of the last caption fragment is
 * appended as a final boundary, and a first boundary of exactly 0 is dropped.
 */
module ChapterBoundaries {
  import opened Wrappers
  import opened Captions

  predicate IsDigit(c: char)
  {
    '0' <= c <= '9'
  }

  function DigitValue(c: char): (v: nat)
    requires IsDigit(c)
    ensures v <= 9
  {
    (c as int) - ('0' as int)
  }

  /** Python's `int()` of a string of ASCII digits: the decimal number they spell. */
  function Number(d: string): nat
    requires forall k :: 0 <= k < |d| ==> IsDigit(d[k])
  {
    if d == [] then 0 else 10 * Number(d[..|d| - 1]) + DigitValue(d[|d| - 1])
  }

  /** A one-digit string spells that digit's value. */
  lemma NumberOfOne(a: char)
    requires IsDigit(a)
    ensures Number([a]) == DigitValue(a)
  {
    assert [a][..0] == [];
  }

  /** A two-digit string spells ten times the first digit plus the second. */
  lemma NumberOfTwo(a: char, b: char)
    requires IsDigit(a) && IsDigit(b)
    ensures Number([a, b]) == 10 * DigitValue(a) + DigitValue(b)
  {
    assert [a, b][..1] == [a];
    NumberOfOne(a);
  }

  /** One match of the timestamp pattern: where it starts, its length, and its two fields. */
  datatype Stamp = Stamp(at: nat, len: nat, mins: nat, secs: nat)

  /** Two minute digits, a colon and two second digits start at `i`. */
  predicate LongAt(s: string, i: nat)
  {
    i + 5 <= |s| && IsDigit(s[i]) && IsDigit(s[i + 1]) && s[i + 2] == ':' && IsDigit(s[i + 3]) && IsDigit(s[i + 4])
  }

  /** One minute digit, a colon and two second digits start at `i`. */
  predicate ShortAt(s: string, i: nat)
  {
    i + 4 <= |s| && IsDigit(s[i]) && s[i + 1] == ':' && IsDigit(s[i + 2]) && IsDigit(s[i + 3])
  }

  /**
   * The match of `\d{1,2}:\d{2}` that starts at `i`, if any. The greedy
   * two-digit form is tried first; the two forms cannot both apply, since one
   * needs a digit where the other needs the colon.
   */
  function MatchAt(s: string, i: nat): (r: Option<Stamp>)
    ensures r.Some? <==> LongAt(s, i) || ShortAt(s, i)
    ensures r.Some? ==> r.value.at == i && r.value.len in {4, 5} && i + r.value.len <= |s|
    ensures r.Some? ==> (r.value.len == 5 <==> LongAt(s, i))
    ensures r.Some? ==> s[i + r.value.len - 3] == ':'
    ensures r.Some? ==> r.value.mins == Number(s[i..i + r.value.len - 3])
    ensures r.Some? ==> r.value.secs == Number(s[i + r.value.len - 2..i + r.value.len])
    ensures r.Some? ==> r.value.mins <= 99 && r.value.secs <= 99
  {
    if LongAt(s, i) then
      assert s[i..i + 2] == [s[i], s[i + 1]];
      assert s[i + 3..i + 5] == [s[i + 3], s[i + 4]];
      NumberOfTwo(s[i], s[i + 1]);
      NumberOfTwo(s[i + 3], s[i + 4]);
      Some(Stamp(i, 5, 10 * DigitValue(s[i]) + DigitValue(s[i + 1]), 10 * DigitValue(s[i + 3]) + DigitValue(s[i + 4])))
    else if ShortAt(s, i) then
      assert s[i..i + 1] == [s[i]];
      assert s[i + 2..i + 4] == [s[i + 2], s[i + 3]];
      NumberOfOne(s[i]);
      NumberOfTwo(s[i + 2], s[i + 3]);
      Some(Stamp(i, 4, DigitValue(s[i]), 10 * DigitValue(s[i + 2]) + DigitValue(s[i + 3])))
    else
      None
  }

  /** No match of the pattern starts anywhere in `[lo, hi)`. */
  ghost predicate NoMatchIn(s: string, lo: nat, hi: nat)
  {
    forall j :: lo <= j < hi ==> MatchAt(s, j).None?
  }

  /** The matches found scanning from position `i`, as `re.findall` does. */
  function ScanFrom(s: string, i: nat): seq<Stamp>
    requires i <= |s|
    decreases |s| - i
  {
    if i == |s| then []
    else
      match MatchAt(s, i)
      case Some(m) => [m] + ScanFrom(s, i + m.len)
      case None => ScanFrom(s, i + 1)
  }

  /** All matches in the text. */
  function FindAll(s: string): seq<Stamp>
  {
    ScanFrom(s, 0)
  }

  /** The scan from `i` finds genuine matches, none before `i`. */
  lemma {:induction false} ScanFromFindsMatches(s: string, i: nat)
    requires i <= |s|
    ensures forall k :: 0 <= k < |ScanFrom(s, i)| ==> i <= ScanFrom(s, i)[k].at
    ensures forall k :: 0 <= k < |ScanFrom(s, i)| ==> MatchAt(s, ScanFrom(s, i)[k].at) == Some(ScanFrom(s, i)[k])
    decreases |s| - i
  {
    if i < |s| {
      match MatchAt(s, i)
      case Some(m) =>
        ScanFromFindsMatches(s, i + m.len);
        var rest := ScanFrom(s, i + m.len);
        var r := [m] + rest;
        assert ScanFrom(s, i) == r;
        forall k | 0 <= k < |r| ensures i <= r[k].at && MatchAt(s, r[k].at) == Some(r[k]) {
          if k > 0 { assert r[k] == rest[k - 1]; }
        }
      case None =>
        ScanFromFindsMatches(s, i + 1);
    }
  }

  /** The matches found are in order and do not overlap. */
  lemma {:induction false} ScanFromDoesNotOverlap(s: string, i: nat)
    requires i <= |s|
    ensures forall k :: 0 <= k < |ScanFrom(s, i)| - 1 ==>
              ScanFrom(s, i)[k].at + ScanFrom(s, i)[k].len <= ScanFrom(s, i)[k + 1].at
    decreases |s| - i
  {
    if i < |s| {
      match MatchAt(s, i)
      case Some(m) =>
        ScanFromDoesNotOverlap(s, i + m.len);
        ScanFromFindsMatches(s, i + m.len);
        var rest := ScanFrom(s, i + m.len);
        var r := [m] + rest;
        assert ScanFrom(s, i) == r;
        forall k | 0 <= k < |r| - 1 ensures r[k].at + r[k].len <= r[k + 1].at {
          assert r[k + 1] == rest[k];
          if k > 0 { assert r[k] == rest[k - 1]; }
        }
      case None =>
        ScanFromDoesNotOverlap(s, i + 1);
    }
  }

  /** No match starts between `i` and the first match found, or the end when there is none. */
  lemma {:induction false} ScanFromSkipsNothingFirst(s: string, i: nat)
    requires i <= |s|
    ensures NoMatchIn(s, i, if ScanFrom(s, i) == [] then |s| else ScanFrom(s, i)[0].at)
    decreases |s| - i
  {
    if i < |s| {
      match MatchAt(s, i)
      case Some(m) =>
        assert ScanFrom(s, i)[0] == m;
      case None =>
        ScanFromSkipsNothingFirst(s, i + 1);
        assert ScanFrom(s, i) == ScanFrom(s, i + 1);
    }
  }

  /** Where the text after the `k`-th match ends: the next match's start, or the end of `s`. */
  function NextStart(s: string, r: seq<Stamp>, k: nat): int
    requires k < |r|
  {
    if k + 1 < |r| then r[k + 1].at else |s|
  }

  /** No match starts between the end of a match in `r` and the next one, or the end of the text. */
  ghost predicate GapsClear(s: string, r: seq<Stamp>)
  {
    forall k :: 0 <= k < |r| ==> NoMatchIn(s, r[k].at + r[k].len, NextStart(s, r, k))
  }

  /** Putting a match in front keeps the gaps clear when the gap after it is clear. */
  lemma GapsClearCons(s: string, m: Stamp, rest: seq<Stamp>)
    requires NoMatchIn(s, m.at + m.len, if rest == [] then |s| else rest[0].at)
    requires GapsClear(s, rest)
    ensures GapsClear(s, [m] + rest)
  {
    var r := [m] + rest;
    forall k | 0 <= k < |r| ensures NoMatchIn(s, r[k].at + r[k].len, NextStart(s, r, k)) {
      if k > 0 {
        assert r[k] == rest[k - 1];
        assert NextStart(s, r, k) == NextStart(s, rest, k - 1);
      }
    }
  }

  /** No match starts between the end of a found match and the next one, or the end of the text. */
  lemma {:induction false} ScanFromSkipsNothingAfter(s: string, i: nat)
    requires i <= |s|
    ensures GapsClear(s, ScanFrom(s, i))
    decreases |s| - i
  {
    if i < |s| {
      match MatchAt(s, i)
      case Some(m) =>
        ScanFromSkipsNothingAfter(s, i + m.len);
        ScanFromSkipsNothingFirst(s, i + m.len);
        GapsClearCons(s, m, ScanFrom(s, i + m.len));
        assert ScanFrom(s, i) == [m] + ScanFrom(s, i + m.len);
      case None =>
        ScanFromSkipsNothingAfter(s, i + 1);
        assert ScanFrom(s, i) == ScanFrom(s, i + 1);
    }
  }

  /**
   * `re.findall` semantics: the matches found are genuine, in order and
   * without overlap, and no position where a match could start is skipped,
   * before the first match, between consecutive matches or after the last.
   */
  lemma FindAllIsLeftmostNonOverlapping(s: string)
    ensures forall k :: 0 <= k < |FindAll(s)| ==> MatchAt(s, FindAll(s)[k].at) == Some(FindAll(s)[k])
    ensures forall k :: 0 <= k < |FindAll(s)| - 1 ==> FindAll(s)[k].at + FindAll(s)[k].len <= FindAll(s)[k + 1].at
    ensures NoMatchIn(s, 0, if FindAll(s) == [] then |s| else FindAll(s)[0].at)
    ensures GapsClear(s, FindAll(s))
  {
    ScanFromFindsMatches(s, 0);
    ScanFromDoesNotOverlap(s, 0);
    ScanFromSkipsNothingFirst(s, 0);
    ScanFromSkipsNothingAfter(s, 0);
  }

  /** Every element of `FindAll` is a match at its own position. */
  lemma FoundStampsAreMatches(s: string, k: nat)
    requires k < |FindAll(s)|
    ensures MatchAt(s, FindAll(s)[k].at) == Some(FindAll(s)[k])
  {
    ScanFromFindsMatches(s, 0);
  }

  /** A timestamp as centiseconds: `(mins * 60 + secs)` seconds. */
  function Centis(m: Stamp): int
  {
    (m.mins * 60 + m.secs) * 100
  }

  /** The largest value a match can denote: 99:99. */
  const MaxStampCentis: int := (99 * 60 + 99) * 100

  /** The timestamps of a list of matches, in order. */
  function StampTimes(ms: seq<Stamp>): (ts: seq<int>)
    ensures |ts| == |ms|
    ensures forall k :: 0 <= k < |ms| ==> ts[k] == Centis(ms[k])
  {
    if ms == [] then [] else [Centis(ms[0])] + StampTimes(ms[1..])
  }

  /** The boundaries for a description and the end of the last caption fragment. */
  function Boundaries(description: string, videoEnd: int): (r: seq<int>)
    ensures |FindAll(description)| <= |r| <= |FindAll(description)| + 1
    ensures r != [] ==> r[|r| - 1] == videoEnd
  {
    var all := StampTimes(FindAll(description)) + [videoEnd];
    if all[0] == 0 then all[1..] else all
  }

  /**
   * The parsing part of `_get_timestamps`. An empty fragment list has no
   * last fragment, where the source raises `IndexError`; that is `None` here.
   */
  method GetTimestamps(description: string, subs: seq<Fragment>) returns (r: Option<seq<int>>)
    ensures r.None? <==> subs == []
    ensures r.Some? ==> r.value == Boundaries(description, FragmentEnd(subs[|subs| - 1]))
  {
    var timestamps := FindAll(description);
    var startSeconds: seq<int> := [];
    for k := 0 to |timestamps|
      invariant |startSeconds| == k
      invariant forall j :: 0 <= j < k ==> startSeconds[j] == Centis(timestamps[j])
    {
      var timestamp := timestamps[k];
      startSeconds := startSeconds + [(timestamp.mins * 60 + timestamp.secs) * 100];
    }
    if subs == [] {
      return None;
    }
    var last := subs[|subs| - 1];
    startSeconds := startSeconds + [last.start + last.duration];
    assert startSeconds == StampTimes(timestamps) + [FragmentEnd(last)];
    if startSeconds[0] == 0 {
      return Some(startSeconds[1..]);
    }
    return Some(startSeconds);
  }

  /** The first candidate boundary, before the drop rule, is 0. */
  predicate StartsAtZero(description: string, videoEnd: int)
  {
    if FindAll(description) == [] then videoEnd == 0 else Centis(FindAll(description)[0]) == 0
  }

  /**
   * The boundaries are the matched timestamps, each at most 99:99, followed
   * by the video's end; the first of these is dropped exactly when it is 0.
   */
  lemma BoundariesAreStampsThenEnd(description: string, videoEnd: int)
    ensures |Boundaries(description, videoEnd)| ==
            |FindAll(description)| + (if StartsAtZero(description, videoEnd) then 0 else 1)
    ensures Boundaries(description, videoEnd) != [] ==>
            Boundaries(description, videoEnd)[|Boundaries(description, videoEnd)| - 1] == videoEnd
    ensures forall k :: 0 <= k < |Boundaries(description, videoEnd)| - 1 ==>
              Boundaries(description, videoEnd)[k] ==
              Centis(FindAll(description)[k + if StartsAtZero(description, videoEnd) then 1 else 0])
    ensures forall k :: 0 <= k < |Boundaries(description, videoEnd)| - 1 ==>
              0 <= Boundaries(description, videoEnd)[k] <= MaxStampCentis
  {
    var ms := FindAll(description);
    var all := StampTimes(ms) + [videoEnd];
    var b := Boundaries(description, videoEnd);
    assert all[0] == 0 <==> StartsAtZero(description, videoEnd);
    forall k | 0 <= k < |ms| ensures 0 <= Centis(ms[k]) <= MaxStampCentis {
      FoundStampsAreMatches(description, k);
    }
    if all[0] == 0 {
      assert b == all[1..];
      forall k | 0 <= k < |b| - 1 ensures b[k] == Centis(ms[k + 1]) {
        assert b[k] == all[k + 1];
      }
    } else {
      assert b == all;
    }
  }

  /** Greedy minutes and leftmost start: `123:45` holds the match `23:45`. */
  lemma LeadingDigitSkippedExample()
    ensures FindAll("123:45") == [Stamp(1, 5, 23, 45)]
  {
    var s := "123:45";
    assert MatchAt(s, 0) == None;
    assert MatchAt(s, 1) == Some(Stamp(1, 5, 23, 45));
    assert ScanFrom(s, 6) == [];
  }

  /** Two second digits only: `1:234` holds the match `1:23`. */
  lemma TrailingDigitIgnoredExample()
    ensures FindAll("1:234") == [Stamp(0, 4, 1, 23)]
  {
    var s := "1:234";
    assert MatchAt(s, 0) == Some(Stamp(0, 4, 1, 23));
    assert MatchAt(s, 4) == None;
    assert ScanFrom(s, 5) == [];
  }

  /** A chapter list starting at 0:00 loses its first boundary. */
  lemma LeadingZeroDroppedExample()
    ensures Boundaries("0:00 a 5:30 b", 60000) == [33000, 60000]
  {
    var s := "0:00 a 5:30 b";
    assert MatchAt(s, 0) == Some(Stamp(0, 4, 0, 0));
    assert MatchAt(s, 4).None? && MatchAt(s, 5).None? && MatchAt(s, 6).None?;
    assert MatchAt(s, 7) == Some(Stamp(7, 4, 5, 30));
    assert MatchAt(s, 11).None? && MatchAt(s, 12).None?;
    assert ScanFrom(s, 13) == [];
    assert FindAll(s) == [Stamp(0, 4, 0, 0), Stamp(7, 4, 5, 30)];
  }
}
