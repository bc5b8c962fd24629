/**
 * The final cleanup of a generated transcript: strip `_`, `-` and space from
 * both ends, then delete every `(…) ` annotation, where the parenthesised
 * part is matched lazily and never crosses a line break.
 */
module Cleanup {
  import opened Wrappers

  /** The characters stripped from both ends. */
  predicate IsJunk(c: char)
  {
    c == '_' || c == '-' || c == ' '
  }

  /** The index of the first non-junk character at or after `i`, or `|s|`. */
  function FirstKept(s: string, i: nat): (n: nat)
    requires i <= |s|
    ensures i <= n <= |s|
    ensures forall k :: i <= k < n ==> IsJunk(s[k])
    ensures n == |s| || !IsJunk(s[n])
    decreases |s| - i
  {
    if i < |s| && IsJunk(s[i]) then FirstKept(s, i + 1) else i
  }

  /** The index just past the last non-junk character before `j`, but not below `lo`. */
  function EndKept(s: string, lo: nat, j: nat): (m: nat)
    requires lo <= j <= |s|
    ensures lo <= m <= j
    ensures forall k :: m <= k < j ==> IsJunk(s[k])
    ensures m == lo || !IsJunk(s[m - 1])
    decreases j
  {
    if j > lo && IsJunk(s[j - 1]) then EndKept(s, lo, j - 1) else j
  }

  /**
   * `r` is the part of `s` from index `i` on whose cut-off parts, on both
   * sides, are all junk.
   */
  ghost predicate TrimmedAt(s: string, r: string, i: int)
  {
    && 0 <= i && i + |r| <= |s| && r == s[i..i + |r|]
    && (forall k :: 0 <= k < i ==> IsJunk(s[k]))
    && (forall k :: i + |r| <= k < |s| ==> IsJunk(s[k]))
  }

  /**
   * `str.strip("_- ")`: the result is a contiguous part of the input that
   * neither begins nor ends with a junk character, and everything cut off
   * on either side is junk.
   */
  function Strip(s: string): (r: string)
    ensures r == [] || (!IsJunk(r[0]) && !IsJunk(r[|r| - 1]))
    ensures exists i :: TrimmedAt(s, r, i)
  {
    var i := FirstKept(s, 0);
    var j := EndKept(s, i, |s|);
    assert TrimmedAt(s, s[i..j], i);
    s[i..j]
  }

  /** A complete match of `\(.*?\) `: `(`, any characters but line breaks, `) `. */
  predicate IsAnnotation(t: string)
  {
    |t| >= 3 && t[0] == '(' && t[|t| - 2] == ')' && t[|t| - 1] == ' ' && '\n' !in t[1..|t| - 2]
  }

  /**
   * The lazy scan for the closing `) ` from position `k`: the end of the
   * first `) ` reached before any line break.
   */
  function CloseFrom(s: string, k: nat): (r: Option<nat>)
    requires 1 <= k <= |s|
    ensures r.Some? ==> k + 2 <= r.value <= |s| && s[r.value - 2] == ')' && s[r.value - 1] == ' '
    ensures r.Some? ==> forall j :: k <= j < r.value - 2 ==> s[j] != '\n' && !(s[j] == ')' && s[j + 1] == ' ')
    ensures r.None? ==> forall j :: k <= j < |s| - 1 && s[j] == ')' && s[j + 1] == ' ' ==> '\n' in s[k..j]
    decreases |s| - k
  {
    if k + 1 >= |s| then None
    else if s[k] == ')' && s[k + 1] == ' ' then Some(k + 2)
    else if s[k] == '\n' then None
    else CloseFrom(s, k + 1)
  }

  /** The inner part of an annotation candidate is a slice of `s` itself. */
  lemma AnnotationInnerSlices(s: string)
    ensures forall m :: 3 <= m <= |s| ==> s[..m][1..m - 2] == s[1..m - 2]
  {
  }

  /** The length of the shortest annotation at the start of `s`, if there is one. */
  function AnnotationAt(s: string): (r: Option<nat>)
    ensures r.Some? ==> r.value <= |s| && IsAnnotation(s[..r.value])
    ensures r.Some? ==> forall m :: 0 <= m < r.value ==> !IsAnnotation(s[..m])
    ensures r.None? ==> forall m :: 0 <= m <= |s| ==> !IsAnnotation(s[..m])
  {
    if s != [] && s[0] == '(' then
      AnnotationInnerSlices(s);
      CloseFrom(s, 1)
    else
      None
  }

  /** From `k` on, every `) ` of `s` comes after a line break. */
  ghost predicate OpenFrom(s: string, k: nat)
  {
    forall j :: k <= j < |s| - 1 && s[j] == ')' && s[j + 1] == ' ' ==> '\n' in s[k..j]
  }

  /** Where every later `) ` lies past a line break, the lazy scan finds no close. */
  lemma {:induction false} OpenFromNoClose(s: string, k: nat)
    requires 1 <= k <= |s| && OpenFrom(s, k)
    ensures CloseFrom(s, k).None?
    decreases |s| - k
  {
    if k + 1 < |s| {
      assert s[k..k] == [];
      if s[k] != '\n' {
        forall j | k + 1 <= j < |s| - 1 && s[j] == ')' && s[j + 1] == ' '
          ensures '\n' in s[k + 1..j]
        {
          assert '\n' in s[k..j];
          assert s[k..j] == [s[k]] + s[k + 1..j];
        }
        OpenFromNoClose(s, k + 1);
      }
    }
  }

  /** Being open from the second character is being open from the start of the tail. */
  lemma OpenFromTail(s: string)
    requires s != []
    ensures OpenFrom(s, 1) <==> OpenFrom(s[1..], 0)
  {
    var t := s[1..];
    forall j | 0 <= j < |t| ensures t[j] == s[j + 1] && t[0..j] == s[1..j + 1] {}
    if OpenFrom(s, 1) {
      forall j | 0 <= j < |t| - 1 && t[j] == ')' && t[j + 1] == ' ' ensures '\n' in t[0..j] {
        assert '\n' in s[1..j + 1];
      }
    }
    if OpenFrom(t, 0) {
      forall j | 1 <= j < |s| - 1 && s[j] == ')' && s[j + 1] == ' ' ensures '\n' in s[1..j] {
        assert t[j - 1] == ')' && t[j] == ' ';
        assert '\n' in t[0..j - 1];
      }
    }
  }

  /** No annotation starts where every `) ` lies past a line break. */
  lemma OpenNoAnnotation(t: string)
    ensures OpenFrom(t, 0) ==> AnnotationAt(t).None?
  {
    if t != [] && t[0] == '(' && OpenFrom(t, 0) {
      forall j | 1 <= j < |t| - 1 && t[j] == ')' && t[j + 1] == ' ' ensures '\n' in t[1..j] {
        assert '\n' in t[0..j];
        assert t[0..j] == [t[0]] + t[1..j];
      }
      OpenFromNoClose(t, 1);
    }
  }

  /**
   * Keeping a character where no annotation starts, in front of a removal
   * result `rest` of the tail, keeps both facts the removal promises: no
   * annotation starts anywhere, and openness carries over.
   */
  lemma KeptHead(s: string, rest: string)
    requires s != [] && AnnotationAt(s).None? && |rest| <= |s| - 1
    requires |s| > 1 && AnnotationAt(s[1..]).None? ==> rest != [] && rest[0] == s[1]
    requires OpenFrom(s[1..], 0) ==> OpenFrom(rest, 0)
    requires forall i :: 0 <= i <= |rest| ==> AnnotationAt(rest[i..]).None?
    ensures OpenFrom(s, 0) ==> OpenFrom([s[0]] + rest, 0)
    ensures forall i :: 0 <= i <= |rest| + 1 ==> AnnotationAt(([s[0]] + rest)[i..]).None?
  {
    var r := [s[0]] + rest;
    if OpenFrom(s, 0) {
      if s[0] == '\n' {
        forall j | 0 <= j < |r| - 1 && r[j] == ')' && r[j + 1] == ' ' ensures '\n' in r[0..j] {
          assert r[0..j][0] == '\n';
        }
      } else {
        forall j | 0 <= j < |s| - 2 && s[1..][j] == ')' && s[1..][j + 1] == ' ' ensures '\n' in s[1..][0..j] {
          assert '\n' in s[0..j + 1];
          assert s[0..j + 1] == [s[0]] + s[1..][0..j];
        }
        assert OpenFrom(s[1..], 0);
        OpenNoAnnotation(s[1..]);
        assert !(s[0] == ')' && |s| > 1 && s[1] == ' ') by {
          assert s[0..0] == [];
        }
        forall j | 0 <= j < |r| - 1 && r[j] == ')' && r[j + 1] == ' ' ensures '\n' in r[0..j] {
          if j > 0 {
            assert rest[j - 1] == ')' && rest[j] == ' ';
            assert '\n' in rest[0..j - 1];
            assert r[0..j] == [s[0]] + rest[0..j - 1];
          }
        }
      }
    }
    forall i | 0 <= i <= |r| ensures AnnotationAt(r[i..]).None? {
      if i > 0 {
        assert r[i..] == rest[i - 1..];
      } else if s[0] == '(' {
        assert CloseFrom(s, 1).None?;
        OpenFromTail(s);
        assert r[1..] == rest;
        OpenFromTail(r);
        OpenFromNoClose(r, 1);
      }
    }
  }

  /**
   * `re.sub(r"\(.*?\) ", "", s)`: every annotation found left to right is
   * deleted. A character where no annotation starts is kept, and no
   * annotation starts anywhere in the result.
   */
  function RemoveAnnotations(s: string): (r: string)
    ensures |r| <= |s|
    ensures s != [] && AnnotationAt(s).None? ==> r != [] && r[0] == s[0]
    ensures OpenFrom(s, 0) ==> OpenFrom(r, 0)
    ensures forall i :: 0 <= i <= |r| ==> AnnotationAt(r[i..]).None?
    decreases |s|
  {
    if s == [] then []
    else
      match AnnotationAt(s)
      case Some(n) =>
        OpenNoAnnotation(s);
        RemoveAnnotations(s[n..])
      case None =>
        var rest := RemoveAnnotations(s[1..]);
        KeptHead(s, rest);
        [s[0]] + rest
  }

  /** The full cleanup of `_generate_text`. */
  function Clean(s: string): (r: string)
    ensures |r| <= |s|
    ensures forall i :: 0 <= i <= |r| ==> AnnotationAt(r[i..]).None?
  {
    RemoveAnnotations(Strip(s))
  }

  /** Text without an opening parenthesis has no annotation to remove. */
  lemma {:induction false} NoParenthesisUnchanged(s: string)
    requires '(' !in s
    ensures RemoveAnnotations(s) == s
  {
    if s != [] {
      assert AnnotationAt(s).None?;
      NoParenthesisUnchanged(s[1..]);
      assert [s[0]] + s[1..] == s;
    }
  }

  /** An annotation holds no line break. */
  lemma AnnotationHasNoLineBreak(a: string)
    requires IsAnnotation(a)
    ensures multiset(a)['\n'] == 0
  {
    var n := |a|;
    assert a == [a[0]] + a[1..n - 2] + a[n - 2..];
    assert multiset(a) == multiset([a[0]]) + multiset(a[1..n - 2]) + multiset(a[n - 2..]);
    assert a[n - 2..] == [')', ' '];
  }

  /** Cutting an annotation off the front of `s` loses no line break. */
  lemma AnnotationCutKeepsLineBreaks(s: string, n: nat)
    requires n <= |s| && IsAnnotation(s[..n])
    ensures multiset(s)['\n'] == multiset(s[n..])['\n']
  {
    AnnotationHasNoLineBreak(s[..n]);
    assert s == s[..n] + s[n..];
    assert multiset(s) == multiset(s[..n]) + multiset(s[n..]);
  }

  /** The line breaks of `s` are those of its first character and of the rest. */
  lemma HeadLineBreaks(s: string)
    requires s != []
    ensures multiset(s)['\n'] == multiset([s[0]])['\n'] + multiset(s[1..])['\n']
  {
    assert s == [s[0]] + s[1..];
    assert multiset(s) == multiset([s[0]]) + multiset(s[1..]);
  }

  /** Annotations never span a line break, so removing them keeps every line break. */
  lemma {:induction false} LineBreaksKept(s: string)
    ensures multiset(RemoveAnnotations(s))['\n'] == multiset(s)['\n']
    decreases |s|
  {
    if s != [] {
      match AnnotationAt(s)
      case Some(n) =>
        LineBreaksKept(s[n..]);
        AnnotationCutKeepsLineBreaks(s, n);
      case None =>
        LineBreaksKept(s[1..]);
        HeadLineBreaks(s);
        HeadLineBreaks([s[0]] + RemoveAnnotations(s[1..]));
        assert ([s[0]] + RemoveAnnotations(s[1..]))[1..] == RemoveAnnotations(s[1..]);
    }
  }

  /** The annotation at the front of `"(ha) x"` is removed with its space. */
  lemma AnnotationAtFrontRemoved()
    ensures RemoveAnnotations("(ha) x") == "x"
  {
    var t := "(ha) x";
    assert CloseFrom(t, 1) == Some(5);
    assert AnnotationAt(t) == Some(5);
    assert t[5..] == "x";
    NoParenthesisUnchanged("x");
  }

  /** A character other than `(` is kept and the removal goes on after it. */
  lemma KeepsNonParenthesis(s: string)
    requires s != [] && s[0] != '('
    ensures RemoveAnnotations(s) == [s[0]] + RemoveAnnotations(s[1..])
  {
    assert AnnotationAt(s) == None;
  }

  /** A laugh annotation disappears with the space after it. */
  lemma LaughRemovedExample()
    ensures RemoveAnnotations("Hi (ha) x") == "Hi x"
  {
    AnnotationAtFrontRemoved();
    KeepsNonParenthesis(" (ha) x");
    assert " (ha) x"[1..] == "(ha) x";
    KeepsNonParenthesis("i (ha) x");
    assert "i (ha) x"[1..] == " (ha) x";
    KeepsNonParenthesis("Hi (ha) x");
    assert "Hi (ha) x"[1..] == "i (ha) x";
    assert ['H'] + (['i'] + ([' '] + "x")) == "Hi x";
  }

  /** Stripping the first example's input removes only its leading dash. */
  lemma StripLeadingDashExample()
    ensures Strip("-(x) -b") == "(x) -b"
  {
    var s := "-(x) -b";
    assert FirstKept(s, 1) == 1;
    assert FirstKept(s, 0) == 1;
    assert EndKept(s, 1, |s|) == |s|;
  }

  /** Stripping `"-b"` removes its dash. */
  lemma StripDashExample()
    ensures Strip("-b") == "b"
  {
    var s := "-b";
    assert FirstKept(s, 1) == 1;
    assert FirstKept(s, 0) == 1;
    assert EndKept(s, 1, 2) == 2;
  }

  /** The annotation in front of `"-b"` is removed with its space. */
  lemma AnnotationBeforeDashRemoved()
    ensures RemoveAnnotations("(x) -b") == "-b"
  {
    var t := "(x) -b";
    assert CloseFrom(t, 1) == Some(4);
    assert AnnotationAt(t) == Some(4);
    assert t[4..] == "-b";
    NoParenthesisUnchanged("-b");
  }

  /**
   * The cleanup is not idempotent: removing `(x) ` can expose a junk
   * character that only a second strip removes.
   */
  lemma CleanNotIdempotent()
    ensures Clean("-(x) -b") == "-b"
    ensures Clean("-b") == "b"
  {
    StripLeadingDashExample();
    AnnotationBeforeDashRemoved();
    StripDashExample();
    NoParenthesisUnchanged("b");
  }
}
