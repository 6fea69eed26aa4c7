// The sentence split of TTSHelper.splitTextIntoChunks: the text is cut by the
// regular expression `(?<=\.)`, an empty match right after every '.', and
// Kotlin's Regex.split keeps every piece, the empty ones included.
module Sentences {
  import opened Lists

  /** A piece that ends a sentence: it ends in '.' and holds no other '.'. */
  predicate IsSentence(p: string)
  {
    |p| >= 1 && p[|p| - 1] == '.' && '.' !in p[..|p| - 1]
  }

  /** `ps` cuts `s` right after each '.' and nowhere else. */
  predicate IsDotSplit(s: string, ps: seq<string>)
  {
    |ps| >= 1 &&
    Concat(ps) == s &&
    (forall i :: 0 <= i < |ps| - 1 ==> IsSentence(ps[i])) &&
    '.' !in ps[|ps| - 1]
  }

  /**
   * The pieces of `s`, as `s.split(Regex("(?<=\\.)"))` returns them: one
   * more piece than `s` has dots, the '.' kept at the end of the piece it
   * closes, and a last piece (empty when `s` ends in '.') after the last dot.
   */
  function SplitAfterDots(s: string): (ps: seq<string>)
    ensures IsDotSplit(s, ps)
    decreases |s|
  {
    if s == [] then [""]
    else
      var init := SplitAfterDots(s[..|s| - 1]);
      var last := init[|init| - 1];
      var c := s[|s| - 1];
      assert s == s[..|s| - 1] + [c];
      assert init == init[..|init| - 1] + [last];
      if c == '.' then
        var ps := init[..|init| - 1] + [last + "."] + [""];
        assert ps[..|ps| - 1] == init[..|init| - 1] + [last + "."];
        assert (last + ".")[..|last|] == last;
        ps
      else
        var ps := init[..|init| - 1] + [last + [c]];
        assert ps[..|ps| - 1] == init[..|init| - 1];
        ps
  }

  /** The split is the only list of pieces with the shape IsDotSplit describes. */
  lemma {:induction false} DotSplitUnique(s: string, ps: seq<string>)
    requires IsDotSplit(s, ps)
    ensures ps == SplitAfterDots(s)
    decreases |s|
  {
    var n := |ps|;
    var last := ps[n - 1];
    if s == [] {
      PieceWithinConcat(ps, 0);
      assert n == 1;
    } else if last != [] {
      DropLastChar(s, ps);
      DotSplitUnique(s[..|s| - 1], ps[..n - 1] + [last[..|last| - 1]]);
      ExtendByChar(s, ps);
    } else {
      var p := ps[n - 2];
      DropLastDot(s, ps);
      DotSplitUnique(s[..|s| - 1], ps[..n - 2] + [p[..|p| - 1]]);
      ExtendByDot(s, ps);
    }
  }

  lemma ExtendByChar(s: string, ps: seq<string>)
    requires s != [] && |ps| >= 1 && ps[|ps| - 1] != []
    requires s[|s| - 1] == ps[|ps| - 1][|ps[|ps| - 1]| - 1] != '.'
    requires var last := ps[|ps| - 1];
      SplitAfterDots(s[..|s| - 1]) == ps[..|ps| - 1] + [last[..|last| - 1]]
    ensures ps == SplitAfterDots(s)
  {
    var n := |ps|;
    var last := ps[n - 1];
    var init := SplitAfterDots(s[..|s| - 1]);
    assert init[..n - 1] == ps[..n - 1] && init[n - 1] == last[..|last| - 1];
    assert SplitAfterDots(s) == init[..n - 1] + [init[n - 1] + [s[|s| - 1]]];
    SplitLast(last);
    SplitLast(ps);
  }

  lemma ExtendByDot(s: string, ps: seq<string>)
    requires s != [] && s[|s| - 1] == '.'
    requires |ps| >= 2 && ps[|ps| - 1] == [] && IsSentence(ps[|ps| - 2])
    requires var p := ps[|ps| - 2];
      SplitAfterDots(s[..|s| - 1]) == ps[..|ps| - 2] + [p[..|p| - 1]]
    ensures ps == SplitAfterDots(s)
  {
    var n := |ps|;
    var p := ps[n - 2];
    var init := SplitAfterDots(s[..|s| - 1]);
    SnocSentence(ps);
    assert init[..n - 2] == ps[..n - 2] && init[n - 2] == p[..|p| - 1];
  }

  lemma SnocSentence(ps: seq<string>)
    requires |ps| >= 2 && ps[|ps| - 1] == [] && IsSentence(ps[|ps| - 2])
    ensures var n, p := |ps|, ps[|ps| - 2];
      ps == ps[..n - 2] + [p[..|p| - 1] + "."] + [""]
  {
    var n := |ps|;
    var p := ps[n - 2];
    SplitLast(p);
    SplitLast(ps);
    SplitLast(ps[..n - 1]);
    assert ps[..n - 1][..n - 2] == ps[..n - 2];
  }

  lemma {:induction false} PieceWithinConcat(ps: seq<string>, i: nat)
    requires i < |ps|
    ensures |ps[i]| <= |Concat(ps)|
  {
    ConcatAppend(ps[..i], ps[i..]);
    assert ps == ps[..i] + ps[i..];
    ConcatAppend([ps[i]], ps[i + 1..]);
    assert ps[i..] == [ps[i]] + ps[i + 1..];
    assert Concat([ps[i]]) == Concat([]) + ps[i];
  }

  /** Removing the last character of `s` when it is not a dot. */
  lemma DropLastChar(s: string, ps: seq<string>)
    requires IsDotSplit(s, ps) && ps[|ps| - 1] != []
    ensures s != []
    ensures var last := ps[|ps| - 1];
      IsDotSplit(s[..|s| - 1], ps[..|ps| - 1] + [last[..|last| - 1]]) &&
      s[|s| - 1] == last[|last| - 1] != '.'
  {
    var n := |ps|;
    var last := ps[n - 1];
    var ps' := ps[..n - 1] + [last[..|last| - 1]];
    assert last == last[..|last| - 1] + [last[|last| - 1]];
    assert last[|last| - 1] in last;
    assert Concat(ps) == Concat(ps[..n - 1]) + last by {
      assert ps == ps[..n - 1] + [last];
    }
    assert ps'[..n - 1] == ps[..n - 1];
    assert Concat(ps') == Concat(ps[..n - 1]) + last[..|last| - 1];
    forall i | 0 <= i < n - 1 ensures IsSentence(ps'[i]) {
      assert ps'[i] == ps[i];
    }
  }

  /** Removing the last character of `s` when it is a dot. */
  lemma DropLastDot(s: string, ps: seq<string>)
    requires IsDotSplit(s, ps) && |ps| >= 2 && ps[|ps| - 1] == []
    ensures s != [] && s[|s| - 1] == '.' && IsSentence(ps[|ps| - 2])
    ensures var p := ps[|ps| - 2];
      IsDotSplit(s[..|s| - 1], ps[..|ps| - 2] + [p[..|p| - 1]])
  {
    var n := |ps|;
    var p := ps[n - 2];
    assert IsSentence(p);
    var ps' := ps[..n - 2] + [p[..|p| - 1]];
    assert Concat(ps) == Concat(ps[..n - 2]) + p by {
      assert ps == ps[..n - 2] + [p] + [[]];
      assert ps[..n - 1] == ps[..n - 2] + [p];
    }
    assert p == p[..|p| - 1] + ".";
    assert ps'[..n - 2] == ps[..n - 2];
    assert Concat(ps') == Concat(ps[..n - 2]) + p[..|p| - 1];
    forall i | 0 <= i < n - 2 ensures IsSentence(ps'[i]) {
      assert ps'[i] == ps[i];
    }
  }
}
