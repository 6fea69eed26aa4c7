// The packing loop of TTSHelper.splitTextIntoChunks. The pieces produced by
// the sentence split are packed, in order, into chunks: every piece is
// followed by one space, and the current chunk is closed just before a piece
// that would take `chunk length + piece length` past the limit. A group is
// the list of pieces one chunk is made of.
module Chunking {
  import opened Lists
  import opened Sentences

  /** The text of a chunk made of the pieces `g`: each piece followed by " ". */
  function Spaced(g: seq<string>): string
    decreases |g|
  {
    if g == [] then "" else Spaced(g[..|g| - 1]) + g[|g| - 1] + " "
  }

  /** The length of `Spaced(g)`: one more than each piece's length, summed. */
  function Width(g: seq<string>): int
    decreases |g|
  {
    if g == [] then 0 else Width(g[..|g| - 1]) + |g[|g| - 1]| + 1
  }

  lemma {:induction false} SpacedShape(g: seq<string>)
    ensures |Spaced(g)| == Width(g)
    ensures g == [] <==> Spaced(g) == []
    ensures g != [] ==> Spaced(g)[|Spaced(g)| - 1] == ' '
    decreases |g|
  {
    if g != [] {
      SpacedShape(g[..|g| - 1]);
    }
  }

  /** All the pieces of all the groups, in order. */
  function Flatten(G: seq<seq<string>>): seq<string>
    decreases |G|
  {
    if G == [] then [] else Flatten(G[..|G| - 1]) + G[|G| - 1]
  }

  /** The chunk texts of a grouping. */
  function Render(G: seq<seq<string>>): seq<string>
  {
    seq(|G|, i requires 0 <= i < |G| => Spaced(G[i]))
  }

  /**
   * The groups after the loop has run over the pieces `ps`. The last group is
   * the chunk still being built (`currentChunk`); all the others have been
   * added to `chunks`. It starts as one empty group, and each piece either
   * closes the current group and starts a new one, or joins it.
   */
  function Groups(ps: seq<string>, limit: int): (G: seq<seq<string>>)
    ensures |G| >= 1
    ensures forall i :: 1 <= i < |G| ==> G[i] != []
    ensures ps != [] ==> G[|G| - 1] != []
    decreases |ps|
  {
    if ps == [] then [[]]
    else
      var G0 := Groups(ps[..|ps| - 1], limit);
      var cur := G0[|G0| - 1];
      var p := ps[|ps| - 1];
      if Width(cur) + |p| > limit then G0 + [[p]]
      else G0[..|G0| - 1] + [cur + [p]]
  }

  /** Nothing is dropped or reordered: the groups hold exactly the pieces, in order. */
  lemma {:induction false} GroupsKeepPieces(ps: seq<string>, limit: int)
    ensures Flatten(Groups(ps, limit)) == ps
    decreases |ps|
  {
    if ps != [] {
      var ps' := ps[..|ps| - 1];
      var G0 := Groups(ps', limit);
      var k := |G0| - 1;
      var cur := G0[k];
      var p := ps[|ps| - 1];
      GroupsKeepPieces(ps', limit);
      SplitLast(ps);
      SplitLast(G0);
      if Width(cur) + |p| > limit {
        InitOfSnoc(G0, [p]);
      } else {
        InitOfSnoc(G0[..k], cur + [p]);
      }
    }
  }

  /**
   * The first group is empty exactly when there are no pieces or the first
   * piece alone is over the limit: the check runs while the chunk is empty.
   */
  lemma {:induction false} FirstGroupEmpty(ps: seq<string>, limit: int)
    ensures Groups(ps, limit)[0] == [] <==> ps == [] || |ps[0]| > limit
    decreases |ps|
  {
    if |ps| == 1 {
      FirstGroupOfOne(ps, limit);
    } else if |ps| >= 2 {
      var ps' := ps[..|ps| - 1];
      assert ps[0] == ps'[0];
      FirstGroupEmpty(ps', limit);
      FirstGroupKept(ps, limit);
    }
  }

  lemma FirstGroupOfOne(ps: seq<string>, limit: int)
    requires |ps| == 1
    ensures Groups(ps, limit)[0] == [] <==> |ps[0]| > limit
  {
    var G0 := Groups(ps[..0], limit);
    assert ps[..0] == [] && ps[..1] == ps;
    assert G0 == [[]];
    GroupsStep(ps, 0, limit);
  }

  /** Once the text has a piece, later pieces never change the first group's emptiness. */
  lemma FirstGroupKept(ps: seq<string>, limit: int)
    requires |ps| >= 2
    ensures Groups(ps, limit)[0] == [] <==> Groups(ps[..|ps| - 1], limit)[0] == []
  {
    var ps' := ps[..|ps| - 1];
    var G0 := Groups(ps', limit);
    var K := |G0| - 1;
    var p := ps[|ps| - 1];
    var G := Groups(ps, limit);
    if Width(G0[K]) + |p| > limit {
      assert G == G0 + [[p]];
      assert G[0] == G0[0];
    } else {
      assert G == G0[..K] + [G0[K] + [p]];
      if K == 0 {
        assert G[0] == G0[0] + [p];
      } else {
        assert G[0] == G0[..K][0];
      }
    }
  }

  /**
   * What the source returns: the closed chunks and then the current chunk,
   * which is added only when it is not empty. It is empty only when no piece
   * was read, so the current chunk is kept exactly when there are pieces.
   */
  function Chunks(ps: seq<string>, limit: int): (r: seq<string>)
    ensures |r| == |Groups(ps, limit)| <==> ps != []
    ensures |r| <= |Groups(ps, limit)| <= |r| + 1
    ensures forall i :: 0 <= i < |r| ==> r[i] == Spaced(Groups(ps, limit)[i])
  {
    var G := Groups(ps, limit);
    SpacedShape(G[|G| - 1]);
    var R := Render(G);
    if R[|R| - 1] != "" then R else R[..|R| - 1]
  }

  /**
   * Within every group, each piece was taken because it fitted: the length of
   * the group's text so far plus the piece's length is within the limit. The first piece of a
   * group that follows a closed one is exempt: it is taken unconditionally.
   */
  ghost predicate Fits(G: seq<seq<string>>, limit: int)
  {
    forall i, j :: 0 <= i < |G| && 0 <= j < |G[i]| && (i == 0 || j >= 1) ==>
      Width(G[i][..j]) + |G[i][j]| <= limit
  }

  /** Group `i` was closed because the first piece of group `i + 1` did not fit. */
  ghost predicate ClosedAt(G: seq<seq<string>>, i: nat, limit: int)
    requires i + 1 < |G|
  {
    G[i + 1] != [] && Width(G[i]) + |G[i + 1][0]| > limit
  }

  /** Every group but the last was closed because the next piece did not fit. */
  ghost predicate Breaks(G: seq<seq<string>>, limit: int)
  {
    forall i: nat :: i + 1 < |G| ==> ClosedAt(G, i, limit)
  }

  /**
   * A greedy packing of `ps`, stated without the loop: the groups hold the
   * pieces in order, and each piece went into the current group exactly when
   * it fitted there.
   */
  ghost predicate IsGreedyGrouping(ps: seq<string>, limit: int, G: seq<seq<string>>)
  {
    |G| >= 1 && Flatten(G) == ps && Fits(G, limit) && Breaks(G, limit)
  }

  lemma {:induction false} SpacedAppend(a: seq<string>, b: seq<string>)
    ensures Spaced(a + b) == Spaced(a) + Spaced(b)
    decreases |b|
  {
    if b == [] {
      AppendEmpty(a);
    } else {
      InitOfAppend(a, b);
      SpacedAppend(a, b[..|b| - 1]);
    }
  }

  lemma {:induction false} FlattenAppend(A: seq<seq<string>>, B: seq<seq<string>>)
    ensures Flatten(A + B) == Flatten(A) + Flatten(B)
    decreases |B|
  {
    if B == [] {
      AppendEmpty(A);
    } else {
      InitOfAppend(A, B);
      FlattenAppend(A, B[..|B| - 1]);
    }
  }

  lemma FlattenSingle(g: seq<string>)
    ensures Flatten([g]) == g
  {
    InitOfSnoc([], g);
  }

  /** The pieces of group `i` sit in the flattened list right after those of the earlier groups. */
  lemma FlattenAt(G: seq<seq<string>>, i: nat)
    requires i < |G|
    ensures Flatten(G) == Flatten(G[..i]) + G[i] + Flatten(G[i + 1..])
  {
    SplitAt(G, i);
    FlattenAppend(G[..i] + [G[i]], G[i + 1..]);
    FlattenAppend(G[..i], [G[i]]);
    FlattenSingle(G[i]);
  }

  lemma {:induction false} ConcatRender(G: seq<seq<string>>)
    ensures Concat(Render(G)) == Spaced(Flatten(G))
    decreases |G|
  {
    if G != [] {
      var G' := G[..|G| - 1];
      assert Render(G)[..|G| - 1] == Render(G');
      ConcatRender(G');
      SpacedAppend(Flatten(G'), G[|G| - 1]);
    }
  }

  /** The loop's groups are a greedy packing of the pieces. */
  lemma {:induction false} GroupsAreGreedy(ps: seq<string>, limit: int)
    ensures IsGreedyGrouping(ps, limit, Groups(ps, limit))
    decreases |ps|
  {
    if ps != [] {
      var ps' := ps[..|ps| - 1];
      GroupsAreGreedy(ps', limit);
      var G0 := Groups(ps', limit);
      var k := |G0| - 1;
      var cur := G0[k];
      var p := ps[|ps| - 1];
      GroupsKeepPieces(ps, limit);
      if Width(cur) + |p| > limit {
        assert Groups(ps, limit) == G0 + [[p]];
        OpenGroupPreservesGreedy(G0, p, limit);
      } else {
        assert Groups(ps, limit) == G0[..k] + [cur + [p]];
        ExtendGroupPreservesGreedy(G0, p, limit);
      }
    } else {
      assert Groups(ps, limit) == [[]];
      FlattenSingle([]);
    }
  }

  lemma OpenGroupPreservesGreedy(G0: seq<seq<string>>, p: string, limit: int)
    requires |G0| >= 1 && Fits(G0, limit) && Breaks(G0, limit)
    requires Width(G0[|G0| - 1]) + |p| > limit
    ensures Fits(G0 + [[p]], limit) && Breaks(G0 + [[p]], limit)
  {
    var G := G0 + [[p]];
    var k := |G0| - 1;
    forall i, j | 0 <= i < |G| && 0 <= j < |G[i]| && (i == 0 || j >= 1)
      ensures Width(G[i][..j]) + |G[i][j]| <= limit
    {
      assert i <= k;
      assert G[i] == G0[i];
    }
    forall i: nat | i + 1 < |G|
      ensures ClosedAt(G, i, limit)
    {
      assert G[i] == G0[i];
      if i < k {
        assert ClosedAt(G0, i, limit);
        assert G[i + 1] == G0[i + 1];
      }
    }
  }

  lemma ExtendGroupPreservesGreedy(G0: seq<seq<string>>, p: string, limit: int)
    requires |G0| >= 1 && Fits(G0, limit) && Breaks(G0, limit)
    requires forall i :: 1 <= i < |G0| ==> G0[i] != []
    requires Width(G0[|G0| - 1]) + |p| <= limit
    ensures var k := |G0| - 1;
      Fits(G0[..k] + [G0[k] + [p]], limit) && Breaks(G0[..k] + [G0[k] + [p]], limit)
  {
    var k := |G0| - 1;
    var cur := G0[k];
    var G := G0[..k] + [cur + [p]];
    forall i, j | 0 <= i < |G| && 0 <= j < |G[i]| && (i == 0 || j >= 1)
      ensures Width(G[i][..j]) + |G[i][j]| <= limit
    {
      if i < k {
        assert G[i] == G0[i];
      } else if j < |cur| {
        assert G[i][..j] == cur[..j];
        assert G[i][j] == cur[j];
      } else {
        assert G[i][..j] == cur;
      }
    }
    forall i: nat | i + 1 < |G|
      ensures ClosedAt(G, i, limit)
    {
      assert ClosedAt(G0, i, limit);
      assert G[i] == G0[i];
      if i + 1 < k {
        assert G[i + 1] == G0[i + 1];
      } else {
        assert G[i + 1][0] == cur[0];
      }
    }
  }

  lemma PiecesWithinFlatten(G: seq<seq<string>>, i: nat)
    requires i < |G|
    ensures |G[i]| <= |Flatten(G)|
  {
    FlattenAt(G, i);
  }

  /** Every greedy packing of the pieces is the one the loop builds. */
  lemma {:induction false} GreedyGroupingUnique(ps: seq<string>, limit: int, G: seq<seq<string>>)
    requires IsGreedyGrouping(ps, limit, G)
    ensures G == Groups(ps, limit)
    decreases |ps|
  {
    var n := |G|;
    var L := G[n - 1];
    if ps == [] {
      NoPiecesOneGroup(limit, G);
    } else if n >= 2 && |L| == 1 {
      CloseLastGroup(ps, limit, G);
      GreedyGroupingUnique(ps[..|ps| - 1], limit, G[..n - 1]);
      GroupsAfterClose(ps, limit, G);
    } else {
      ShrinkLastGroup(ps, limit, G);
      GreedyGroupingUnique(ps[..|ps| - 1], limit, G[..n - 1] + [L[..|L| - 1]]);
      GroupsAfterExtend(ps, limit, G);
    }
  }

  lemma GroupsAfterClose(ps: seq<string>, limit: int, G: seq<seq<string>>)
    requires ps != [] && |G| >= 2 && G[|G| - 1] == [ps[|ps| - 1]]
    requires Width(G[|G| - 2]) + |ps[|ps| - 1]| > limit
    requires Groups(ps[..|ps| - 1], limit) == G[..|G| - 1]
    ensures G == Groups(ps, limit)
  {
    var n := |G|;
    var G0 := G[..n - 1];
    assert G0[|G0| - 1] == G[n - 2];
    assert Groups(ps, limit) == G0 + [[ps[|ps| - 1]]];
    SplitLast(G);
  }

  lemma GroupsAfterExtend(ps: seq<string>, limit: int, G: seq<seq<string>>)
    requires ps != [] && |G| >= 1
    requires var L := G[|G| - 1];
      L != [] && L[|L| - 1] == ps[|ps| - 1] &&
      Width(L[..|L| - 1]) + |ps[|ps| - 1]| <= limit &&
      Groups(ps[..|ps| - 1], limit) == G[..|G| - 1] + [L[..|L| - 1]]
    ensures G == Groups(ps, limit)
  {
    var n := |G|;
    var L := G[n - 1];
    var L' := L[..|L| - 1];
    var G0 := G[..n - 1] + [L'];
    InitOfSnoc(G[..n - 1], L');
    assert Groups(ps, limit) == G[..n - 1] + [L' + [ps[|ps| - 1]]];
    SplitLast(L);
    SplitLast(G);
  }

  lemma NoPiecesOneGroup(limit: int, G: seq<seq<string>>)
    requires IsGreedyGrouping([], limit, G)
    ensures G == [[]]
  {
    if |G| >= 2 {
      assert ClosedAt(G, 0, limit);
      PiecesWithinFlatten(G, 1);
    }
    assert |G| == 1;
    FlattenSingle(G[0]);
  }

  /** Dropping a last group that holds just the last piece leaves a greedy packing of the rest. */
  lemma CloseLastGroup(ps: seq<string>, limit: int, G: seq<seq<string>>)
    requires IsGreedyGrouping(ps, limit, G) && |G| >= 2 && |G[|G| - 1]| == 1
    ensures ps != [] && G[|G| - 1] == [ps[|ps| - 1]]
    ensures Width(G[|G| - 2]) + |ps[|ps| - 1]| > limit
    ensures IsGreedyGrouping(ps[..|ps| - 1], limit, G[..|G| - 1])
  {
    var n := |G|;
    var G' := G[..n - 1];
    SplitLast(G);
    SplitLast(ps);
    assert ClosedAt(G, n - 2, limit);
    forall i, j | 0 <= i < |G'| && 0 <= j < |G'[i]| && (i == 0 || j >= 1)
      ensures Width(G'[i][..j]) + |G'[i][j]| <= limit
    {
      assert G'[i] == G[i];
    }
    forall i: nat | i + 1 < |G'|
      ensures ClosedAt(G', i, limit)
    {
      assert ClosedAt(G, i, limit);
      assert G'[i] == G[i] && G'[i + 1] == G[i + 1];
    }
  }

  /** Dropping the last piece from the last group leaves a greedy packing of the rest. */
  lemma ShrinkLastGroup(ps: seq<string>, limit: int, G: seq<seq<string>>)
    requires IsGreedyGrouping(ps, limit, G) && ps != []
    requires |G| == 1 || |G[|G| - 1]| != 1
    ensures var L := G[|G| - 1];
      L != [] && L[|L| - 1] == ps[|ps| - 1] &&
      Width(L[..|L| - 1]) + |ps[|ps| - 1]| <= limit &&
      IsGreedyGrouping(ps[..|ps| - 1], limit, G[..|G| - 1] + [L[..|L| - 1]])
  {
    var n := |G|;
    var L := G[n - 1];
    LastGroupHoldsLastPiece(ps, limit, G);
    var L' := L[..|L| - 1];
    assert Width(L') + |ps[|ps| - 1]| <= limit by {
      assert Fits(G, limit);
      assert Width(G[n - 1][..|L| - 1]) + |G[n - 1][|L| - 1]| <= limit;
    }
    FlattenShrink(ps, G);
    ShrinkFits(G, limit);
    ShrinkBreaks(G, limit);
  }

  lemma LastGroupHoldsLastPiece(ps: seq<string>, limit: int, G: seq<seq<string>>)
    requires IsGreedyGrouping(ps, limit, G) && ps != []
    requires |G| == 1 || |G[|G| - 1]| != 1
    ensures var L := G[|G| - 1];
      L != [] && Flatten(G[..|G| - 1]) + L == ps && L[|L| - 1] == ps[|ps| - 1]
  {
    var n := |G|;
    var L := G[n - 1];
    SplitLast(G);
    FlattenAppend(G[..n - 1], [L]);
    FlattenSingle(L);
    if n == 1 {
      assert G[..n - 1] == [];
    } else {
      assert ClosedAt(G, n - 2, limit);
    }
  }

  lemma FlattenShrink(ps: seq<string>, G: seq<seq<string>>)
    requires |G| >= 1 && G[|G| - 1] != [] && ps != []
    requires Flatten(G[..|G| - 1]) + G[|G| - 1] == ps
    ensures var L := G[|G| - 1];
      Flatten(G[..|G| - 1] + [L[..|L| - 1]]) == ps[..|ps| - 1]
  {
    var n := |G|;
    var L := G[n - 1];
    var L' := L[..|L| - 1];
    SplitLast(L);
    SplitLast(ps);
    FlattenAppend(G[..n - 1], [L']);
    FlattenSingle(L');
  }

  lemma ShrinkFits(G: seq<seq<string>>, limit: int)
    requires |G| >= 1 && G[|G| - 1] != [] && Fits(G, limit)
    ensures var n, L := |G|, G[|G| - 1];
      Fits(G[..n - 1] + [L[..|L| - 1]], limit)
  {
    var n := |G|;
    var L := G[n - 1];
    var L' := L[..|L| - 1];
    var G' := G[..n - 1] + [L'];
    InitOfSnoc(G[..n - 1], L');
    forall i, j | 0 <= i < |G'| && 0 <= j < |G'[i]| && (i == 0 || j >= 1)
      ensures Width(G'[i][..j]) + |G'[i][j]| <= limit
    {
      if i < n - 1 {
        assert G'[i] == G[i];
      } else {
        assert G'[i] == L';
        assert Width(L[..j]) + |L[j]| <= limit;
        ShrinkOne(L, j, limit);
      }
    }
  }

  lemma ShrinkOne(L: seq<string>, j: nat, limit: int)
    requires j < |L| - 1 && Width(L[..j]) + |L[j]| <= limit
    ensures Width(L[..|L| - 1][..j]) + |L[..|L| - 1][j]| <= limit
  {
    TakeTake(L, j, |L| - 1);
  }

  lemma ShrinkBreaks(G: seq<seq<string>>, limit: int)
    requires |G| >= 1 && Breaks(G, limit)
    requires |G| == 1 || |G[|G| - 1]| >= 2
    ensures var n, L := |G|, G[|G| - 1];
      L != [] ==> Breaks(G[..n - 1] + [L[..|L| - 1]], limit)
  {
    var n := |G|;
    var L := G[n - 1];
    if L != [] {
      var L' := L[..|L| - 1];
      var G' := G[..n - 1] + [L'];
      InitOfSnoc(G[..n - 1], L');
      forall i: nat | i + 1 < |G'|
        ensures ClosedAt(G', i, limit)
      {
        assert ClosedAt(G, i, limit);
        assert G'[i] == G[i];
        if i + 1 < n - 1 {
          assert G'[i + 1] == G[i + 1];
        } else {
          assert G'[i + 1] == L';
        }
      }
    }
  }

  lemma RenderInit(G: seq<seq<string>>)
    requires G != []
    ensures Render(G) == Render(G[..|G| - 1]) + [Spaced(G[|G| - 1])]
  {
  }

  lemma SpacedOne(p: string)
    ensures Spaced([p]) == p + " "
  {
    InitOfSnoc([], p);
  }

  /** One turn of the loop: the piece closes the current group, or joins it. */
  lemma GroupsStep(ps: seq<string>, i: nat, limit: int)
    requires i < |ps|
    ensures var G0 := Groups(ps[..i], limit);
      var k := |G0| - 1;
      Groups(ps[..i + 1], limit) ==
        if Width(G0[k]) + |ps[i]| > limit then G0 + [[ps[i]]] else G0[..k] + [G0[k] + [ps[i]]]
  {
    TakeTake(ps, i, i + 1);
  }

  /** When there are pieces, the last group is never empty, so every group becomes a chunk. */
  lemma {:induction false} ChunksAreGreedyPacking(ps: seq<string>, limit: int)
    requires ps != []
    ensures Chunks(ps, limit) == Render(Groups(ps, limit))
    ensures IsGreedyGrouping(ps, limit, Groups(ps, limit))
  {
    var G := Groups(ps, limit);
    SpacedShape(G[|G| - 1]);
    GroupsAreGreedy(ps, limit);
  }

  /** Nothing is dropped or reordered: the chunks spell out every piece followed by " ". */
  lemma {:induction false} ChunksConcat(ps: seq<string>, limit: int)
    ensures Concat(Chunks(ps, limit)) == Spaced(ps)
  {
    if ps == [] {
      assert Chunks(ps, limit) == [];
    } else {
      ChunksAreGreedyPacking(ps, limit);
      ConcatRender(Groups(ps, limit));
      GroupsKeepPieces(ps, limit);
    }
  }

  /**
   * Only the first chunk can be empty, and it is exactly when the first piece
   * alone is over the limit; every other chunk ends in the space added after
   * its last piece, and the last chunk is never empty.
   */
  lemma {:induction false} ChunksShape(ps: seq<string>, limit: int)
    requires ps != []
    ensures var cs := Chunks(ps, limit);
      |cs| >= 1 && cs[|cs| - 1] != "" &&
      (cs[0] == "" <==> |ps[0]| > limit) &&
      (forall i :: 1 <= i < |cs| ==> cs[i] != "") &&
      (forall i :: 0 <= i < |cs| && cs[i] != "" ==> cs[i][|cs[i]| - 1] == ' ')
  {
    var G := Groups(ps, limit);
    var cs := Chunks(ps, limit);
    FirstGroupEmpty(ps, limit);
    forall i | 0 <= i < |cs|
      ensures (cs[i] == "") == (G[i] == [])
      ensures cs[i] != "" ==> cs[i][|cs[i]| - 1] == ' '
    {
      SpacedShape(G[i]);
    }
  }

  /** `c` is one piece over the limit, followed by " ". */
  ghost predicate IsOversizedPiece(ps: seq<string>, limit: int, c: string)
  {
    exists k :: 0 <= k < |ps| && |ps[k]| > limit && c == ps[k] + " "
  }

  /**
   * Bound: every non-empty chunk is at most one longer than the limit (the
   * check does not count the space appended after the piece), unless it is a
   * single oversized piece, which is never cut.
   */
  lemma {:induction false} ChunksBound(ps: seq<string>, limit: int)
    ensures var cs := Chunks(ps, limit);
      forall i :: 0 <= i < |cs| && cs[i] != "" ==>
        |cs[i]| <= limit + 1 || IsOversizedPiece(ps, limit, cs[i])
  {
    var cs := Chunks(ps, limit);
    if ps == [] {
      assert cs == [];
    } else {
      var G := Groups(ps, limit);
      ChunksAreGreedyPacking(ps, limit);
      GroupsKeepPieces(ps, limit);
      forall i | 0 <= i < |cs| && cs[i] != ""
        ensures |cs[i]| <= limit + 1 || IsOversizedPiece(ps, limit, cs[i])
      {
        GroupBound(ps, limit, G, i);
      }
    }
  }

  /**
   * Group `m` holds the `k`-th piece, `p`, and nothing else: the earlier
   * groups hold exactly the `k` pieces before it.
   */
  ghost predicate AloneAt(G: seq<seq<string>>, p: string, k: nat, m: nat)
  {
    m < |G| && G[m] == [p] && |Flatten(G[..m])| == k
  }

  /**
   * A piece over the limit is never cut and never shares a chunk: it always
   * closes the current chunk (whose width is not negative) and the next piece
   * cannot join it, since its own width already passes the limit. This holds
   * for each occurrence `k`, however often the same sentence repeats.
   */
  lemma {:induction false} OversizedPieceAlone(ps: seq<string>, limit: int, k: nat)
    requires k < |ps| && |ps[k]| > limit
    ensures exists m: nat :: AloneAt(Groups(ps, limit), ps[k], k, m)
    decreases |ps|
  {
    var ps' := ps[..|ps| - 1];
    var G0 := Groups(ps', limit);
    var K := |G0| - 1;
    var cur := G0[K];
    var p := ps[|ps| - 1];
    var G := Groups(ps, limit);
    SpacedShape(cur);
    if k == |ps| - 1 {
      assert G == G0 + [[p]];
      assert G[..|G0|] == G0;
      GroupsKeepPieces(ps', limit);
      assert AloneAt(G, ps[k], k, |G0|);
    } else {
      assert ps'[k] == ps[k];
      OversizedPieceAlone(ps', limit, k);
      var m: nat :| AloneAt(G0, ps[k], k, m);
      if Width(cur) + |p| > limit {
        assert G == G0 + [[p]];
      } else {
        assert m != K;
        assert G == G0[..K] + [cur + [p]];
      }
      KeptAlone(G0, G, ps[k], k, m);
    }
  }

  /** A group and everything before it survive a later step of the loop. */
  lemma KeptAlone(G0: seq<seq<string>>, G: seq<seq<string>>, p: string, k: nat, m: nat)
    requires AloneAt(G0, p, k, m) && m < |G| && G[..m + 1] == G0[..m + 1]
    ensures AloneAt(G, p, k, m)
  {
    assert G[m] == G[..m + 1][m] && G0[m] == G0[..m + 1][m];
    assert G[..m] == G[..m + 1][..m] && G0[..m] == G0[..m + 1][..m];
  }

  /**
   * A piece over the limit comes out as a chunk of its own, `piece + " "`, at
   * the place of that occurrence: the chunks before it hold exactly the
   * pieces before it.
   */
  lemma {:induction false} OversizedPieceChunk(ps: seq<string>, limit: int, k: nat)
    requires k < |ps| && |ps[k]| > limit
    ensures exists m: nat ::
              m < |Chunks(ps, limit)| && Chunks(ps, limit)[m] == ps[k] + " " &&
              AloneAt(Groups(ps, limit), ps[k], k, m)
  {
    var G := Groups(ps, limit);
    OversizedPieceAlone(ps, limit, k);
    var m: nat :| AloneAt(G, ps[k], k, m);
    SpacedOne(ps[k]);
    assert Chunks(ps, limit)[m] == ps[k] + " ";
  }

  lemma GroupBound(ps: seq<string>, limit: int, G: seq<seq<string>>, i: nat)
    requires IsGreedyGrouping(ps, limit, G) && i < |G| && G[i] != []
    ensures |Spaced(G[i])| <= limit + 1 || IsOversizedPiece(ps, limit, Spaced(G[i]))
  {
    var g := G[i];
    var j := |g| - 1;
    SpacedShape(g);
    SplitLast(g);
    if i == 0 || j >= 1 {
      assert Width(g[..j]) + |g[j]| <= limit;
    } else {
      var k := |Flatten(G[..i])|;
      FlattenAt(G, i);
      assert ps[k] == g[0];
      SpacedOne(g[0]);
      assert g == [g[0]];
    }
  }

  /**
   * The state of the loop after `i` pieces: `chunks` holds the closed groups'
   * texts and `current` the text of the group still being built.
   */
  ghost predicate PackedUpTo(ps: seq<string>, i: nat, limit: int, chunks: seq<string>, current: string)
    requires i <= |ps|
  {
    var G := Groups(ps[..i], limit);
    chunks == Render(G[..|G| - 1]) && current == Spaced(G[|G| - 1])
  }

  lemma PackStep(ps: seq<string>, i: nat, limit: int, chunks: seq<string>, current: string)
    requires i < |ps| && PackedUpTo(ps, i, limit, chunks, current)
    ensures |current| + |ps[i]| > limit ==> PackedUpTo(ps, i + 1, limit, chunks + [current], "" + ps[i] + " ")
    ensures |current| + |ps[i]| <= limit ==> PackedUpTo(ps, i + 1, limit, chunks, current + ps[i] + " ")
  {
    var p := ps[i];
    var G0 := Groups(ps[..i], limit);
    var k := |G0| - 1;
    SpacedShape(G0[k]);
    GroupsStep(ps, i, limit);
    if |current| + |p| > limit {
      RenderInit(G0);
      InitOfSnoc(G0, [p]);
      SpacedOne(p);
    } else {
      InitOfSnoc(G0[..k], G0[k] + [p]);
      InitOfSnoc(G0[k], p);
    }
  }

  lemma PackEnd(ps: seq<string>, limit: int, chunks: seq<string>, current: string)
    requires PackedUpTo(ps, |ps|, limit, chunks, current)
    ensures (if current != "" then chunks + [current] else chunks) == Chunks(ps, limit)
  {
    var G := Groups(ps, limit);
    assert ps[..|ps|] == ps;
    RenderInit(G);
    SpacedShape(G[|G| - 1]);
  }

  /**
   * TTSHelper.splitTextIntoChunks: cut `text` after every '.', then pack the
   * pieces greedily, each followed by " ", closing the current chunk when the
   * next piece would take it past `chunkSize`.
   */
  method SplitTextIntoChunks(text: string, chunkSize: int) returns (chunks: seq<string>)
    ensures chunks == Chunks(SplitAfterDots(text), chunkSize)
    ensures Concat(chunks) == Spaced(SplitAfterDots(text))
    ensures chunks != [] && chunks[|chunks| - 1] != ""
    ensures text == "" && chunkSize >= 0 ==> chunks == [" "]
  {
    var sentences := SplitAfterDots(text);
    chunks := [];
    var currentChunk := "";
    assert sentences[..0] == [];
    for i := 0 to |sentences|
      invariant PackedUpTo(sentences, i, chunkSize, chunks, currentChunk)
    {
      var sentence := sentences[i];
      PackStep(sentences, i, chunkSize, chunks, currentChunk);
      if |currentChunk| + |sentence| > chunkSize {
        chunks := chunks + [currentChunk];
        currentChunk := "";
      }
      currentChunk := currentChunk + sentence + " ";
    }
    PackEnd(sentences, chunkSize, chunks, currentChunk);
    if currentChunk != "" {
      chunks := chunks + [currentChunk];
    }
    ChunksConcat(sentences, chunkSize);
    ChunksShape(sentences, chunkSize);
    if text == "" && chunkSize >= 0 {
      EmptyTextOneSpace(chunkSize);
    }
  }

  /** An empty text is one empty piece, which becomes the single chunk " ". */
  lemma EmptyTextOneSpace(limit: int)
    requires limit >= 0
    ensures Chunks(SplitAfterDots(""), limit) == [" "]
  {
    EmptyTextOnePiece();
    OneEmptyPiece(limit);
    SpacedOne("");
    assert "" + " " == " ";
  }

  /** Splitting the empty text gives one empty piece. */
  lemma EmptyTextOnePiece()
    ensures SplitAfterDots("") == [""]
  {
  }

  /** A lone empty piece fits within any non-negative limit and forms the only group. */
  lemma OneEmptyPiece(limit: int)
    requires limit >= 0
    ensures Groups([""], limit) == [[""]]
  {
    var ps: seq<string> := [""];
    var none: seq<string> := [];
    assert ps[..0] == [] && ps[..1] == ps;
    GroupsStep(ps, 0, limit);
    assert Groups(ps[..0], limit) == [none];
    assert none + [""] == [""];
  }
}
