// Worked examples: lemmas about fixed inputs that pin down the chunker's
// quirks. Pieces keep their leading space, the trailing empty piece still
// gets its " ", and an oversized first piece leaves an empty first chunk.
module Scenarios {
  import opened Lists
  import opened Sentences
  import opened Chunking

  lemma HelloWorldPieces()
    ensures SplitAfterDots("Hello. World.") == ["Hello.", " World.", ""]
  {
    var ps := ["Hello.", " World.", ""];
    assert Concat(ps[..0]) == "";
    assert ps[..1][..0] == ps[..0] && ps[..2][..1] == ps[..1] && ps[..3][..2] == ps[..2];
    assert Concat(ps[..1]) == "Hello.";
    assert Concat(ps[..2]) == "Hello. World.";
    assert ps[..3] == ps;
    assert IsSentence(ps[0]) && IsSentence(ps[1]);
    DotSplitUnique("Hello. World.", ps);
  }

  /** With room to spare, everything lands in one chunk, spaces doubled after each '.'. */
  lemma {:induction false} HelloWorldOneChunk()
    ensures Chunks(SplitAfterDots("Hello. World."), 100) == ["Hello.  World.  "]
  {
    var ps := ["Hello.", " World.", ""];
    var G := [ps];
    HelloWorldPieces();
    OneGroupGreedy(ps, 100);
    GreedyGroupingUnique(ps, 100, G);
    ChunksAreGreedyPacking(ps, 100);
    RenderThreeOne("Hello.", " World.", "");
    assert Chunks(ps, 100) == ["Hello." + " " + " World." + " " + "" + " "];
    OneChunkText();
  }

  lemma OneChunkText()
    ensures "Hello." + " " + " World." + " " + "" + " " == "Hello.  World.  "
  {
  }

  lemma OneGroupGreedy(ps: seq<string>, limit: int)
    requires ps == ["Hello.", " World.", ""] && limit == 100
    ensures IsGreedyGrouping(ps, limit, [ps])
  {
    assert ps[..0] == [] && ps[..1] == ["Hello."] && ps[..2] == ["Hello.", " World."];
    assert Width(ps[..1]) == 7 by { assert ps[..1][..0] == []; }
    assert Width(ps[..2]) == 15 by { assert ps[..2][..1] == ps[..1]; }
    FlattenSingle(ps);
  }

  lemma RenderThreeOne(a: string, b: string, c: string)
    ensures Render([[a, b, c]]) == [a + " " + b + " " + c + " "]
  {
    SpacedThree(a, b, c);
  }

  lemma SpacedThree(a: string, b: string, c: string)
    ensures Spaced([a, b, c]) == a + " " + b + " " + c + " "
  {
    var g := [a, b, c];
    assert g[..2] == [a, b] && g[..2][..1] == [a];
    SpacedOne(a);
  }

  /**
   * With a limit of 3 every piece is over the limit: the first chunk is
   * empty, each piece is a chunk of its own, and the trailing empty piece
   * becomes the chunk " ".
   */
  lemma {:induction false} HelloWorldTinyLimit()
    ensures Chunks(SplitAfterDots("Hello. World."), 3) == ["", "Hello. ", " World. ", " "]
  {
    var ps := ["Hello.", " World.", ""];
    var G := [[], ["Hello."], [" World."], [""]];
    HelloWorldPieces();
    SingletonsGreedy(ps, 3, G);
    GreedyGroupingUnique(ps, 3, G);
    ChunksAreGreedyPacking(ps, 3);
    RenderSingletons("Hello.", " World.", "");
    assert Chunks(ps, 3) == ["", "Hello." + " ", " World." + " ", "" + " "];
    SingletonTexts();
  }

  lemma SingletonTexts()
    ensures "Hello." + " " == "Hello. " && " World." + " " == " World. " && "" + " " == " "
  {
  }

  lemma SingletonsGreedy(ps: seq<string>, limit: int, G: seq<seq<string>>)
    requires ps == ["Hello.", " World.", ""] && limit == 3
    requires G == [[], ["Hello."], [" World."], [""]]
    ensures IsGreedyGrouping(ps, limit, G)
  {
    SpacedShape(G[1]);
    SpacedShape(G[2]);
    SpacedOne("Hello.");
    SpacedOne(" World.");
    assert ClosedAt(G, 0, limit) && ClosedAt(G, 1, limit) && ClosedAt(G, 2, limit);
    FlattenSingletons(G);
  }

  lemma FlattenSingletons(G: seq<seq<string>>)
    requires G == [[], ["Hello."], [" World."], [""]]
    ensures Flatten(G) == ["Hello.", " World.", ""]
  {
    assert G[..1] == [[]] && G[..2][..1] == G[..1] && G[..3][..2] == G[..2] && G[..4][..3] == G[..3];
    assert G[..4] == G;
    FlattenSingle([]);
    assert Flatten(G[..1]) == [];
    assert Flatten(G[..2]) == ["Hello."];
    assert Flatten(G[..3]) == ["Hello.", " World."];
  }

  lemma RenderSingletons(a: string, b: string, c: string)
    ensures Render([[], [a], [b], [c]]) == ["", a + " ", b + " ", c + " "]
  {
    SpacedOne(a);
    SpacedOne(b);
    SpacedOne(c);
  }
}
