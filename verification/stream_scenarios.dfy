/**
 Worked streams for the reply loop, showing where fragment-by-fragment
 classification and whole-response classification part ways: a marker split
 over two fragments, and answer text that spells a marker once a region is
 cut out of it.
 */
module StreamScenarios {
  import opened Text
  import opened Segment
  import opened Stream
  import opened Scenarios

  /** A fragment that neither contains nor starts an opening marker prints
      as one answer piece outside a region. */
  lemma PlainAnswerChunk(text: string)
    requires text != [] && !Contains(text, Open)
    ensures ChunkOf(text, false) == Chunk(false, [A(text)], text)
  {
    assert [A(text)][1..] == [];
    assert WellFormed([A(text)], false);
    assert Payload([A(text)]) == text;
    assert AnswerText([A(text)]) == text;
    ChunkIsUniqueSegmentation(text, false, [A(text)]);
  }

  /** A fragment inside a region that holds no closing marker prints as
      thinking text and keeps the region open. */
  lemma PlainThinkingChunk(text: string)
    requires text != [] && !Contains(text, Close)
    ensures ChunkOf(text, true) == Chunk(true, [T(text)], [])
  {
    assert [T(text)][1..] == [];
    assert WellFormed([T(text)], true);
    assert Payload([T(text)]) == text;
    assert AnswerText([T(text)]) == [];
    ChunkIsUniqueSegmentation(text, true, [T(text)]);
  }

  /** The loop over two fragments, the second marked done. */
  lemma FoldTwo(f1: string, f2: string, c1: Chunk, c2: Chunk)
    requires ChunkOf(f1, false) == c1 && ChunkOf(f2, c1.inThink) == c2
    ensures FoldFragments([Fragment(f1, false), Fragment(f2, true)], false)
            == Fold(c2.inThink, c1.pieces + c2.pieces,
                    (if c1.answer != [] then [c1.answer] else []) + (if c2.answer != [] then [c2.answer] else []))
  {
    var frags := [Fragment(f1, false), Fragment(f2, true)];
    assert frags[1..] == [Fragment(f2, true)];
  }

  /** A stream of one fragment, marked done, whose answer string is `a`:
      the final text is `a` stripped once more. */
  lemma SingleFragmentFinal(x: string, a: string)
    requires ChunkOf(x, false).answer == a && a != []
    ensures StreamReply([Fragment(x, true)]).finalText == StripThinkSegments(a)
  {
    var frags := [Fragment(x, true)];
    var fold := FoldFragments(frags, false);
    assert frags[0].response == x && frags[0].done;
    assert fold.answerParts == [a];
    assert Concat([a]) == a + Concat([]);
    assert Concat([a]) == a;
    assert StreamReply(frags).finalText == StripThinkSegments(Concat(fold.answerParts));
  }

  // ---------------------------------------------------------------------
  // An opening marker split over two fragments.

  const OpenHead := "a<thi"
  const OpenTail := "nk>b"

  lemma OpenHalvesJoin()
    ensures OpenHead + OpenTail == Unclosed
    ensures Concat([OpenHead, OpenTail]) == Unclosed
  {
    assert [OpenHead, OpenTail][1..] == [OpenTail];
    assert [OpenTail][1..] == [];
    assert Concat([OpenTail]) == OpenTail + Concat([]);
    assert Concat([OpenHead, OpenTail]) == OpenHead + Concat([OpenTail]);
  }

  /** Neither half is recognised: both print as answer text, so the marker
      shows in the answer colour. The second `strip_think_segments` over the
      joined answer strings does find the marker, so the final text is the
      one batch mode returns. */
  lemma SplitOpenMarker()
    ensures var frags := [Fragment(OpenHead, false), Fragment(OpenTail, true)];
      && StreamReply(frags).display == [A(OpenHead), A(OpenTail)]
      && StreamReply(frags).finalText == "a"
      && BatchReply(Delivered(frags)).display == UnclosedPieces
      && BatchReply(Delivered(frags)).finalText == "a"
  {
    var frags := [Fragment(OpenHead, false), Fragment(OpenTail, true)];
    ShortNoOccurrence(OpenHead, Open);
    NoLeadNoOccurrence(OpenTail, Open);
    PlainAnswerChunk(OpenHead);
    PlainAnswerChunk(OpenTail);
    FoldTwo(OpenHead, OpenTail, Chunk(false, [A(OpenHead)], OpenHead), Chunk(false, [A(OpenTail)], OpenTail));
    OpenHalvesJoin();
    UnclosedRegionDropped();
    assert frags[1..] == [Fragment(OpenTail, true)];
    assert Delivered(frags) == [OpenHead, OpenTail];
  }

  // ---------------------------------------------------------------------
  // A closing marker split over two fragments.

  const CloseHead := Open + "x</thi"
  const CloseTail := "nk>b"
  const Closed := Open + "x" + Close + "b"

  lemma CloseHalvesJoin()
    ensures CloseHead + CloseTail == Closed
    ensures Concat([CloseHead, CloseTail]) == Closed
  {
    assert [CloseHead, CloseTail][1..] == [CloseTail];
    assert [CloseTail][1..] == [];
    assert Concat([CloseTail]) == CloseTail + Concat([]);
    assert Concat([CloseHead, CloseTail]) == CloseHead + Concat([CloseTail]);
  }

  /** The first fragment opens a region and stays in it. */
  lemma CloseHeadChunk()
    ensures ChunkOf(CloseHead, false) == Chunk(true, [M(Open), T("x</thi")], [])
  {
    var ps := [M(Open), T("x</thi")];
    ShortNoOccurrence("x</thi", Close);
    StepRegion(ps, 1, true);
    StepMarker(ps, 0, false);
    assert ps[0..] == ps;
    assert ps[2..] == [];
    assert MarkerCount(ps) == 1 by {
      assert ps[1..] == [T("x</thi")];
      assert ps[1..][1..] == [];
      assert MarkerCount(ps[1..]) == 0 + MarkerCount([]);
    }
    ChunkIsUniqueSegmentation(CloseHead, false, ps);
  }

  /** The whole response: a region around `x`, then answer text `b`. */
  lemma ClosedFinalText()
    ensures StripThinkSegments(Closed) == "b"
  {
    StrippedAlready("b");
    var ps := [M(Open), T("x"), M(Close), A("b")];
    NoLeadNoOccurrence("b", Open);
    StepRegion(ps, 3, false);
    StepMarker(ps, 2, true);
    ShortNoOccurrence("x", Close);
    StepRegion(ps, 1, true);
    StepMarker(ps, 0, false);
    assert ps[0..] == ps;
    assert ps[4..] == [];
    assert Closed == Open + ("x" + (Close + ("b" + "")));
    FinalTextFromSegmentation(Closed, ps);
  }

  /** Neither half of the closing marker is recognised, so the stream never
      leaves the region: the answer text after the marker is printed as
      thinking text and lost from the final text, which batch mode keeps. */
  lemma SplitCloseMarker()
    ensures var frags := [Fragment(CloseHead, false), Fragment(CloseTail, true)];
      && StreamReply(frags).finalText == ""
      && BatchReply(Delivered(frags)).finalText == "b"
  {
    var frags := [Fragment(CloseHead, false), Fragment(CloseTail, true)];
    CloseHeadChunk();
    NoLeadNoOccurrence(CloseTail, Close);
    PlainThinkingChunk(CloseTail);
    FoldTwo(CloseHead, CloseTail, Chunk(true, [M(Open), T("x</thi")], []), Chunk(true, [T(CloseTail)], []));
    assert Concat([]) == [];
    assert StripThinkSegments([]) == [];
    CloseHalvesJoin();
    ClosedFinalText();
    assert frags[1..] == [Fragment(CloseTail, true)];
    assert Delivered(frags) == [CloseHead, CloseTail];
  }

  // ---------------------------------------------------------------------
  // Answer text that spells a marker.

  /** In one fragment, the region inside `<thi…nk>` is cut out and the
      answer string is `<think>`. Batch mode returns that as the final text;
      stream mode strips once more, reads it as an unclosed region and
      returns nothing. No marker is split here: it is the second
      `strip_think_segments` that differs. */
  lemma JoinedMarkerDiverges()
    ensures StreamReply([Fragment(Joined, true)]).finalText == ""
    ensures BatchReply([Joined]).finalText == Open
  {
    JoinedChunkAnswer();
    SingleFragmentFinal(Joined, Open);
    LoneOpenDropped();
    assert Concat([Joined]) == Joined + Concat([]);
    JoinedFinalText();
  }

  /** The answer string of that fragment spells the opening marker. */
  lemma JoinedChunkAnswer()
    ensures ChunkOf(Joined, false).answer == Open
  {
    JoinedSplits();
    JoinedPiecesWellFormed();
    JoinedAnswerSpellsOpen();
    ColorizeIsUniqueSegmentation(Joined, JoinedPieces);
    StreamChunkFromOutside(Joined);
  }
}
