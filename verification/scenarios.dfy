/**
 Worked inputs for the think-marker scanners, each proved from the general
 theorems rather than by running the scanners.
 */
module Scenarios {
  import opened Text
  import opened Segment

  function A(s: string): Piece { Piece(Answer, s, false) }
  function T(s: string): Piece { Piece(Thinking, s, false) }
  function M(s: string): Piece { Piece(Thinking, s, true) }

  /** Reading a well-formed sequence from the back: a marker echo at `k`. */
  lemma StepMarker(ps: seq<Piece>, k: nat, inThink: bool)
    requires k < |ps| && ps[k] == M(Sought(inThink))
    requires WellFormed(ps[k + 1..], !inThink)
    ensures WellFormed(ps[k..], inThink)
    ensures Payload(ps[k..]) == Sought(inThink) + Payload(ps[k + 1..])
    ensures AnswerText(ps[k..]) == AnswerText(ps[k + 1..])
  {
    assert ps[k..][1..] == ps[k + 1..];
  }

  /** Reading a well-formed sequence from the back: region text at `k`. */
  lemma StepRegion(ps: seq<Piece>, k: nat, inThink: bool)
    requires k < |ps| && ps[k] == Piece(RegionColour(inThink), ps[k].text, false)
    requires ps[k].text != [] && !Contains(ps[k].text, Sought(inThink))
    requires k + 1 == |ps| || (ps[k + 1].isMarker && WellFormed(ps[k + 1..], inThink))
    ensures WellFormed(ps[k..], inThink)
    ensures Payload(ps[k..]) == ps[k].text + Payload(ps[k + 1..])
    ensures AnswerText(ps[k..]) == (if inThink then [] else ps[k].text) + AnswerText(ps[k + 1..])
  {
    assert ps[k..][1..] == ps[k + 1..];
  }

  /** A response with one thinking region between two answer parts:
      `Hello <think>reasoning here</think>World`. */
  const Reasoned := "Hello " + (Open + ("reasoning here" + (Close + ("World" + ""))))

  /** Its segmentation: the markers and the body of the region in the
      thinking colour, the parts around it in the answer colour. */
  const ReasonedPieces := [A("Hello "), M(Open), T("reasoning here"), M(Close), A("World")]

  lemma ReasonedPiecesWellFormed()
    ensures WellFormed(ReasonedPieces, false)
    ensures Payload(ReasonedPieces) == Reasoned
    ensures AnswerText(ReasonedPieces) == "Hello " + "World"
  {
    var ps := ReasonedPieces;
    StepRegion(ps, 4, false);
    StepMarker(ps, 3, true);
    NoLeadNoOccurrence("reasoning here", Close);
    StepRegion(ps, 2, true);
    StepMarker(ps, 1, false);
    StepRegion(ps, 0, false);
    assert ps[0..] == ps;
    assert ps[5..] == [];
  }

  /** `colorize_response` prints the response as that segmentation. */
  lemma RegionBetweenAnswers()
    ensures ColorizeResponse(Reasoned) == ReasonedPieces
  {
    ReasonedPiecesWellFormed();
    ColorizeIsUniqueSegmentation(Reasoned, ReasonedPieces);
  }

  lemma HelloWorldStripped()
    ensures Strip("Hello " + "World") == "Hello World"
  {
    assert "Hello " + "World" == "Hello World";
    StripSetKeeps("Hello World", Whitespace);
  }

  /** The final text keeps the space before the region: the answer parts
      are joined as they are, not separated or trimmed one by one. */
  lemma RegionBetweenAnswersFinalText()
    ensures StripThinkSegments(Reasoned) == "Hello World"
  {
    ReasonedPiecesWellFormed();
    FinalTextFromSegmentation(Reasoned, ReasonedPieces);
    HelloWorldStripped();
  }

  /** A text that starts and ends with something other than whitespace is
      its own strip. */
  lemma StrippedAlready(s: string)
    requires s != [] && s[0] !in Whitespace && s[|s| - 1] !in Whitespace
    ensures Strip(s) == s
  {
    StripSetKeeps(s, Whitespace);
  }

  /** A text shorter than a pattern does not contain it. */
  lemma ShortNoOccurrence(text: string, pat: string)
    requires |text| < |pat|
    ensures !Contains(text, pat)
  {
  }

  /** A text in which no `<` is followed by `t` holds no opening marker. */
  lemma NoOpenMarker(x: string)
    requires forall k :: 0 <= k < |x| - 1 ==> x[k] != '<' || x[k + 1] != 't'
    ensures !Contains(x, Open)
  {
    forall p ensures !OccursAt(x, Open, p) {
      OccursAtChars(x, Open, p);
      if 0 <= p && p + |Open| <= |x| {
        assert x[p] != Open[0] || x[p + 1] != Open[1];
      }
    }
  }

  /** A closing marker outside any region is ordinary answer text. */
  const Stray := "a</think>b"

  lemma StrayCloseKept()
    ensures ColorizeResponse(Stray) == [A(Stray)]
    ensures StripThinkSegments(Stray) == Stray
  {
    StrippedAlready(Stray);
    NoOpenMarker(Stray);
    assert WellFormed([A(Stray)], false);
    assert Payload([A(Stray)]) == Stray;
    assert AnswerText([A(Stray)]) == Stray;
    ColorizeIsUniqueSegmentation(Stray, [A(Stray)]);
    FinalTextFromSegmentation(Stray, [A(Stray)]);
  }

  /** An opening marker that is never closed turns the rest of the response
      into thinking text: it is printed in the thinking colour and dropped
      from the final text. */
  const Unclosed := "a<think>b"

  const UnclosedPieces := [A("a"), M(Open), T("b")]

  lemma UnclosedSplits()
    ensures Unclosed == "a" + (Open + ("b" + ""))
  {
  }

  lemma UnclosedPiecesWellFormed()
    ensures WellFormed(UnclosedPieces, false)
    ensures Payload(UnclosedPieces) == "a" + (Open + ("b" + ""))
    ensures AnswerText(UnclosedPieces) == "a" + ([] + ([] + ""))
  {
    var ps := UnclosedPieces;
    NoLeadNoOccurrence("b", Close);
    StepRegion(ps, 2, true);
    StepMarker(ps, 1, false);
    NoLeadNoOccurrence("a", Open);
    StepRegion(ps, 0, false);
    assert ps[0..] == ps;
    assert ps[3..] == [];
  }

  lemma UnclosedRegionDropped()
    ensures ColorizeResponse(Unclosed) == UnclosedPieces
    ensures StripThinkSegments(Unclosed) == "a"
  {
    StrippedAlready("a");
    UnclosedSplits();
    UnclosedPiecesWellFormed();
    ColorizeIsUniqueSegmentation(Unclosed, UnclosedPieces);
    FinalTextFromSegmentation(Unclosed, UnclosedPieces);
  }

  /** A region inside the opening marker's own letters: removing it leaves
      the answer text spelling a marker. */
  const Joined := "<thi<think>x</think>nk>"

  const JoinedPieces := [A("<thi"), M(Open), T("x"), M(Close), A("nk>")]

  lemma JoinedSplits()
    ensures Joined == "<thi" + (Open + ("x" + (Close + ("nk>" + ""))))
  {
  }

  lemma JoinedPiecesWellFormed()
    ensures WellFormed(JoinedPieces, false)
    ensures Payload(JoinedPieces) == "<thi" + (Open + ("x" + (Close + ("nk>" + ""))))
    ensures AnswerText(JoinedPieces) == "<thi" + ([] + ([] + ([] + ("nk>" + ""))))
  {
    var ps := JoinedPieces;
    ShortNoOccurrence("nk>", Open);
    StepRegion(ps, 4, false);
    StepMarker(ps, 3, true);
    ShortNoOccurrence("x", Close);
    StepRegion(ps, 2, true);
    StepMarker(ps, 1, false);
    ShortNoOccurrence("<thi", Open);
    StepRegion(ps, 0, false);
    assert ps[0..] == ps;
    assert ps[5..] == [];
  }

  lemma JoinedAnswerSpellsOpen()
    ensures "<thi" + ([] + ([] + ([] + ("nk>" + "")))) == Open
  {
  }

  lemma JoinedFinalText()
    ensures StripThinkSegments(Joined) == Open
  {
    StrippedAlready(Open);
    JoinedSplits();
    JoinedPiecesWellFormed();
    JoinedAnswerSpellsOpen();
    FinalTextFromSegmentation(Joined, JoinedPieces);
  }

  /** A lone opening marker is an empty, unclosed region. */
  lemma LoneOpenDropped()
    ensures StripThinkSegments(Open) == ""
  {
    var ps := [M(Open)];
    assert ps[1..] == [];
    assert WellFormed(ps, false);
    assert Payload(ps) == Open;
    assert AnswerText(ps) == [];
    FinalTextFromSegmentation(Open, ps);
    assert Strip([]) == [];
  }
}
