/**
 The think-marker segmentation engine. A model response is split, left to
 right, into "thinking" regions that run from `<think>` to the next
 `</think>` and "answer" text everywhere else. Three scanners share the
 classification loop: `StripThinkSegments` keeps only the answer text,
 `ColorizeResponse` wraps every piece of the response in a colour, and
 `PrintStreamChunk` classifies one streamed fragment, threading the
 in-region flag in and out.

 Printed output is modelled as the sequence of pieces the program would
 wrap in a colour and print; the ANSI escape strings themselves are
 replaced by the two-valued `Colour`.
 */
module Segment {
  import opened Text

  const Open: string := "<think>"
  const Close: string := "</think>"

  /** Thinking text (and both markers) versus final-answer text. */
  datatype Colour = Thinking | Answer

  /** One colour-wrapped print. `isMarker` distinguishes the echo of a
      marker from region text that happens to spell one. */
  datatype Piece = Piece(colour: Colour, text: string, isMarker: bool)

  /** The result of classifying one fragment: the flag after it, the pieces
      printed for it, and the answer text it contributed. */
  datatype Chunk = Chunk(inThink: bool, pieces: seq<Piece>, answer: string)

  /** The marker the scanner looks for in the given state. */
  function Sought(inThink: bool): string
  {
    if inThink then Close else Open
  }

  /** The colour of region text in the given state. */
  function RegionColour(inThink: bool): Colour
  {
    if inThink then Thinking else Answer
  }

  /** The flag after `n` markers, starting from `inThink`. */
  function Toggled(inThink: bool, n: nat): bool
  {
    if n == 0 then inThink else !Toggled(inThink, n - 1)
  }

  /** All printed text with the colour wrappers removed. */
  function Payload(pieces: seq<Piece>): string
  {
    if pieces == [] then "" else pieces[0].text + Payload(pieces[1..])
  }

  /** The text of the answer-coloured pieces, in order. */
  function AnswerText(pieces: seq<Piece>): string
  {
    if pieces == [] then ""
    else (if pieces[0].colour == Answer then pieces[0].text else "") + AnswerText(pieces[1..])
  }

  /** How many marker echoes were printed. */
  function MarkerCount(pieces: seq<Piece>): nat
  {
    if pieces == [] then 0
    else (if pieces[0].isMarker then 1 else 0) + MarkerCount(pieces[1..])
  }

  /** A region-text piece, or nothing when the text is empty (the scanners
      never print an empty segment). */
  function RegionPiece(inThink: bool, text: string): seq<Piece>
  {
    if text == [] then [] else [Piece(RegionColour(inThink), text, false)]
  }

  /**
   The segmentation rule, stated without scanning. Starting in state
   `inThink`, a well-formed piece sequence is a run of
     - marker echoes, each the marker sought in the current state, in the
       thinking colour, flipping the state; and
     - non-empty region text in the current state's colour, containing no
       occurrence of the sought marker, and followed by a marker or by the
       end (so that no two region pieces are adjacent).
   */
  ghost predicate WellFormed(pieces: seq<Piece>, inThink: bool)
    decreases |pieces|
  {
    pieces == [] ||
    var p := pieces[0];
    if p.isMarker then
      && p.colour == Thinking
      && p.text == Sought(inThink)
      && WellFormed(pieces[1..], !inThink)
    else
      && p.colour == RegionColour(inThink)
      && p.text != []
      && !Contains(p.text, Sought(inThink))
      && (|pieces| == 1 || (pieces[1].isMarker && WellFormed(pieces[1..], inThink)))
  }

  /** The answer segments `strip_think_segments` collects from position `idx`
      on, before joining and stripping. */
  function KeptSegments(text: string, idx: nat, inThink: bool): seq<string>
    requires idx <= |text|
    decreases |text| - idx, 1
  {
    if idx == |text| then []
    else KeptFrom(text, idx, inThink, Find(text, Sought(inThink), idx))
  }

  /** One pass of that loop, once the search for the sought marker from
      `idx` has returned `f`: an answer region keeps its non-empty text, a
      thinking region keeps nothing, and an unclosed thinking region ends
      the loop. */
  function KeptFrom(text: string, idx: nat, inThink: bool, f: int): seq<string>
    requires idx < |text| && f == Find(text, Sought(inThink), idx)
    decreases |text| - idx, 0
  {
    if f == -1 then (if inThink then [] else [text[idx..]])
    else (if !inThink && f > idx then [text[idx..f]] else [])
         + KeptSegments(text, f + |Sought(inThink)|, !inThink)
  }

  /** Every segment is non-empty and free of the opening marker. */
  ghost predicate CleanSegments(r: seq<string>)
  {
    forall k :: 0 <= k < |r| ==> r[k] != [] && !Contains(r[k], Open)
  }

  /** Every segment `strip_think_segments` keeps is non-empty and free of
      the opening marker. */
  lemma {:induction false} KeptSegmentsClean(text: string, idx: nat, inThink: bool)
    requires idx <= |text|
    ensures CleanSegments(KeptSegments(text, idx, inThink))
    decreases |text| - idx
  {
    if idx < |text| {
      var m := Sought(inThink);
      var f := Find(text, m, idx);
      if f == -1 {
        KeptCleanLast(text, idx, inThink);
      } else {
        KeptSegmentsClean(text, f + |m|, !inThink);
        KeptCleanStep(text, idx, inThink, f, f + |m|);
      }
    }
  }

  /** The last pass of `strip_think_segments` keeps a clean segment. */
  lemma KeptCleanLast(text: string, idx: nat, inThink: bool)
    requires idx < |text| && Find(text, Sought(inThink), idx) == -1
    ensures CleanSegments(KeptSegments(text, idx, inThink))
  {
    assert KeptSegments(text, idx, inThink) == KeptFrom(text, idx, inThink, -1);
    if !inThink {
      FindIsFirst(text, Open, idx);
      SliceAvoids(text, Open, idx, |text|);
      assert text[idx..|text|] == text[idx..];
    }
  }

  /** Cleanliness carries over one pass of `strip_think_segments`. */
  lemma KeptCleanStep(text: string, idx: nat, inThink: bool, f: int, next: nat)
    requires idx < |text| && f == Find(text, Sought(inThink), idx) && f != -1
    requires next == f + |Sought(inThink)|
    ensures CleanSegments(KeptSegments(text, next, !inThink))
            ==> CleanSegments(KeptSegments(text, idx, inThink))
  {
    var rest := KeptSegments(text, next, !inThink);
    var head := if !inThink && f > idx then [text[idx..f]] else [];
    assert KeptSegments(text, idx, inThink) == head + rest;
    if CleanSegments(rest) {
      if head == [] {
        assert head + rest == rest;
      } else {
        FindIsFirst(text, Open, idx);
        SliceAvoids(text, Open, idx, f);
        CleanPrepend(text[idx..f], rest);
      }
    }
  }

  /** Prepending a clean segment to clean segments keeps them clean. */
  lemma CleanPrepend(s: string, rest: seq<string>)
    requires s != [] && !Contains(s, Open) && CleanSegments(rest)
    ensures CleanSegments([s] + rest)
  {
    var r := [s] + rest;
    assert forall k :: 1 <= k < |r| ==> r[k] == rest[k - 1];
  }

  /** `strip_think_segments`: the response with its thinking regions and
      markers removed, whitespace-stripped. */
  function StripThinkSegments(text: string): (r: string)
    ensures text == [] ==> r == []
    ensures r == [] || (r[0] !in Whitespace && r[|r| - 1] !in Whitespace)
  {
    if text == [] then [] else Strip(Concat(KeptSegments(text, 0, false)))
  }

  /** The pieces `colorize_response` prints from position `idx` on. */
  function ColorScan(text: string, idx: nat, inThink: bool): seq<Piece>
    requires idx <= |text|
    decreases |text| - idx, 1
  {
    if idx == |text| then []
    else ColorFrom(text, idx, inThink, Find(text, Sought(inThink), idx))
  }

  /** One pass of that loop, once the search for the sought marker from
      `idx` has returned `f`. */
  function ColorFrom(text: string, idx: nat, inThink: bool, f: int): seq<Piece>
    requires idx < |text| && f == Find(text, Sought(inThink), idx)
    decreases |text| - idx, 0
  {
    var m := Sought(inThink);
    if f == -1 then [Piece(RegionColour(inThink), text[idx..], false)]
    else RegionPiece(inThink, text[idx..f]) + [Piece(Thinking, m, true)]
         + ColorScan(text, f + |m|, !inThink)
  }

  /** `colorize_response`: the whole response as colour-wrapped pieces. */
  function ColorizeResponse(text: string): (r: seq<Piece>)
    ensures Payload(r) == text
    ensures WellFormed(r, false)
  {
    ColorScanSound(text, 0, false);
    if text == [] then [] else ColorScan(text, 0, false)
  }

  /** The loop of `print_stream_chunk` from position `idx` on. */
  function ChunkScan(text: string, idx: nat, inThink: bool): Chunk
    requires idx <= |text|
    decreases |text| - idx, 1
  {
    if idx == |text| then Chunk(inThink, [], [])
    else ChunkFrom(text, idx, inThink, Find(text, Sought(inThink), idx))
  }

  /** One pass of that loop, once the search for the sought marker from
      `idx` has returned `f`. */
  function ChunkFrom(text: string, idx: nat, inThink: bool, f: int): Chunk
    requires idx < |text| && f == Find(text, Sought(inThink), idx)
    decreases |text| - idx, 0
  {
    var m := Sought(inThink);
    if f == -1 then
      Chunk(inThink, [Piece(RegionColour(inThink), text[idx..], false)],
            if inThink then [] else text[idx..])
    else
      var rest := ChunkScan(text, f + |m|, !inThink);
      Chunk(rest.inThink,
            RegionPiece(inThink, text[idx..f]) + [Piece(Thinking, m, true)] + rest.pieces,
            (if inThink then [] else text[idx..f]) + rest.answer)
  }

  /** `print_stream_chunk`: classifies one fragment starting in state
      `inThink`. */
  function PrintStreamChunk(text: string, inThink: bool): (r: Chunk)
    ensures Payload(r.pieces) == text
    ensures WellFormed(r.pieces, inThink)
    ensures r.answer == AnswerText(r.pieces)
    ensures r.inThink == Toggled(inThink, MarkerCount(r.pieces))
    ensures inThink && !Contains(text, Close) ==> r.inThink && r.answer == []
  {
    ChunkScanAgrees(text, 0, inThink);
    ColorScanSound(text, 0, inThink);
    ChunkScan(text, 0, inThink)
  }

  // ---------------------------------------------------------------------
  // Algebra of the piece summaries.

  lemma {:induction false} PayloadAppend(a: seq<Piece>, b: seq<Piece>)
    ensures Payload(a + b) == Payload(a) + Payload(b)
    decreases |a|
  {
    if a != [] {
      assert (a + b)[1..] == a[1..] + b;
      PayloadAppend(a[1..], b);
    } else {
      assert a + b == b;
    }
  }

  lemma {:induction false} AnswerTextAppend(a: seq<Piece>, b: seq<Piece>)
    ensures AnswerText(a + b) == AnswerText(a) + AnswerText(b)
    decreases |a|
  {
    if a != [] {
      assert (a + b)[1..] == a[1..] + b;
      AnswerTextAppend(a[1..], b);
    } else {
      assert a + b == b;
    }
  }

  lemma {:induction false} MarkerCountAppend(a: seq<Piece>, b: seq<Piece>)
    ensures MarkerCount(a + b) == MarkerCount(a) + MarkerCount(b)
    decreases |a|
  {
    if a != [] {
      assert (a + b)[1..] == a[1..] + b;
      MarkerCountAppend(a[1..], b);
    } else {
      assert a + b == b;
    }
  }

  /** The summaries of a region piece, a marker echo and what follows. */
  lemma StepSummaries(inThink: bool, seg: string, m: string, rest: seq<Piece>)
    requires m != []
    ensures var ps := RegionPiece(inThink, seg) + [Piece(Thinking, m, true)] + rest;
      && Payload(ps) == seg + m + Payload(rest)
      && AnswerText(ps) == (if inThink then [] else seg) + AnswerText(rest)
      && MarkerCount(ps) == 1 + MarkerCount(rest)
  {
    var head := RegionPiece(inThink, seg) + [Piece(Thinking, m, true)];
    PayloadAppend(head, rest);
    AnswerTextAppend(head, rest);
    MarkerCountAppend(head, rest);
    PayloadAppend(RegionPiece(inThink, seg), [Piece(Thinking, m, true)]);
    AnswerTextAppend(RegionPiece(inThink, seg), [Piece(Thinking, m, true)]);
    MarkerCountAppend(RegionPiece(inThink, seg), [Piece(Thinking, m, true)]);
  }

  // ---------------------------------------------------------------------
  // The scanners agree with the segmentation rule and with each other.

  /** A region piece that avoids the sought marker, that marker's echo and
      a well-formed continuation in the flipped state are well formed. */
  lemma StepWellFormed(inThink: bool, seg: string, rest: seq<Piece>)
    requires !Contains(seg, Sought(inThink))
    requires WellFormed(rest, !inThink)
    ensures WellFormed(RegionPiece(inThink, seg) + [Piece(Thinking, Sought(inThink), true)] + rest, inThink)
  {
    var tail := [Piece(Thinking, Sought(inThink), true)] + rest;
    assert tail[1..] == rest;
    assert WellFormed(tail, inThink);
    var ps := RegionPiece(inThink, seg) + tail;
    if seg != [] {
      assert ps[1..] == tail;
    } else {
      assert ps == tail;
    }
  }

  /** One step of the scan: the text from `idx` is the region text up to
      the marker at `f`, the marker, and the text after it. */
  lemma SplitAtMarker(text: string, idx: nat, f: nat, m: string)
    requires idx <= f && OccursAt(text, m, f)
    ensures text[idx..] == text[idx..f] + m + text[f + |m|..]
  {
    OccursAtIff(text, m, f);
  }

  /** `colorize_response` loses nothing and obeys the segmentation rule. */
  lemma {:induction false} ColorScanSound(text: string, idx: nat, inThink: bool)
    requires idx <= |text|
    ensures ColorSound(text, idx, inThink)
    decreases |text| - idx
  {
    if idx < |text| {
      var m := Sought(inThink);
      var f := Find(text, m, idx);
      if f == -1 {
        ColorLastSound(text, idx, inThink);
      } else {
        ColorScanSound(text, f + |m|, !inThink);
        ColorStepSound(text, idx, inThink, f, f + |m|);
      }
    }
  }

  /** The pieces printed from `idx` on spell out the rest of the text and
      obey the segmentation rule. */
  ghost predicate ColorSound(text: string, idx: nat, inThink: bool)
    requires idx <= |text|
  {
    && Payload(ColorScan(text, idx, inThink)) == text[idx..]
    && WellFormed(ColorScan(text, idx, inThink), inThink)
  }

  /** The last pass of `colorize_response`: no further marker. */
  lemma ColorLastSound(text: string, idx: nat, inThink: bool)
    requires idx < |text| && Find(text, Sought(inThink), idx) == -1
    ensures ColorSound(text, idx, inThink)
  {
    var m := Sought(inThink);
    FindIsFirst(text, m, idx);
    SliceAvoids(text, m, idx, |text|);
    assert text[idx..|text|] == text[idx..];
  }

  /** Soundness carries over one pass of `colorize_response`. */
  lemma ColorStepSound(text: string, idx: nat, inThink: bool, f: int, next: nat)
    requires idx < |text| && f == Find(text, Sought(inThink), idx) && f != -1
    requires next == f + |Sought(inThink)|
    ensures ColorSound(text, next, !inThink) ==> ColorSound(text, idx, inThink)
  {
    var m := Sought(inThink);
    var rest := ColorScan(text, next, !inThink);
    assert ColorScan(text, idx, inThink)
           == RegionPiece(inThink, text[idx..f]) + [Piece(Thinking, m, true)] + rest;
    if ColorSound(text, next, !inThink) {
      FindIsFirst(text, m, idx);
      SliceAvoids(text, m, idx, f);
      StepSummaries(inThink, text[idx..f], m, rest);
      SplitAtMarker(text, idx, f, m);
      StepWellFormed(inThink, text[idx..f], rest);
    }
  }

  /** `print_stream_chunk` prints exactly what `colorize_response` would. */
  lemma {:induction false} ChunkScanPieces(text: string, idx: nat, inThink: bool)
    requires idx <= |text|
    ensures ChunkScan(text, idx, inThink).pieces == ColorScan(text, idx, inThink)
    decreases |text| - idx
  {
    if idx < |text| {
      var f := Find(text, Sought(inThink), idx);
      if f != -1 {
        ChunkScanPieces(text, f + |Sought(inThink)|, !inThink);
      }
    }
  }

  /** The answer string of a scan is the text of its answer-coloured
      pieces. */
  ghost predicate AnswerAgrees(c: Chunk)
  {
    c.answer == AnswerText(c.pieces)
  }

  /** The answer string of `print_stream_chunk` is its answer-coloured
      text. */
  lemma {:induction false} ChunkScanAnswer(text: string, idx: nat, inThink: bool)
    requires idx <= |text|
    ensures AnswerAgrees(ChunkScan(text, idx, inThink))
    decreases |text| - idx
  {
    if idx < |text| {
      var m := Sought(inThink);
      var f := Find(text, m, idx);
      if f != -1 {
        ChunkScanAnswer(text, f + |m|, !inThink);
        ChunkAnswerStep(text, idx, inThink, f, f + |m|);
      } else {
        ChunkLast(text, idx, inThink);
      }
    }
  }

  /** The flag `print_stream_chunk` returns is the starting flag toggled
      once per marker it found. */
  lemma {:induction false} ChunkScanFlag(text: string, idx: nat, inThink: bool)
    requires idx <= |text|
    ensures ChunkScan(text, idx, inThink).inThink
            == Toggled(inThink, MarkerCount(ChunkScan(text, idx, inThink).pieces))
    decreases |text| - idx
  {
    if idx < |text| {
      var m := Sought(inThink);
      var f := Find(text, m, idx);
      if f != -1 {
        var next := f + |m|;
        ChunkScanFlag(text, next, !inThink);
        ChunkFlagStep(text, idx, inThink, f, next);
      } else {
        ChunkLast(text, idx, inThink);
      }
    }
  }

  /** The summaries of one scan step in terms of the step after it. */
  lemma ChunkStepSummaries(text: string, idx: nat, inThink: bool, f: int)
    requires idx < |text| && f == Find(text, Sought(inThink), idx) && f != -1
    ensures var rest := ChunkScan(text, f + |Sought(inThink)|, !inThink);
      var r := ChunkScan(text, idx, inThink);
      && r.inThink == rest.inThink
      && AnswerText(r.pieces) == (if inThink then [] else text[idx..f]) + AnswerText(rest.pieces)
      && r.answer == (if inThink then [] else text[idx..f]) + rest.answer
      && MarkerCount(r.pieces) == 1 + MarkerCount(rest.pieces)
  {
    var m := Sought(inThink);
    var rest := ChunkScan(text, f + |m|, !inThink);
    var r := ChunkScan(text, idx, inThink);
    assert r == ChunkFrom(text, idx, inThink, f);
    var ps := RegionPiece(inThink, text[idx..f]) + [Piece(Thinking, m, true)] + rest.pieces;
    assert r.pieces == ps;
    assert r.inThink == rest.inThink;
    assert r.answer == (if inThink then [] else text[idx..f]) + rest.answer;
    StepSummaries(inThink, text[idx..f], m, rest.pieces);
  }

  /** One more marker flips the flag once more. */
  lemma {:induction false} ToggledStep(inThink: bool, n: nat)
    ensures Toggled(inThink, 1 + n) == Toggled(!inThink, n)
  {
    if n > 0 {
      ToggledStep(inThink, n - 1);
    }
  }

  /** One scan step, with the position after the marker named by the
      caller. */
  lemma ChunkStepAt(text: string, idx: nat, inThink: bool, f: int, next: nat)
    requires idx < |text| && f == Find(text, Sought(inThink), idx) && f != -1
    requires next == f + |Sought(inThink)|
    ensures ChunkScan(text, idx, inThink).inThink == ChunkScan(text, next, !inThink).inThink
    ensures ChunkScan(text, idx, inThink).answer
            == (if inThink then [] else text[idx..f]) + ChunkScan(text, next, !inThink).answer
  {
    ChunkStepSummaries(text, idx, inThink, f);
  }

  /** One scan step, for the summaries of the printed pieces. */
  lemma ChunkStepPieces(text: string, idx: nat, inThink: bool, f: int, next: nat)
    requires idx < |text| && f == Find(text, Sought(inThink), idx) && f != -1
    requires next == f + |Sought(inThink)|
    ensures AnswerText(ChunkScan(text, idx, inThink).pieces)
            == (if inThink then [] else text[idx..f]) + AnswerText(ChunkScan(text, next, !inThink).pieces)
    ensures MarkerCount(ChunkScan(text, idx, inThink).pieces)
            == 1 + MarkerCount(ChunkScan(text, next, !inThink).pieces)
  {
    ChunkStepSummaries(text, idx, inThink, f);
  }

  /** The answer-text agreement carries over one scan step. */
  lemma ChunkAnswerStep(text: string, idx: nat, inThink: bool, f: int, next: nat)
    requires idx < |text| && f == Find(text, Sought(inThink), idx) && f != -1
    requires next == f + |Sought(inThink)|
    ensures AnswerAgrees(ChunkScan(text, next, !inThink)) ==> AnswerAgrees(ChunkScan(text, idx, inThink))
  {
    ChunkStepAt(text, idx, inThink, f, next);
    ChunkStepPieces(text, idx, inThink, f, next);
  }

  /** The flag agreement carries over one scan step. */
  lemma ChunkFlagStep(text: string, idx: nat, inThink: bool, f: int, next: nat)
    requires idx < |text| && f == Find(text, Sought(inThink), idx) && f != -1
    requires next == f + |Sought(inThink)|
    ensures ChunkScan(text, next, !inThink).inThink
            == Toggled(!inThink, MarkerCount(ChunkScan(text, next, !inThink).pieces))
            ==> ChunkScan(text, idx, inThink).inThink
                == Toggled(inThink, MarkerCount(ChunkScan(text, idx, inThink).pieces))
  {
    ChunkStepAt(text, idx, inThink, f, next);
    ChunkStepPieces(text, idx, inThink, f, next);
    ToggledStep(inThink, MarkerCount(ChunkScan(text, next, !inThink).pieces));
  }

  /** The kept-text agreement carries over one scan step. */
  lemma ChunkKeptStep(text: string, idx: nat, inThink: bool, f: int, next: nat)
    requires idx < |text| && f == Find(text, Sought(inThink), idx) && f != -1
    requires next == f + |Sought(inThink)|
    ensures ChunkScan(text, next, !inThink).answer == Concat(KeptSegments(text, next, !inThink))
            ==> ChunkScan(text, idx, inThink).answer == Concat(KeptSegments(text, idx, inThink))
  {
    ChunkStepAt(text, idx, inThink, f, next);
    KeptStepAt(text, idx, inThink, f, next);
  }

  /** The last step of a scan: no further marker. */
  lemma ChunkLast(text: string, idx: nat, inThink: bool)
    requires idx < |text| && Find(text, Sought(inThink), idx) == -1
    ensures ChunkScan(text, idx, inThink).inThink == inThink
    ensures ChunkScan(text, idx, inThink).answer == if inThink then [] else text[idx..]
    ensures AnswerText(ChunkScan(text, idx, inThink).pieces) == if inThink then [] else text[idx..]
    ensures MarkerCount(ChunkScan(text, idx, inThink).pieces) == 0
  {
    var only := Piece(RegionColour(inThink), text[idx..], false);
    assert ChunkScan(text, idx, inThink).pieces == [only];
    assert [only][1..] == [];
  }

  /** One step of `strip_think_segments`, in the same terms. */
  lemma KeptStepAt(text: string, idx: nat, inThink: bool, f: int, next: nat)
    requires idx < |text| && f == Find(text, Sought(inThink), idx) && f != -1
    requires next == f + |Sought(inThink)|
    ensures Concat(KeptSegments(text, idx, inThink))
            == (if inThink then [] else text[idx..f]) + Concat(KeptSegments(text, next, !inThink))
  {
    var head := if !inThink && f > idx then [text[idx..f]] else [];
    var kept := KeptSegments(text, next, !inThink);
    assert KeptSegments(text, idx, inThink) == head + kept;
    ConcatAppend(head, kept);
    assert Concat(head) == if inThink then [] else text[idx..f];
  }

  /** The last step of `strip_think_segments`. */
  lemma KeptLast(text: string, idx: nat, inThink: bool)
    requires idx < |text| && Find(text, Sought(inThink), idx) == -1
    ensures Concat(KeptSegments(text, idx, inThink)) == if inThink then [] else text[idx..]
  {
    assert KeptSegments(text, idx, inThink) == KeptFrom(text, idx, inThink, -1);
    if !inThink {
      assert Concat([text[idx..]]) == text[idx..] + Concat([]);
    }
  }

  /** The answer string of `print_stream_chunk` is the join
      `strip_think_segments` builds before stripping. */
  lemma {:induction false} ChunkScanKept(text: string, idx: nat, inThink: bool)
    requires idx <= |text|
    ensures ChunkScan(text, idx, inThink).answer == Concat(KeptSegments(text, idx, inThink))
    decreases |text| - idx
  {
    if idx < |text| {
      var m := Sought(inThink);
      var f := Find(text, m, idx);
      if f != -1 {
        ChunkScanKept(text, f + |m|, !inThink);
        ChunkKeptStep(text, idx, inThink, f, f + |m|);
      } else {
        ChunkLast(text, idx, inThink);
        KeptLast(text, idx, inThink);
      }
    }
  }

  /** The three facts together. */
  lemma ChunkScanAgrees(text: string, idx: nat, inThink: bool)
    requires idx <= |text|
    ensures var r := ChunkScan(text, idx, inThink);
      && r.pieces == ColorScan(text, idx, inThink)
      && r.answer == AnswerText(r.pieces)
      && r.inThink == Toggled(inThink, MarkerCount(r.pieces))
      && r.answer == Concat(KeptSegments(text, idx, inThink))
  {
    ChunkScanPieces(text, idx, inThink);
    ChunkScanAnswer(text, idx, inThink);
    ChunkScanFlag(text, idx, inThink);
    ChunkScanKept(text, idx, inThink);
  }

  // ---------------------------------------------------------------------
  // The segmentation rule has exactly one solution per text.

  /** The two markers are the only sought patterns. */
  predicate IsMarker(m: string)
  {
    m == Open || m == Close
  }

  /** Two occurrences of the same marker never overlap: `<` appears in a
      marker only as its first character. */
  lemma MarkerOverlapFree(t: string, m: string, p: int, q: int)
    requires IsMarker(m)
    requires OccursAt(t, m, p) && OccursAt(t, m, q) && p < q
    ensures p + |m| <= q
  {
    if q - p < |m| {
      NoOccurrenceInside(t, m, p, q - p);
    }
  }

  /** Within an occurrence of a marker, no second occurrence starts. */
  lemma NoOccurrenceInside(t: string, m: string, p: int, d: int)
    requires IsMarker(m) && OccursAt(t, m, p) && 1 <= d < |m|
    ensures !OccursAt(t, m, p + d)
  {
    OccursAtChars(t, m, p);
    assert t[p + d] == m[d];
    assert m[d] != m[0];
  }

  /** A well-formed piece sequence that is not empty prints something. */
  lemma NonEmptyPayload(pieces: seq<Piece>, inThink: bool)
    requires WellFormed(pieces, inThink) && pieces != []
    ensures Payload(pieces) != []
  {
    assert pieces[0].text != [];
  }

  /** The first piece of a well-formed sequence is fixed by where the sought
      marker first occurs in its payload: a marker echo when it occurs at 0,
      otherwise region text up to that occurrence (or to the end). */
  lemma LeadMatchesFind(pieces: seq<Piece>, inThink: bool)
    requires WellFormed(pieces, inThink) && pieces != []
    ensures var x := Payload(pieces);
      var f := Find(x, Sought(inThink), 0);
      && (pieces[0].isMarker <==> f == 0)
      && (!pieces[0].isMarker ==> |pieces[0].text| == (if f == -1 then |x| else f))
  {
    if pieces[0].isMarker {
      LeadMarker(pieces, inThink);
    } else if |pieces| == 1 {
      LeadOnlyRegion(pieces, inThink);
    } else {
      LeadRegionThenMarker(pieces, inThink);
    }
  }

  /** A leading marker echo is found at position 0. */
  lemma LeadMarker(pieces: seq<Piece>, inThink: bool)
    requires WellFormed(pieces, inThink) && pieces != [] && pieces[0].isMarker
    ensures Find(Payload(pieces), Sought(inThink), 0) == 0
  {
    var m := Sought(inThink);
    var x := Payload(pieces);
    assert x == m + Payload(pieces[1..]);
    assert x[0..|m|] == m;
    OccursAtIff(x, m, 0);
  }

  /** A lone region piece holds no sought marker. */
  lemma LeadOnlyRegion(pieces: seq<Piece>, inThink: bool)
    requires WellFormed(pieces, inThink) && |pieces| == 1 && !pieces[0].isMarker
    ensures Find(Payload(pieces), Sought(inThink), 0) == -1
    ensures Payload(pieces) == pieces[0].text
  {
    var m := Sought(inThink);
    var x := Payload(pieces);
    assert x == pieces[0].text + Payload(pieces[1..]);
    assert pieces[1..] == [];
    assert x == pieces[0].text;
    var f := Find(x, m, 0);
    assert f == -1 || OccursAt(x, m, f);
  }

  /** A region piece followed by a marker echo: the search stops at the
      echo. */
  lemma LeadRegionThenMarker(pieces: seq<Piece>, inThink: bool)
    requires WellFormed(pieces, inThink) && |pieces| > 1 && !pieces[0].isMarker
    ensures Find(Payload(pieces), Sought(inThink), 0) == |pieces[0].text|
  {
    var m := Sought(inThink);
    var t := pieces[0].text;
    var x := Payload(pieces);
    var next := pieces[1..];
    assert next[0].text == m;
    assert x == t + Payload(next);
    assert Payload(next) == m + Payload(next[1..]);
    assert OccursAt(x, m, |t|) by {
      assert x[|t|..|t| + |m|] == m;
      OccursAtIff(x, m, |t|);
    }
    forall q | OccursAt(x, m, q)
      ensures |t| <= q
    {
      if q < |t| {
        MarkerOverlapFree(x, m, q, |t|);
        assert x[..|t|] == t;
        OccursToSlice(x, 0, |t|, m, q);
      }
    }
    FindIsFirst(x, m, 0);
  }

  /** Two well-formed sequences with the same payload start alike. */
  lemma LeadingPieceAgrees(p1: seq<Piece>, p2: seq<Piece>, inThink: bool)
    requires WellFormed(p1, inThink) && WellFormed(p2, inThink)
    requires p1 != [] && p2 != [] && Payload(p1) == Payload(p2)
    ensures p1[0] == p2[0]
  {
    LeadMatchesFind(p1, inThink);
    LeadMatchesFind(p2, inThink);
    var x := Payload(p1);
    assert x == p1[0].text + Payload(p1[1..]);
    assert x == p2[0].text + Payload(p2[1..]);
    assert x[..|p1[0].text|] == p1[0].text;
    assert x[..|p2[0].text|] == p2[0].text;
  }

  /** The segmentation rule has at most one solution for a given payload. */
  lemma {:induction false} WellFormedUnique(p1: seq<Piece>, p2: seq<Piece>, inThink: bool)
    requires WellFormed(p1, inThink) && WellFormed(p2, inThink)
    requires Payload(p1) == Payload(p2)
    ensures p1 == p2
    decreases |p1|
  {
    if p1 == [] || p2 == [] {
      if p1 != [] { NonEmptyPayload(p1, inThink); }
      if p2 != [] { NonEmptyPayload(p2, inThink); }
    } else {
      LeadingPieceAgrees(p1, p2, inThink);
      var t := p1[0].text;
      var r1 := Payload(p1[1..]);
      var r2 := Payload(p2[1..]);
      assert (t + r1)[|t|..] == r1;
      assert (t + r2)[|t|..] == r2;
      var next := if p1[0].isMarker then !inThink else inThink;
      assert WellFormed(p1[1..], next);
      assert WellFormed(p2[1..], next);
      WellFormedUnique(p1[1..], p2[1..], next);
    }
  }

  /** `colorize_response` is the unique segmentation of the response: any
      well-formed piece sequence that prints the response is its output. */
  lemma ColorizeIsUniqueSegmentation(text: string, pieces: seq<Piece>)
    requires WellFormed(pieces, false) && Payload(pieces) == text
    ensures ColorizeResponse(text) == pieces
  {
    WellFormedUnique(ColorizeResponse(text), pieces, false);
  }

  /** Likewise for one streamed fragment in either state. */
  lemma ChunkIsUniqueSegmentation(text: string, inThink: bool, pieces: seq<Piece>)
    requires WellFormed(pieces, inThink) && Payload(pieces) == text
    ensures PrintStreamChunk(text, inThink)
            == Chunk(Toggled(inThink, MarkerCount(pieces)), pieces, AnswerText(pieces))
  {
    WellFormedUnique(PrintStreamChunk(text, inThink).pieces, pieces, inThink);
  }

  /** `colorize_response` and `strip_think_segments` classify alike: the
      stripped answer-coloured text is the stripped-down response. */
  lemma ColorizeAgreesWithStrip(text: string)
    ensures StripThinkSegments(text) == Strip(AnswerText(ColorizeResponse(text)))
  {
    ChunkScanAgrees(text, 0, false);
    if text == [] {
      assert Strip([]) == [];
    }
  }

  /** The final text of a response, read off any well-formed segmentation
      of it. */
  lemma FinalTextFromSegmentation(text: string, pieces: seq<Piece>)
    requires WellFormed(pieces, false) && Payload(pieces) == text
    ensures StripThinkSegments(text) == Strip(AnswerText(pieces))
  {
    ColorizeIsUniqueSegmentation(text, pieces);
    ColorizeAgreesWithStrip(text);
  }

  /** Started outside a region, `print_stream_chunk` prints what
      `colorize_response` prints and its answer string is the join
      `strip_think_segments` strips. */
  lemma StreamChunkFromOutside(text: string)
    ensures PrintStreamChunk(text, false).pieces == ColorizeResponse(text)
    ensures PrintStreamChunk(text, false).answer == Concat(KeptSegments(text, 0, false))
  {
    ChunkScanAgrees(text, 0, false);
  }
}
