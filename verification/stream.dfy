/**
 The streaming reply loop of `call_ollama_stream`: every decoded fragment
 is classified by `print_stream_chunk`, the in-region flag is threaded from
 one fragment to the next, the non-empty answer strings are collected, and
 at the end `strip_think_segments` is applied once more to their join.
 The batch path `call_ollama_batch` joins the fragments first and
 classifies the whole response at once.

 The flag is threaded but the scan never looks across a fragment boundary,
 so a marker whose characters arrive in two fragments is not recognised.
 The central theorem here says that this is the only way the two paths can
 see different answer text: when no marker straddles a boundary, the
 fragment-by-fragment answer is the whole response's answer.
 */
module Stream {
  import opened Text
  import opened Segment

  /** One decoded line of the streamed reply: its `response` text and its
      `done` flag. */
  datatype Fragment = Fragment(response: string, done: bool)

  /** The state of the fold after some fragments: the flag, the pieces
      printed so far and the non-empty answer strings collected so far. */
  datatype Fold = Fold(inThink: bool, pieces: seq<Piece>, answerParts: seq<string>)

  /** What a reply shows and what it hands back for memory. */
  datatype Reply = Reply(display: seq<Piece>, finalText: string)

  /** The texts the loop consumes: every fragment up to and including the
      first one marked done. */
  function Delivered(frags: seq<Fragment>): (r: seq<string>)
    ensures |r| <= |frags|
    ensures forall k :: 0 <= k < |r| ==> r[k] == frags[k].response
    ensures forall k :: 0 <= k < |r| - 1 ==> !frags[k].done
    ensures |r| < |frags| ==> r != [] && frags[|r| - 1].done
    ensures frags != [] ==> r != []
  {
    if frags == [] then []
    else if frags[0].done then [frags[0].response]
    else [frags[0].response] + Delivered(frags[1..])
  }

  /** The classification of one fragment; an empty fragment is skipped,
      which leaves the flag alone and prints nothing. */
  function ChunkOf(response: string, inThink: bool): Chunk
  {
    if response != [] then PrintStreamChunk(response, inThink) else Chunk(inThink, [], [])
  }

  /** The loop over the fragments, starting in state `inThink`. */
  function FoldFragments(frags: seq<Fragment>, inThink: bool): Fold
  {
    if frags == [] then Fold(inThink, [], [])
    else
      var c := ChunkOf(frags[0].response, inThink);
      var part := if c.answer != [] then [c.answer] else [];
      if frags[0].done then Fold(c.inThink, c.pieces, part)
      else
        var rest := FoldFragments(frags[1..], c.inThink);
        Fold(rest.inThink, c.pieces + rest.pieces, part + rest.answerParts)
  }

  /** `call_ollama_stream` once the request has succeeded. */
  function StreamReply(frags: seq<Fragment>): (r: Reply)
    ensures Payload(r.display) == Concat(Delivered(frags))
  {
    var fold := FoldFragments(frags, false);
    StreamDisplayLossless(frags, false);
    Reply(fold.pieces, StripThinkSegments(Concat(fold.answerParts)))
  }

  /** `call_ollama_batch` once the request has succeeded: the batch loop
      reads every line, without looking at `done`. */
  function BatchReply(responses: seq<string>): (r: Reply)
    ensures Payload(r.display) == Concat(responses)
    ensures r.finalText == StripThinkSegments(Concat(responses))
  {
    var raw := Concat(responses);
    Reply(ColorizeResponse(raw), StripThinkSegments(raw))
  }

  // ---------------------------------------------------------------------
  // Boundaries.

  /** No occurrence of either marker in `a + b` starts inside `a` and ends
      inside `b`. */
  ghost predicate NoStraddle(a: string, b: string)
  {
    && (forall p :: p < |a| < p + |Open| ==> !OccursAt(a + b, Open, p))
    && (forall p :: p < |a| < p + |Close| ==> !OccursAt(a + b, Close, p))
  }

  /** No marker occurrence in the joined fragments crosses a boundary
      between two of them. */
  ghost predicate NoSplitMarkers(parts: seq<string>)
  {
    |parts| <= 1 || (NoStraddle(parts[0], Concat(parts[1..])) && NoSplitMarkers(parts[1..]))
  }

  /** Appending text after a complete match does not change it. */
  lemma {:induction false} MatchesExtend(a: string, b: string, pat: string, i: int, k: nat)
    requires 0 <= i && i + |pat| <= |a|
    ensures MatchesFrom(a + b, pat, i, k) == MatchesFrom(a, pat, i, k)
    decreases |pat| - k
  {
    if k < |pat| {
      MatchesExtend(a, b, pat, i, k + 1);
    }
  }

  /** Prepending text shifts a match by the length of what was prepended. */
  lemma {:induction false} MatchesPrefix(p: string, u: string, pat: string, j: nat, k: nat)
    ensures MatchesFrom(p + u, pat, |p| + j, k) == MatchesFrom(u, pat, j, k)
    decreases |pat| - k
  {
    if k < |pat| {
      MatchesPrefix(p, u, pat, j, k + 1);
      if j + k < |u| {
        assert (p + u)[|p| + j + k] == u[j + k];
      }
    }
  }

  /** Prepending text shifts the result of a search by its length. */
  lemma {:induction false} FindPrefix(p: string, u: string, pat: string, j: nat)
    ensures var g := Find(u, pat, j);
      Find(p + u, pat, |p| + j) == if g == -1 then -1 else |p| + g
    decreases |u| - j
  {
    if j + |pat| <= |u| {
      MatchesPrefix(p, u, pat, j, 0);
      if !MatchesFrom(u, pat, j, 0) {
        FindPrefix(p, u, pat, j + 1);
        assert |p| + j + 1 == |p| + (j + 1);
      }
    }
  }

  /** A search that starts at a position where nothing occurs gives what
      the search from the next position gives. */
  lemma FindSkip(text: string, pat: string, i: nat)
    requires !OccursAt(text, pat, i)
    ensures Find(text, pat, i) == Find(text, pat, i + 1)
  {
  }

  /** A search of `a + b` from `i` skips the positions in `[i, |a|)` when
      none of them holds an occurrence. */
  lemma {:induction false} FindFromBoundary(a: string, b: string, pat: string, i: nat)
    requires i <= |a|
    requires forall p :: i <= p < |a| ==> !OccursAt(a + b, pat, p)
    ensures Find(a + b, pat, i) == Find(a + b, pat, |a|)
    decreases |a| - i
  {
    if i < |a| {
      FindSkip(a + b, pat, i);
      FindFromBoundary(a, b, pat, i + 1);
    }
  }

  /** Searching `a + b` from inside `a`, when no occurrence straddles the
      boundary: an occurrence in `a` is found first, otherwise the first
      occurrence in `b`, shifted. */
  lemma {:induction false} FindConcat(a: string, b: string, pat: string, i: nat)
    requires i <= |a|
    requires forall p :: p < |a| < p + |pat| ==> !OccursAt(a + b, pat, p)
    ensures var fa := Find(a, pat, i);
      var fb := Find(b, pat, 0);
      Find(a + b, pat, i) == if fa != -1 then fa else if fb == -1 then -1 else |a| + fb
    decreases |a| - i
  {
    if i + |pat| > |a| {
      FindFromBoundary(a, b, pat, i);
      FindPrefix(a, b, pat, 0);
      assert |a| + 0 == |a|;
    } else {
      MatchesExtend(a, b, pat, i, 0);
      if !MatchesFrom(a, pat, i, 0) {
        FindConcat(a, b, pat, i + 1);
      }
    }
  }

  /** The slice of `p + u` at positions shifted by `|p|` is a slice of
      `u`. */
  lemma SliceOfAppend(p: string, u: string, lo: nat, hi: nat)
    requires lo <= hi <= |u|
    ensures (p + u)[|p| + lo..|p| + hi] == u[lo..hi]
    ensures (p + u)[|p| + lo..] == u[lo..]
  {
  }

  /** A slice of `a + b` that starts inside `a` and ends in `b`. */
  lemma SliceAcross(a: string, b: string, i: nat, hi: nat)
    requires i <= |a| && hi <= |b|
    ensures (a + b)[i..|a| + hi] == a[i..] + b[..hi]
    ensures (a + b)[i..] == a[i..] + b
  {
  }

  lemma AppendAssoc(x: string, y: string, z: string)
    ensures x + (y + z) == (x + y) + z
  {
  }

  // ---------------------------------------------------------------------
  // What a scan hands on: the flag and the answer text.

  /** The flag and the answer text `print_stream_chunk` returns, without
      the pieces it prints. */
  datatype ScanOutcome = ScanOutcome(inThink: bool, answer: string)

  /** The loop of `print_stream_chunk` from `idx` on, keeping only what it
      returns. */
  function OutcomeScan(text: string, idx: nat, inThink: bool): ScanOutcome
    requires idx <= |text|
    decreases |text| - idx, 1
  {
    if idx == |text| then ScanOutcome(inThink, [])
    else OutcomeFrom(text, idx, inThink, Find(text, Sought(inThink), idx))
  }

  /** One pass of that loop, once the search from `idx` has returned
      `f`. */
  function OutcomeFrom(text: string, idx: nat, inThink: bool, f: int): ScanOutcome
    requires idx < |text| && f == Find(text, Sought(inThink), idx)
    decreases |text| - idx, 0
  {
    var m := Sought(inThink);
    if f == -1 then ScanOutcome(inThink, if inThink then [] else text[idx..])
    else
      var rest := OutcomeScan(text, f + |m|, !inThink);
      ScanOutcome(rest.inThink, (if inThink then [] else text[idx..f]) + rest.answer)
  }

  /** What a scan returns. */
  function OutcomeOf(c: Chunk): ScanOutcome
  {
    ScanOutcome(c.inThink, c.answer)
  }

  /** One pass, with the position after the marker named by the caller. */
  lemma OutcomeStepAt(text: string, idx: nat, inThink: bool, f: int, next: nat)
    requires idx < |text| && f == Find(text, Sought(inThink), idx) && f != -1
    requires next == f + |Sought(inThink)|
    ensures var rest := OutcomeScan(text, next, !inThink);
      OutcomeScan(text, idx, inThink)
      == ScanOutcome(rest.inThink, (if inThink then [] else text[idx..f]) + rest.answer)
  {
    assert OutcomeScan(text, idx, inThink) == OutcomeFrom(text, idx, inThink, f);
  }

  /** The last pass: no further marker. */
  lemma OutcomeLast(text: string, idx: nat, inThink: bool)
    requires idx < |text| && Find(text, Sought(inThink), idx) == -1
    ensures OutcomeScan(text, idx, inThink) == ScanOutcome(inThink, if inThink then [] else text[idx..])
  {
    assert OutcomeScan(text, idx, inThink) == OutcomeFrom(text, idx, inThink, -1);
  }

  /** Dropping the pieces from `print_stream_chunk`'s loop leaves what it
      returns unchanged. */
  lemma {:induction false} ChunkScanOutcome(text: string, idx: nat, inThink: bool)
    requires idx <= |text|
    ensures OutcomeOf(ChunkScan(text, idx, inThink)) == OutcomeScan(text, idx, inThink)
    decreases |text| - idx
  {
    if idx < |text| {
      var m := Sought(inThink);
      var f := Find(text, m, idx);
      if f == -1 {
        ChunkLast(text, idx, inThink);
        OutcomeLast(text, idx, inThink);
      } else {
        ChunkScanOutcome(text, f + |m|, !inThink);
        ChunkOutcomeStep(text, idx, inThink, f, f + |m|);
      }
    }
  }

  /** `ChunkScanOutcome` carries over one pass. */
  lemma ChunkOutcomeStep(text: string, idx: nat, inThink: bool, f: int, next: nat)
    requires idx < |text| && f == Find(text, Sought(inThink), idx) && f != -1
    requires next == f + |Sought(inThink)|
    ensures OutcomeOf(ChunkScan(text, next, !inThink)) == OutcomeScan(text, next, !inThink)
            ==> OutcomeOf(ChunkScan(text, idx, inThink)) == OutcomeScan(text, idx, inThink)
  {
    ChunkStepAt(text, idx, inThink, f, next);
    OutcomeStepAt(text, idx, inThink, f, next);
  }

  /** Prepending text the scan does not reach leaves its outcome alone. */
  lemma {:induction false} OutcomePrefix(p: string, u: string, j: nat, inThink: bool)
    requires j <= |u|
    ensures OutcomeScan(p + u, |p| + j, inThink) == OutcomeScan(u, j, inThink)
    decreases |u| - j
  {
    if j < |u| {
      var m := Sought(inThink);
      var g := Find(u, m, j);
      if g == -1 {
        OutcomePrefixLast(p, u, j, inThink);
      } else {
        OutcomePrefix(p, u, g + |m|, !inThink);
        OutcomePrefixStep(p, u, j, inThink, g, g + |m|,
                          OutcomeScan(p + u, |p| + j, inThink), OutcomeScan(u, j, inThink));
      }
    }
  }

  /** `OutcomePrefix` when no further marker follows. */
  lemma OutcomePrefixLast(p: string, u: string, j: nat, inThink: bool)
    requires j < |u| && Find(u, Sought(inThink), j) == -1
    ensures OutcomeScan(p + u, |p| + j, inThink) == OutcomeScan(u, j, inThink)
  {
    FindPrefix(p, u, Sought(inThink), j);
    OutcomeLast(u, j, inThink);
    OutcomeLast(p + u, |p| + j, inThink);
    SliceOfAppend(p, u, j, |u|);
  }

  /** `OutcomePrefix` carries over one pass. */
  lemma OutcomePrefixStep(p: string, u: string, j: nat, inThink: bool, g: int, next: nat,
                          w: ScanOutcome, v: ScanOutcome)
    requires j < |u| && g == Find(u, Sought(inThink), j) && g != -1
    requires next == g + |Sought(inThink)|
    requires w == OutcomeScan(p + u, |p| + j, inThink) && v == OutcomeScan(u, j, inThink)
    ensures OutcomeScan(p + u, |p| + next, !inThink) == OutcomeScan(u, next, !inThink) ==> w == v
  {
    var m := Sought(inThink);
    FindPrefix(p, u, m, j);
    OccursAtIff(u, m, g);
    OutcomeStepAt(u, j, inThink, g, next);
    OutcomeStepAt(p + u, |p| + j, inThink, |p| + g, |p| + next);
    SliceOfAppend(p, u, j, g);
  }

  /** Scanning `a` and then `b` with the flag threaded. */
  function Threaded(a: string, b: string, i: nat, inThink: bool): ScanOutcome
    requires i <= |a|
  {
    var ra := OutcomeScan(a, i, inThink);
    var rb := OutcomeScan(b, 0, ra.inThink);
    ScanOutcome(rb.inThink, ra.answer + rb.answer)
  }

  /** The fragment theorem for two fragments: scanning `a` and then `b`
      with the flag threaded gives the flag and the answer text of
      scanning `a + b` at once, when no marker straddles the boundary. */
  lemma {:induction false} OutcomeConcat(a: string, b: string, i: nat, inThink: bool)
    requires i <= |a| && NoStraddle(a, b)
    ensures OutcomeScan(a + b, i, inThink) == Threaded(a, b, i, inThink)
    decreases |a| - i
  {
    if i == |a| {
      OutcomeAtBoundary(a, b, inThink);
    } else {
      var m := Sought(inThink);
      FindConcat(a, b, m, i);
      var fa := Find(a, m, i);
      if fa != -1 {
        OccursAtIff(a, m, fa);
        OutcomeConcat(a, b, fa + |m|, !inThink);
        OutcomeConcatStep(a, b, i, inThink, fa, fa + |m|);
      } else {
        OutcomeRestOfA(a, b, i, inThink);
      }
    }
  }

  /** `OutcomeConcat` when the scan of `a` has reached its end. */
  lemma OutcomeAtBoundary(a: string, b: string, inThink: bool)
    ensures OutcomeScan(a + b, |a|, inThink) == Threaded(a, b, |a|, inThink)
  {
    OutcomePrefix(a, b, 0, inThink);
    assert |a| + 0 == |a|;
    assert [] + OutcomeScan(b, 0, inThink).answer == OutcomeScan(b, 0, inThink).answer;
  }

  /** `OutcomeConcat` carries over a marker found in the first fragment. */
  lemma OutcomeConcatStep(a: string, b: string, i: nat, inThink: bool, fa: int, next: nat)
    requires i < |a| && fa == Find(a, Sought(inThink), i) && fa != -1
    requires next == fa + |Sought(inThink)| && next <= |a|
    requires Find(a + b, Sought(inThink), i) == fa
    ensures OutcomeScan(a + b, next, !inThink) == Threaded(a, b, next, !inThink)
            ==> OutcomeScan(a + b, i, inThink) == Threaded(a, b, i, inThink)
  {
    var rn := OutcomeScan(a, next, !inThink);
    var head := if inThink then [] else a[i..fa];
    OutcomeStepAt(a, i, inThink, fa, next);
    OutcomeStepAt(a + b, i, inThink, fa, next);
    assert (a + b)[i..fa] == a[i..fa];
    AppendAssoc(head, rn.answer, OutcomeScan(b, 0, rn.inThink).answer);
  }

  /** The case of `OutcomeConcat` where the rest of the first fragment
      holds no marker. */
  lemma OutcomeRestOfA(a: string, b: string, i: nat, inThink: bool)
    requires i < |a| && NoStraddle(a, b)
    requires Find(a, Sought(inThink), i) == -1
    ensures OutcomeScan(a + b, i, inThink) == Threaded(a, b, i, inThink)
  {
    var m := Sought(inThink);
    FindConcat(a, b, m, i);
    var fb := Find(b, m, 0);
    if fb == -1 {
      OutcomeNoMarker(a, b, i, inThink);
    } else {
      OutcomeIntoB(a, b, i, inThink, fb, fb + |m|,
                   OutcomeScan(a + b, i, inThink), Threaded(a, b, i, inThink));
    }
  }

  /** The case of `OutcomeRestOfA` where neither fragment holds a further
      marker. */
  lemma OutcomeNoMarker(a: string, b: string, i: nat, inThink: bool)
    requires i < |a| && Find(a, Sought(inThink), i) == -1
    requires Find(b, Sought(inThink), 0) == -1
    requires Find(a + b, Sought(inThink), i) == -1
    ensures OutcomeScan(a + b, i, inThink) == Threaded(a, b, i, inThink)
  {
    OutcomeLast(a, i, inThink);
    OutcomeLast(a + b, i, inThink);
    if b != [] {
      OutcomeLast(b, 0, inThink);
      assert b[0..] == b;
    }
    SliceAcross(a, b, i, 0);
  }

  /** The case of `OutcomeRestOfA` where the second fragment holds the
      next marker. */
  lemma OutcomeIntoB(a: string, b: string, i: nat, inThink: bool, fb: int, next: nat,
                     w: ScanOutcome, t: ScanOutcome)
    requires i < |a| && Find(a, Sought(inThink), i) == -1
    requires fb == Find(b, Sought(inThink), 0) && fb != -1
    requires next == fb + |Sought(inThink)|
    requires Find(a + b, Sought(inThink), i) == |a| + fb
    requires w == OutcomeScan(a + b, i, inThink) && t == Threaded(a, b, i, inThink)
    ensures w == t
  {
    var m := Sought(inThink);
    OccursAtIff(b, m, fb);
    OutcomeLast(a, i, inThink);
    OutcomeStepAt(a + b, i, inThink, |a| + fb, |a| + next);
    OutcomeStepAt(b, 0, inThink, fb, next);
    OutcomePrefix(a, b, next, !inThink);
    JoinAcross(a, b, i, fb, OutcomeScan(b, next, !inThink).answer, inThink);
  }

  /** The answer text of a region that starts in `a` and ends in `b`. */
  lemma JoinAcross(a: string, b: string, i: nat, fb: nat, y: string, inThink: bool)
    requires i <= |a| && fb <= |b|
    ensures (if inThink then [] else (a + b)[i..|a| + fb]) + y
            == (if inThink then [] else a[i..]) + ((if inThink then [] else b[0..fb]) + y)
  {
    if !inThink {
      SliceAcross(a, b, i, fb);
      assert b[..fb] == b[0..fb];
      AppendAssoc(a[i..], b[0..fb], y);
    } else {
      assert [] + ([] + y) == [] + y;
    }
  }

  // ---------------------------------------------------------------------
  // The fold.

  lemma ChunkOfIsChunk(response: string, inThink: bool)
    ensures ChunkOf(response, inThink) == PrintStreamChunk(response, inThink)
  {
  }

  /** The display shows every delivered character exactly once, in order. */
  lemma {:induction false} StreamDisplayLossless(frags: seq<Fragment>, inThink: bool)
    ensures Payload(FoldFragments(frags, inThink).pieces) == Concat(Delivered(frags))
    decreases |frags|
  {
    if frags != [] {
      var c := ChunkOf(frags[0].response, inThink);
      ChunkOfIsChunk(frags[0].response, inThink);
      if !frags[0].done {
        var rest := FoldFragments(frags[1..], c.inThink);
        StreamDisplayLossless(frags[1..], c.inThink);
        PayloadAppend(c.pieces, rest.pieces);
      }
    }
  }

  /** What the scan of one fragment returns; an empty fragment is
      skipped. */
  lemma ChunkOfOutcome(response: string, inThink: bool)
    ensures OutcomeOf(ChunkOf(response, inThink)) == OutcomeScan(response, 0, inThink)
  {
    ChunkScanOutcome(response, 0, inThink);
  }

  /** What the fold returns: the flag and the join of the answer strings. */
  function FoldOutcome(fold: Fold): ScanOutcome
  {
    ScanOutcome(fold.inThink, Concat(fold.answerParts))
  }

  /** When no marker straddles a fragment boundary, the per-fragment answer
      strings join to the answer text of the whole delivered response, and
      the flag ends where a scan of the whole response ends. */
  lemma {:induction false} StreamMatchesWhole(frags: seq<Fragment>, inThink: bool)
    requires NoSplitMarkers(Delivered(frags))
    ensures FoldOutcome(FoldFragments(frags, inThink))
            == OutcomeOf(PrintStreamChunk(Concat(Delivered(frags)), inThink))
  {
    FoldMatchesScan(frags, inThink);
    ChunkScanOutcome(Concat(Delivered(frags)), 0, inThink);
  }

  /** `StreamMatchesWhole`, in terms of the scan outcome. */
  lemma {:induction false} FoldMatchesScan(frags: seq<Fragment>, inThink: bool)
    requires NoSplitMarkers(Delivered(frags))
    ensures FoldOutcome(FoldFragments(frags, inThink))
            == OutcomeScan(Concat(Delivered(frags)), 0, inThink)
    decreases |frags|
  {
    if frags != [] {
      var a := frags[0].response;
      ChunkOfOutcome(a, inThink);
      if frags[0].done {
        FoldLast(frags, inThink);
      } else {
        var next := ChunkOf(a, inThink).inThink;
        FoldSplit(frags);
        FoldMatchesScan(frags[1..], next);
        FoldStep(frags, inThink, next);
      }
    } else {
      assert Concat([]) == [];
    }
  }

  /** The fold over a first fragment that is marked done. */
  lemma FoldLast(frags: seq<Fragment>, inThink: bool)
    requires frags != [] && frags[0].done
    ensures FoldOutcome(FoldFragments(frags, inThink))
            == OutcomeScan(Concat(Delivered(frags)), 0, inThink)
  {
    var a := frags[0].response;
    var c := ChunkOf(a, inThink);
    ChunkOfOutcome(a, inThink);
    var part := if c.answer != [] then [c.answer] else [];
    assert Concat(part) == c.answer;
    assert Concat([a]) == a;
  }

  /** The delivered texts of a fold that goes on past its first fragment. */
  lemma FoldSplit(frags: seq<Fragment>)
    requires frags != [] && !frags[0].done
    ensures Delivered(frags) == [frags[0].response] + Delivered(frags[1..])
    ensures Concat(Delivered(frags)) == frags[0].response + Concat(Delivered(frags[1..]))
    ensures NoSplitMarkers(Delivered(frags)) ==>
              NoStraddle(frags[0].response, Concat(Delivered(frags[1..])))
              && NoSplitMarkers(Delivered(frags[1..]))
  {
    var later := Delivered(frags[1..]);
    assert ([frags[0].response] + later)[1..] == later;
  }

  /** The fold matches the scan for one more fragment. */
  lemma FoldStep(frags: seq<Fragment>, inThink: bool, next: bool)
    requires frags != [] && !frags[0].done
    requires next == ChunkOf(frags[0].response, inThink).inThink
    requires NoSplitMarkers(Delivered(frags))
    ensures FoldOutcome(FoldFragments(frags[1..], next))
            == OutcomeScan(Concat(Delivered(frags[1..])), 0, next)
            ==> FoldOutcome(FoldFragments(frags, inThink))
                == OutcomeScan(Concat(Delivered(frags)), 0, inThink)
  {
    var a := frags[0].response;
    var b := Concat(Delivered(frags[1..]));
    ChunkOfOutcome(a, inThink);
    FoldSplit(frags);
    FoldUnfold(frags, inThink);
    OutcomeConcat(a, b, 0, inThink);
    assert a[0..] == a;
  }

  /** The fold's outcome past a first fragment that is not marked done. */
  lemma FoldUnfold(frags: seq<Fragment>, inThink: bool)
    requires frags != [] && !frags[0].done
    ensures var c := ChunkOf(frags[0].response, inThink);
      var rest := FoldOutcome(FoldFragments(frags[1..], c.inThink));
      FoldOutcome(FoldFragments(frags, inThink)) == ScanOutcome(rest.inThink, c.answer + rest.answer)
  {
    var c := ChunkOf(frags[0].response, inThink);
    var part := if c.answer != [] then [c.answer] else [];
    assert Concat(part) == c.answer;
    ConcatAppend(part, FoldFragments(frags[1..], c.inThink).answerParts);
  }

  /** Hence, from the initial state, the answer strings join to the text
      `strip_think_segments` keeps of the whole response, before
      stripping. */
  lemma StreamAnswerIsKeptText(frags: seq<Fragment>)
    requires NoSplitMarkers(Delivered(frags))
    ensures Concat(FoldFragments(frags, false).answerParts)
            == Concat(KeptSegments(Concat(Delivered(frags)), 0, false))
  {
    StreamMatchesWhole(frags, false);
    StreamChunkFromOutside(Concat(Delivered(frags)));
  }

  /** An answer text without an opening marker passes the second
      `strip_think_segments` untouched except for the stripping. */
  lemma RestripWithoutMarker(answer: string)
    requires !Contains(answer, Open)
    ensures StripThinkSegments(answer) == Strip(answer)
  {
    if answer != [] {
      var o := Find(answer, Open, 0);
      assert o == -1 || OccursAt(answer, Open, o);
      KeptLast(answer, 0, false);
      assert answer[0..] == answer;
    }
  }

  /** Stream and batch mode hand the same final text to memory when no
      marker straddles a fragment boundary and the collected answer text
      does not itself spell an opening marker. */
  lemma StreamAgreesWithBatch(frags: seq<Fragment>)
    requires NoSplitMarkers(Delivered(frags))
    requires !Contains(Concat(KeptSegments(Concat(Delivered(frags)), 0, false)), Open)
    ensures StreamReply(frags).finalText == BatchReply(Delivered(frags)).finalText
  {
    var whole := Concat(Delivered(frags));
    var kept := Concat(KeptSegments(whole, 0, false));
    StreamAnswerIsKeptText(frags);
    RestripWithoutMarker(kept);
    if whole == [] {
      assert kept == [];
    }
  }
}
