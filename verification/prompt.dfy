/**
 The message the client sends to the model. It is built in two layers.
 `compose_prompt` joins the system prompt, the user prompt and the data with
 blank lines between them and skips whatever is empty or only whitespace.
 In interactive mode the data slot holds the conversation input: the
 remembered history followed by the current user message.
 */
module Prompt {
  import opened Text

  /** A part Python's `part and part.strip()` rejects: empty, or made only
      of whitespace. */
  predicate IsBlank(s: string)
  {
    forall k :: 0 <= k < |s| ==> s[k] in Whitespace
  }

  /** The test `compose_prompt` applies is exactly "not blank". */
  lemma KeepTestIsNotBlank(s: string)
    ensures (s != [] && Strip(s) != []) <==> !IsBlank(s)
  {
  }

  /** `part.strip("\n")`: only newlines are cut from the ends. */
  function TrimNewlines(s: string): string
  {
    StripSet(s, {'\n'})
  }

  /** Cutting the newlines off a part that is not blank leaves a part that
      is still not blank: the character that made it non-blank is not a
      newline, so it is never cut. */
  lemma TrimNewlinesKeepsContent(s: string)
    requires !IsBlank(s)
    ensures !IsBlank(TrimNewlines(s))
    ensures TrimNewlines(s) != [] && TrimNewlines(s)[0] != '\n'
    ensures TrimNewlines(s)[|TrimNewlines(s)| - 1] != '\n'
  {
    var r := TrimNewlines(s);
    var i := LeadEnd(s, {'\n'}, 0);
    assert TrimmedAt(s, {'\n'}, i, r);
    var k :| 0 <= k < |s| && s[k] !in Whitespace;
    assert s[k] !in {'\n'};
    assert i <= k < i + |r|;
    assert r[k - i] == s[k];
  }

  /** What a kept part looks like: it has content and starts and ends with
      something other than a newline. */
  predicate KeptShape(p: string)
  {
    p != [] && !IsBlank(p) && p[0] != '\n' && p[|p| - 1] != '\n'
  }

  /** The parts `compose_prompt` keeps, each with its outer newlines cut,
      in their original order. */
  function KeptParts(parts: seq<string>): (r: seq<string>)
    ensures |r| <= |parts|
    ensures forall k :: 0 <= k < |r| ==> KeptShape(r[k])
  {
    if parts == [] then []
    else
      var rest := KeptParts(parts[1..]);
      if !IsBlank(parts[0]) then
        TrimNewlinesKeepsContent(parts[0]);
        [TrimNewlines(parts[0])] + rest
      else rest
  }

  /** Keeping distributes over concatenation: each part is judged on its
      own, so the kept parts of a list are the kept parts of its halves. */
  lemma {:induction false} KeptPartsAppend(a: seq<string>, b: seq<string>)
    ensures KeptParts(a + b) == KeptParts(a) + KeptParts(b)
    decreases |a|
  {
    if a == [] {
      assert a + b == b;
    } else {
      assert (a + b)[1..] == a[1..] + b;
      KeptPartsAppend(a[1..], b);
    }
  }

  /** No kept part list is empty unless every part is blank. */
  lemma {:induction false} KeptPartsEmptyIff(parts: seq<string>)
    ensures KeptParts(parts) == [] <==> forall k :: 0 <= k < |parts| ==> IsBlank(parts[k])
    decreases |parts|
  {
    if parts != [] {
      KeptPartsEmptyIff(parts[1..]);
      assert forall k :: 1 <= k < |parts| ==> parts[k] == parts[1..][k - 1];
    }
  }

  /** What one part contributes: nothing when it is blank, otherwise the
      part without its outer newlines. */
  function KeptOf(p: string): (r: seq<string>)
    ensures r == [] <==> IsBlank(p)
  {
    if IsBlank(p) then [] else [TrimNewlines(p)]
  }

  /** The three parts of a prompt are judged one by one. */
  lemma KeptThree(system: string, user: string, data: string)
    ensures KeptParts([system, user, data]) == KeptOf(system) + KeptOf(user) + KeptOf(data)
  {
    var all, two, one := [system, user, data], [user, data], [data];
    assert all[1..] == two && two[1..] == one && one[1..] == [];
    KeptPartsCons(all);
    KeptPartsCons(two);
    KeptPartsCons(one);
    SeqAppendAssoc(KeptOf(system), KeptOf(user), KeptOf(data));
  }

  /** The first part is judged, then the rest. */
  lemma KeptPartsCons(parts: seq<string>)
    requires parts != []
    ensures KeptParts(parts) == KeptOf(parts[0]) + KeptParts(parts[1..])
  {
  }

  lemma SeqAppendAssoc<T>(a: seq<T>, b: seq<T>, c: seq<T>)
    ensures a + (b + c) == a + b + c
  {
  }

  lemma ListOfTwo<T>(a: T, b: T)
    ensures [a] + [] + [b] == [a, b]
  {
  }



  /** A join of kept parts looks like a kept part. */
  lemma JoinShape(parts: seq<string>, sep: string)
    requires forall k :: 0 <= k < |parts| ==> KeptShape(parts[k])
    ensures parts != [] ==> KeptShape(Join(parts, sep))
  {
    if parts != [] {
      var r := Join(parts, sep);
      var first := parts[0];
      var last := parts[|parts| - 1];
      assert KeptShape(first) && KeptShape(last);
      var j :| 0 <= j < |first| && first[j] !in Whitespace;
      assert r[..|first|][j] == first[j];
      assert r[..|first|][0] == first[0];
      assert r[|r| - |last|..][|last| - 1] == last[|last| - 1];
    }
  }

  /** `compose_prompt(system_prompt, user_prompt, data)`. */
  function ComposePrompt(system: string, user: string, data: string): (r: string)
    ensures r == [] <==> IsBlank(system) && IsBlank(user) && IsBlank(data)
    ensures r == [] || KeptShape(r)
  {
    var kept := KeptParts([system, user, data]);
    KeptThree(system, user, data);
    JoinEmptyIff(kept, "\n\n");
    JoinShape(kept, "\n\n");
    Join(kept, "\n\n")
  }

  lemma AppendAssoc5(a: string, b: string, c: string, d: string, e: string)
    ensures a + b + (c + d + e) == a + b + c + d + e
  {
  }

  lemma JoinTwo(a: string, b: string, sep: string)
    ensures Join([a, b], sep) == a + sep + b
  {
    assert [a, b][1..] == [b];
  }

  lemma JoinThree(a: string, b: string, c: string, sep: string)
    ensures Join([a, b, c], sep) == a + sep + b + sep + c
  {
    assert [a, b, c][1..] == [b, c];
    assert Join([a, b, c], sep) == a + sep + Join([b, c], sep);
    JoinTwo(b, c, sep);
    AppendAssoc5(a, sep, b, sep, c);
  }

  /** When every part has content, all three appear, newline-trimmed, in
      the order system prompt, user prompt, data, separated by one blank
      line each. */
  lemma ComposeAllParts(system: string, user: string, data: string)
    requires !IsBlank(system) && !IsBlank(user) && !IsBlank(data)
    ensures ComposePrompt(system, user, data)
            == TrimNewlines(system) + "\n\n" + TrimNewlines(user) + "\n\n" + TrimNewlines(data)
  {
    var a, b, c := TrimNewlines(system), TrimNewlines(user), TrimNewlines(data);
    var kept := KeptParts([system, user, data]);
    KeptThree(system, user, data);
    assert KeptOf(system) == [a] && KeptOf(user) == [b] && KeptOf(data) == [c];
    ThreeSingletons(a, b, c);
    JoinThree(a, b, c, "\n\n");
    assert ComposePrompt(system, user, data) == Join(kept, "\n\n");
  }

  lemma ThreeSingletons<T>(a: T, b: T, c: T)
    ensures [a] + [b] + [c] == [a, b, c]
  {
  }

  /** A blank part contributes nothing, wherever it stands. */
  lemma BlankPartIgnored(system: string, user: string, data: string)
    requires IsBlank(user)
    ensures ComposePrompt(system, user, data) == ComposePrompt(system, "", data)
  {
    KeptThree(system, user, data);
    KeptThree(system, "", data);
  }

  /** A composed prompt composes to itself: it already has content and no
      newline at either end, so feeding it back as the only part changes
      nothing. */
  lemma ComposeIdempotent(system: string, user: string, data: string)
    ensures ComposePrompt(ComposePrompt(system, user, data), "", "") == ComposePrompt(system, user, data)
  {
    var r := ComposePrompt(system, user, data);
    if r != [] {
      ComposeKeptPart(r);
    }
  }

  /** A part that already has the shape of a kept part composes alone to
      itself. */
  lemma ComposeKeptPart(p: string)
    requires KeptShape(p)
    ensures ComposePrompt(p, "", "") == p
  {
    StripSetKeeps(p, {'\n'});
    assert KeptOf(p) == [p];
    KeptThree(p, "", "");
    assert KeptOf("") == [];
    assert KeptParts([p, "", ""]) == [p];
    assert Join([p], "\n\n") == p;
  }

  /** Python's `s.split(sep)` for a one-character separator: always at
      least one piece, and one more piece per separator. */
  function SplitOn(s: string, sep: char): (r: seq<string>)
    ensures r != []
  {
    if s == [] then [[]]
    else
      var rest := SplitOn(s[1..], sep);
      if s[0] == sep then [[]] + rest else [[s[0]] + rest[0]] + rest[1..]
  }

  /** Splitting a text without the separator gives the text back. */
  lemma {:induction false} SplitOnPlain(a: string, sep: char)
    requires forall k :: 0 <= k < |a| ==> a[k] != sep
    ensures SplitOn(a, sep) == [a]
    decreases |a|
  {
    if a != [] {
      SplitOnPlain(a[1..], sep);
      assert [a[0]] + a[1..] == a;
    }
  }

  /** Splitting stops at the first separator. */
  lemma {:induction false} SplitOnFirst(a: string, sep: char, b: string)
    requires forall k :: 0 <= k < |a| ==> a[k] != sep
    ensures SplitOn(a + [sep] + b, sep) == [a] + SplitOn(b, sep)
    decreases |a|
  {
    if a == [] {
      assert a + [sep] + b == [sep] + b;
      assert ([sep] + b)[1..] == b;
    } else {
      SplitOnFirst(a[1..], sep, b);
      assert (a + [sep] + b)[1..] == a[1..] + [sep] + b;
      assert [a[0]] + a[1..] == a;
    }
  }

  /** No character of the entry is the separator. */
  predicate FreeOf(entry: string, sep: char)
  {
    forall k :: 0 <= k < |entry| ==> entry[k] != sep
  }

  /** Joining entries that contain no separator and splitting the result
      gives the entries back. */
  lemma {:induction false} SplitJoin(entries: seq<string>, sep: char)
    requires entries != []
    requires forall i :: 0 <= i < |entries| ==> FreeOf(entries[i], sep)
    ensures SplitOn(Join(entries, [sep]), sep) == entries
    decreases |entries|
  {
    assert FreeOf(entries[0], sep);
    if |entries| == 1 {
      SplitOnPlain(entries[0], sep);
    } else {
      assert forall i :: 0 <= i < |entries| - 1 ==> entries[1..][i] == entries[i + 1];
      SplitJoin(entries[1..], sep);
      SplitOnFirst(entries[0], sep, Join(entries[1..], [sep]));
      assert [entries[0]] + entries[1..] == entries;
    }
  }

  const HistoryHeader := "History of Past Interaction:\n"
  const CurrentHeader := "Current User Message:\n"

  /** The remembered lines under their header, one per line; nothing when
      nothing is remembered. */
  function HistoryBlock(memory: seq<string>): (r: string)
    ensures r == [] <==> memory == []
    ensures r != [] ==> |HistoryHeader| <= |r| && r[..|HistoryHeader|] == HistoryHeader
  {
    if memory == [] then "" else HistoryHeader + Join(memory, "\n")
  }

  /** The remembered lines can be read back from the history block when no
      line spans several lines. */
  lemma HistoryBlockLists(memory: seq<string>)
    requires memory != []
    requires forall i :: 0 <= i < |memory| ==> FreeOf(memory[i], '\n')
    ensures var r := HistoryBlock(memory);
      r[..|HistoryHeader|] == HistoryHeader && SplitOn(r[|HistoryHeader|..], '\n') == memory
  {
    var r := HistoryBlock(memory);
    assert r[|HistoryHeader|..] == Join(memory, "\n");
    SplitJoin(memory, '\n');
  }

  /** The user's message under its header; nothing for an empty message. */
  function CurrentBlock(userText: string): (r: string)
    ensures r == [] <==> userText == []
    ensures r != [] ==> r == CurrentHeader + userText
  {
    if userText == [] then "" else CurrentHeader + userText
  }

  /** The non-empty strings of a list, in order. */
  function NonEmpty(parts: seq<string>): (r: seq<string>)
    ensures |r| <= |parts|
    ensures forall k :: 0 <= k < |r| ==> r[k] != []
  {
    if parts == [] then []
    else (if parts[0] != [] then [parts[0]] else []) + NonEmpty(parts[1..])
  }

  /** The data slot of an interactive turn: the history block and the
      current message block, whichever are present, a blank line apart. */
  function ConversationInput(memory: seq<string>, userText: string): string
  {
    Join(NonEmpty([HistoryBlock(memory), CurrentBlock(userText)]), "\n\n")
  }

  /** The blocks of a turn that are present, in order. */
  lemma NonEmptyTwo(h: string, c: string)
    ensures NonEmpty([h, c]) == (if h != [] then [h] else []) + (if c != [] then [c] else [])
  {
    assert [h, c][1..] == [c];
    assert [c][1..] == [];
  }

  /** The conversation input in each of its four shapes. */
  lemma ConversationInputShape(memory: seq<string>, userText: string)
    ensures var r := ConversationInput(memory, userText);
      && (memory == [] && userText == [] ==> r == [])
      && (memory == [] && userText != [] ==> r == CurrentHeader + userText)
      && (memory != [] && userText == [] ==> r == HistoryBlock(memory))
      && (memory != [] && userText != [] ==> r == HistoryBlock(memory) + "\n\n" + CurrentHeader + userText)
  {
    var h := HistoryBlock(memory);
    var c := CurrentBlock(userText);
    var r := ConversationInput(memory, userText);
    assert r == Join(NonEmpty([h, c]), "\n\n");
    JoinPresent(h, c, "\n\n");
    if memory != [] && userText != [] {
      assert r == h + "\n\n" + (CurrentHeader + userText);
      AppendAssoc4(h, "\n\n", CurrentHeader, userText);
    }
  }

  lemma AppendAssoc4(a: string, b: string, c: string, d: string)
    ensures a + b + (c + d) == a + b + c + d
  {
  }

  /** Joining the blocks that are present. */
  lemma JoinPresent(h: string, c: string, sep: string)
    ensures Join(NonEmpty([h, c]), sep)
            == if h != [] && c != [] then h + sep + c else if h != [] then h else c
  {
    NonEmptyTwo(h, c);
    if h != [] && c != [] {
      assert NonEmpty([h, c]) == [h, c];
      JoinTwo(h, c, sep);
    } else if h != [] {
      assert NonEmpty([h, c]) == [h];
    } else if c != [] {
      assert NonEmpty([h, c]) == [c];
    } else {
      assert NonEmpty([h, c]) == [];
    }
  }

  /** The conversation input has content exactly when there is a history or
      a message: it then starts with the first letter of a header. */
  lemma ConversationInputBlankIff(memory: seq<string>, userText: string)
    ensures IsBlank(ConversationInput(memory, userText)) <==> memory == [] && userText == []
  {
    var h := HistoryBlock(memory);
    var c := CurrentBlock(userText);
    NonEmptyTwo(h, c);
    var parts := NonEmpty([h, c]);
    if parts != [] {
      var first := parts[0];
      var r := Join(parts, "\n\n");
      assert r[..|first|] == first;
      if memory != [] {
        assert first == h;
        assert first[..|HistoryHeader|] == HistoryHeader;
        FirstLetter(r, first, HistoryHeader);
      } else {
        assert first == c == CurrentHeader + userText;
        FirstLetter(r, first, CurrentHeader);
      }
    }
  }

  /** A text that begins with a header begins with the header's letter. */
  lemma FirstLetter(r: string, first: string, header: string)
    requires header == HistoryHeader || header == CurrentHeader
    requires |header| <= |first| <= |r|
    requires r[..|first|] == first && first[..|header|] == header
    ensures !IsBlank(r)
  {
    assert r[0] == first[0] == header[0];
    assert header[0] !in Whitespace;
  }

  /** The final prompt of an interactive turn. */
  function TurnPrompt(system: string, user: string, memory: seq<string>, userText: string): string
  {
    ComposePrompt(system, user, ConversationInput(memory, userText))
  }

  /** A turn sends nothing exactly when the system and user prompts are
      blank, nothing is remembered and the message is empty. */
  lemma TurnPromptEmptyIff(system: string, user: string, memory: seq<string>, userText: string)
    ensures TurnPrompt(system, user, memory, userText) == []
            <==> IsBlank(system) && IsBlank(user) && memory == [] && userText == []
  {
    ConversationInputBlankIff(memory, userText);
  }

  /** A part that starts with content and does not end with a newline is
      kept as it is. */
  lemma KeptAsIs(p: string)
    requires p != [] && p[0] !in Whitespace && p[|p| - 1] != '\n'
    ensures KeptOf(p) == [p]
  {
    assert !IsBlank(p);
    StripSetKeeps(p, {'\n'});
  }

  /** Without system and user prompts, the first message of a conversation
      is sent as the current message alone. */
  lemma FirstMessageAlone(userText: string)
    requires userText != [] && userText[|userText| - 1] !in Whitespace
    ensures TurnPrompt("", "", [], userText) == CurrentHeader + userText
  {
    var d := CurrentHeader + userText;
    KeptAsIs(d);
    ConversationInputShape([], userText);
    KeptThree("", "", d);
    assert KeptOf("") + KeptOf("") + KeptOf(d) == [d];
  }

  /** Blank user prompt, system prompt and data: the worked example of
      two parts joined around a skipped one. */
  lemma ComposeSkipsEmptyUser()
    ensures ComposePrompt("sys", "", "data") == "sys\n\ndata"
  {
    SysDataJoined();
    ContentAroundBlank("sys", "data");
  }

  /** Two parts that start and end with content, around a blank one, are
      joined by one blank line. */
  lemma ContentAroundBlank(system: string, data: string)
    requires system != [] && system[0] !in Whitespace && system[|system| - 1] != '\n'
    requires data != [] && data[0] !in Whitespace && data[|data| - 1] != '\n'
    ensures ComposePrompt(system, "", data) == system + "\n\n" + data
  {
    KeptAsIs(system);
    KeptAsIs(data);
    KeptThree(system, "", data);
    ListOfTwo(system, data);
    assert KeptParts([system, "", data]) == [system, data];
    JoinTwo(system, data, "\n\n");
  }

  lemma SysDataJoined()
    ensures "sys" + "\n\n" + "data" == "sys\n\ndata"
  {
  }
}
