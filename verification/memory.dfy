/**
 The conversation memory of interactive mode: a list of `User: …` and
 `Assistant: …` lines, cut to the most recent N after every turn and fed
 back to the model as the history block of the next prompt. It can be seeded
 from the exchange that answered piped standard input.
 */
module Memory {
  import opened Text
  import opened Prompt

  const UserTag := "User: "
  const AssistantTag := "Assistant: "

  /** `--memory-lines` after `max(0, …)`. */
  function Capacity(requested: int): nat
  {
    if requested > 0 then requested else 0
  }

  /** `ys` is what is left of `xs` after dropping some of its first items. */
  predicate IsSuffix<T(==)>(ys: seq<T>, xs: seq<T>)
  {
    |ys| <= |xs| && ys == xs[|xs| - |ys|..]
  }

  /** Python's `items[-n:]`. Because `-0` is `0`, a count of zero keeps the
      whole list rather than none of it. */
  function TailSlice<T(==)>(items: seq<T>, n: nat): (r: seq<T>)
    ensures IsSuffix(r, items)
    ensures n > 0 ==> |r| == if |items| < n then |items| else n
    ensures n == 0 ==> r == items
  {
    if n == 0 || n >= |items| then items else items[|items| - n..]
  }

  /** The memory interactive mode starts from: a copy of the seed, cut to
      its last `capacity` lines when memory is on. */
  function InitialMemory(seed: seq<string>, capacity: nat): (m: seq<string>)
    ensures IsSuffix(m, seed)
    ensures capacity > 0 ==> |m| <= capacity
    ensures capacity > 0 && |seed| <= capacity ==> m == seed
    ensures capacity == 0 ==> m == seed
  {
    if capacity > 0 && seed != [] then TailSlice(seed, capacity) else seed
  }

  /** `entry` is `tag` followed by `text`. */
  predicate Tagged(entry: string, tag: string, text: string)
  {
    entry == tag + text
  }

  /** The lines one exchange adds: the user's message when there was one,
      then the stripped reply when there was one. */
  function NewEntries(userText: string, finalText: string): (r: seq<string>)
    ensures |r| == (if userText != [] then 1 else 0) + (if finalText != [] then 1 else 0)
    ensures userText != [] ==> Tagged(r[0], UserTag, userText)
    ensures finalText != [] ==> Tagged(r[|r| - 1], AssistantTag, Strip(finalText))
  {
    (if userText != [] then [UserTag + userText] else [])
    + (if finalText != [] then [AssistantTag + Strip(finalText)] else [])
  }

  /** The role of a memory line, read back from its tag. */
  datatype Role = User | Assistant | Other

  function RoleOf(entry: string): Role
  {
    if |UserTag| <= |entry| && entry[..|UserTag|] == UserTag then User
    else if |AssistantTag| <= |entry| && entry[..|AssistantTag|] == AssistantTag then Assistant
    else Other
  }

  /** The text of a memory line after its tag. */
  function TextOf(entry: string): string
  {
    match RoleOf(entry)
    case User => entry[|UserTag|..]
    case Assistant => entry[|AssistantTag|..]
    case Other => entry
  }

  /** Reading the lines of one exchange back gives who spoke and what they
      said, user first: the tags round-trip. */
  lemma NewEntriesReadBack(userText: string, finalText: string)
    ensures var r := NewEntries(userText, finalText);
      && (userText != [] ==> RoleOf(r[0]) == User && TextOf(r[0]) == userText)
      && (finalText != [] ==> RoleOf(r[|r| - 1]) == Assistant && TextOf(r[|r| - 1]) == Strip(finalText))
  {
    var r := NewEntries(userText, finalText);
    if userText != [] {
      TagReadBack(UserTag, userText);
    }
    if finalText != [] {
      TagReadBack(AssistantTag, Strip(finalText));
    }
  }

  lemma TagReadBack(tag: string, text: string)
    requires tag == UserTag || tag == AssistantTag
    ensures RoleOf(tag + text) == (if tag == UserTag then User else Assistant)
    ensures TextOf(tag + text) == text
  {
    var e := tag + text;
    assert e[..|tag|] == tag;
    assert e[|tag|..] == text;
    if tag == AssistantTag {
      assert e[..|UserTag|][0] == 'A' != UserTag[0];
    }
  }

  /** One turn's update of the memory (the `if memory_lines > 0` block after
      the reply). */
  function Remember(memory: seq<string>, capacity: nat, userText: string, finalText: string): (m: seq<string>)
    ensures capacity == 0 ==> m == memory
    ensures capacity > 0 ==> IsSuffix(m, memory + NewEntries(userText, finalText))
    ensures capacity > 0 ==> |m| == Min(|memory| + |NewEntries(userText, finalText)|, capacity)
  {
    if capacity > 0 then TailSlice(memory + NewEntries(userText, finalText), capacity) else memory
  }

  function Min(a: int, b: int): int
  {
    if a < b then a else b
  }

  /** While there is room nothing is forgotten; the newest lines of a turn
      are never the ones dropped. */
  lemma RememberKeepsNewest(memory: seq<string>, capacity: nat, userText: string, finalText: string)
    requires capacity > 0
    ensures var added := NewEntries(userText, finalText);
      var m := Remember(memory, capacity, userText, finalText);
      && (|memory| + |added| <= capacity ==> m == memory + added)
      && (|added| <= capacity ==> IsSuffix(added, m))
  {
    var added := NewEntries(userText, finalText);
    var all := memory + added;
    var m := Remember(memory, capacity, userText, finalText);
    if |added| <= capacity {
      assert |added| <= |m|;
      assert m == all[|all| - |m|..];
      assert added == all[|all| - |added|..];
      assert m[|m| - |added|..] == all[|all| - |added|..];
    }
  }

  /** The worked example of a memory of two lines: after `User: a`,
      `Assistant: b` and `User: c` it holds `Assistant: b`, `User: c`. */
  lemma CapacityTwoExample()
    ensures Remember(Remember([], 2, "a", "b"), 2, "c", "") == ["Assistant: b", "User: c"]
  {
    StripSetKeeps("b", Whitespace);
    TagsSpelled();
    var first := Remember([], 2, "a", "b");
    assert NewEntries("a", "b") == ["User: a", "Assistant: b"];
    assert first == ["User: a", "Assistant: b"];
    assert NewEntries("c", "") == ["User: c"];
    var all := first + ["User: c"];
    assert all == ["User: a", "Assistant: b", "User: c"];
    assert all[1..] == ["Assistant: b", "User: c"];
  }

  lemma TagsSpelled()
    ensures UserTag + "a" == "User: a" && UserTag + "c" == "User: c"
    ensures AssistantTag + "b" == "Assistant: b"
  {
  }

  /** `user_text.lower() in {"exit", "quit"}` on the stripped input. */
  predicate IsQuit(userText: string)
  {
    Lower(userText) == "exit" || Lower(userText) == "quit"
  }

  /** What interactive mode does with one input line. */
  datatype Action = Quit | Skip | Send(prompt: string)

  function Decide(system: string, user: string, memory: seq<string>, line: string): Action
  {
    var userText := Strip(line);
    if IsQuit(userText) then Quit
    else
      var prompt := TurnPrompt(system, user, memory, userText);
      if prompt == [] then Skip else Send(prompt)
  }

  /** An empty message is not a quit command. */
  lemma EmptyIsNotQuit()
    ensures !IsQuit([])
  {
    assert Lower([]) == [];
  }

  /** The loop ends on `exit` or `quit`, whatever the memory holds. */
  lemma DecideQuit(system: string, user: string, memory: seq<string>, line: string)
    ensures Decide(system, user, memory, line) == Quit <==> IsQuit(Strip(line))
  {
  }

  /** A line is skipped exactly when there would be nothing to send: blank
      system and user prompts, no memory and a blank line. */
  lemma DecideSkip(system: string, user: string, memory: seq<string>, line: string)
    ensures Decide(system, user, memory, line) == Skip
            <==> IsBlank(line) && IsBlank(system) && IsBlank(user) && memory == []
  {
    var userText := Strip(line);
    KeepTestIsNotBlank(line);
    EmptyIsNotQuit();
    TurnPromptEmptyIff(system, user, memory, userText);
  }

  /** A prompt that is sent has content and no newline at either end. */
  lemma DecideSend(system: string, user: string, memory: seq<string>, line: string)
    ensures Decide(system, user, memory, line).Send? ==> KeptShape(Decide(system, user, memory, line).prompt)
  {
  }

  /** A character-by-character case-blind match of `word` against `target`. */
  predicate SpellsIgnoringCase(word: string, target: string)
  {
    |word| == |target| && forall k :: 0 <= k < |word| ==> LowerChar(word[k]) == target[k]
  }

  /** A quit word is recognised in any case, and only a quit word is: four
      letters that lower-case to `exit` or to `quit`. */
  lemma QuitIgnoresCase(word: string)
    ensures IsQuit(word) <==> SpellsIgnoringCase(word, "exit") || SpellsIgnoringCase(word, "quit")
  {
    if SpellsIgnoringCase(word, "exit") {
      assert Lower(word) == "exit";
    }
    if SpellsIgnoringCase(word, "quit") {
      assert Lower(word) == "quit";
    }
  }

  /** `EXIT` and ` Quit ` end the loop. */
  lemma QuitExamples()
    ensures IsQuit(Strip("EXIT"))
    ensures IsQuit(Strip(" Quit "))
  {
    QuitSpellings();
    StripSetKeeps("EXIT", Whitespace);
    StripAroundQuit();
  }

  lemma QuitSpellings()
    ensures Lower("EXIT") == "exit" && Lower("Quit") == "quit"
  {
  }

  /** A quit word followed by more text does not end the loop. */
  lemma QuitWithMoreIsNot()
    ensures !IsQuit(Strip("exit now"))
  {
    var s := "exit now";
    StripSetKeeps(s, Whitespace);
    assert |Lower(s)| == 8;
  }

  lemma StripAroundQuit()
    ensures Strip(" Quit ") == "Quit"
  {
    var s := " Quit ";
    assert LeadEnd(s, Whitespace, 0) == 1 by {
      assert s[0] in Whitespace && s[1] !in Whitespace;
      assert LeadEnd(s, Whitespace, 1) == 1;
    }
    assert TrailStart(s, Whitespace, 1, |s|) == 5 by {
      assert s[5] in Whitespace && s[4] !in Whitespace;
      assert TrailStart(s, Whitespace, 1, 5) == 5;
    }
    assert s[1..5] == "Quit";
  }

  /** An input line paired with the final text the model would give back if
      the line were sent. */
  datatype Exchange = Exchange(line: string, reply: string)

  /** What a session produced: the prompts sent, in order, and the memory
      at the end. */
  datatype SessionOutcome = SessionOutcome(sent: seq<string>, memory: seq<string>)

  /** The loop of interactive mode over the input lines, ending at the first
      `exit`/`quit` or when the lines run out. */
  function RunSession(system: string, user: string, capacity: nat, memory: seq<string>, exchanges: seq<Exchange>): (r: SessionOutcome)
    ensures |r.sent| <= |exchanges|
  {
    RunFrom(system, user, capacity, memory, exchanges, 0)
  }

  /** The loop from line `i` on, with the memory the earlier lines left. */
  function RunFrom(system: string, user: string, capacity: nat, memory: seq<string>, exchanges: seq<Exchange>, i: nat): (r: SessionOutcome)
    requires i <= |exchanges|
    ensures |r.sent| <= |exchanges| - i
    decreases |exchanges| - i
  {
    if i == |exchanges| then SessionOutcome([], memory)
    else
      var e := exchanges[i];
      match Decide(system, user, memory, e.line)
      case Quit => SessionOutcome([], memory)
      case Skip => RunFrom(system, user, capacity, memory, exchanges, i + 1)
      case Send(prompt) =>
        var next := RunFrom(system, user, capacity, Remember(memory, capacity, Strip(e.line), e.reply), exchanges, i + 1);
        SessionOutcome([prompt] + next.sent, next.memory)
  }

  /** With memory on, the memory never holds more than `capacity` lines. */
  lemma SessionBound(system: string, user: string, capacity: nat, memory: seq<string>, exchanges: seq<Exchange>)
    requires capacity > 0 && |memory| <= capacity
    ensures |RunSession(system, user, capacity, memory, exchanges).memory| <= capacity
  {
    BoundFrom(system, user, capacity, memory, exchanges, 0);
  }

  lemma {:induction false} BoundFrom(system: string, user: string, capacity: nat, memory: seq<string>, exchanges: seq<Exchange>, i: nat)
    requires i <= |exchanges|
    requires capacity > 0 && |memory| <= capacity
    ensures |RunFrom(system, user, capacity, memory, exchanges, i).memory| <= capacity
    decreases |exchanges| - i
  {
    if i < |exchanges| {
      var e := exchanges[i];
      match Decide(system, user, memory, e.line)
      case Quit =>
      case Skip => BoundFrom(system, user, capacity, memory, exchanges, i + 1);
      case Send(_) =>
        BoundFrom(system, user, capacity, Remember(memory, capacity, Strip(e.line), e.reply), exchanges, i + 1);
    }
  }

  /** With memory off, the memory a session starts from (a seed, possibly)
      is the memory it ends with: nothing is added and nothing is cut. */
  lemma SessionWithoutMemory(system: string, user: string, memory: seq<string>, exchanges: seq<Exchange>)
    ensures RunSession(system, user, 0, memory, exchanges).memory == memory
  {
    UnchangedFrom(system, user, memory, exchanges, 0);
  }

  lemma {:induction false} UnchangedFrom(system: string, user: string, memory: seq<string>, exchanges: seq<Exchange>, i: nat)
    requires i <= |exchanges|
    ensures RunFrom(system, user, 0, memory, exchanges, i).memory == memory
    decreases |exchanges| - i
  {
    if i < |exchanges| && Decide(system, user, memory, exchanges[i].line) != Quit {
      UnchangedFrom(system, user, memory, exchanges, i + 1);
    }
  }

  /** A negative `--memory-lines` switches memory off just as zero does: the
      memory a session ends with is the one it started from. */
  lemma NegativeRequestIsOff(system: string, user: string, requested: int, memory: seq<string>, exchanges: seq<Exchange>)
    requires requested <= 0
    ensures RunSession(system, user, Capacity(requested), memory, exchanges).memory == memory
  {
    SessionWithoutMemory(system, user, memory, exchanges);
  }

  /** Every prompt in the list has content and no newline at either end. */
  predicate AllShaped(sent: seq<string>)
  {
    forall k :: 0 <= k < |sent| ==> KeptShape(sent[k])
  }

  lemma PrependShaped(p: string, rest: seq<string>)
    requires KeptShape(p) && AllShaped(rest)
    ensures AllShaped([p] + rest)
  {
    assert forall k :: 1 <= k < |[p] + rest| ==> ([p] + rest)[k] == rest[k - 1];
  }

  /** Every prompt a session sends has content. */
  lemma SessionSendsContent(system: string, user: string, capacity: nat, memory: seq<string>, exchanges: seq<Exchange>)
    ensures AllShaped(RunSession(system, user, capacity, memory, exchanges).sent)
  {
    ContentFrom(system, user, capacity, memory, exchanges, 0);
  }

  lemma {:induction false} ContentFrom(system: string, user: string, capacity: nat, memory: seq<string>, exchanges: seq<Exchange>, i: nat)
    requires i <= |exchanges|
    ensures AllShaped(RunFrom(system, user, capacity, memory, exchanges, i).sent)
    decreases |exchanges| - i
  {
    if i < |exchanges| {
      var e := exchanges[i];
      var a := Decide(system, user, memory, e.line);
      if a.Send? {
        var later := Remember(memory, capacity, Strip(e.line), e.reply);
        var next := RunFrom(system, user, capacity, later, exchanges, i + 1);
        ContentFrom(system, user, capacity, later, exchanges, i + 1);
        DecideSend(system, user, memory, e.line);
        PrependShaped(a.prompt, next.sent);
      } else if a == Skip {
        ContentFrom(system, user, capacity, memory, exchanges, i + 1);
      }
    }
  }

  /** A quit line read first ends the session: nothing is sent and the
      starting memory is what remains. */
  lemma QuitFirst(system: string, user: string, capacity: nat, memory: seq<string>, exchanges: seq<Exchange>)
    requires exchanges != [] && IsQuit(Strip(exchanges[0].line))
    ensures RunSession(system, user, capacity, memory, exchanges) == SessionOutcome([], memory)
  {
    DecideQuit(system, user, memory, exchanges[0].line);
  }

  /** Nothing after a quit line is read: the session over the lines up to
      and including it is the whole session. */
  lemma QuitEndsSession(system: string, user: string, capacity: nat, memory: seq<string>, exchanges: seq<Exchange>, k: nat)
    requires k < |exchanges| && IsQuit(Strip(exchanges[k].line))
    ensures RunSession(system, user, capacity, memory, exchanges)
            == RunSession(system, user, capacity, memory, exchanges[..k + 1])
  {
    QuitEndsFrom(system, user, capacity, memory, exchanges, exchanges[..k + 1], k, 0);
  }

  /** Two lists of lines that agree up to a quit line at `k` give the same
      session from any line `i` up to it. */
  lemma {:induction false} QuitEndsFrom(system: string, user: string, capacity: nat, memory: seq<string>, xs: seq<Exchange>, ys: seq<Exchange>, k: nat, i: nat)
    requires i <= k < |xs| && k < |ys| && IsQuit(Strip(xs[k].line))
    requires forall j :: 0 <= j <= k ==> xs[j] == ys[j]
    ensures RunFrom(system, user, capacity, memory, xs, i) == RunFrom(system, user, capacity, memory, ys, i)
    decreases k - i
  {
    var e := xs[i];
    assert ys[i] == e;
    if i < k {
      var later := Remember(memory, capacity, Strip(e.line), e.reply);
      QuitEndsFrom(system, user, capacity, memory, xs, ys, k, i + 1);
      QuitEndsFrom(system, user, capacity, later, xs, ys, k, i + 1);
      SameStep(system, user, capacity, memory, xs, ys, i);
    } else {
      DecideQuit(system, user, memory, e.line);
    }
  }

  /** Two lists with the same line at `i` give the same session from `i`
      when they do from `i + 1`, from either memory that line can leave. */
  lemma SameStep(system: string, user: string, capacity: nat, memory: seq<string>, xs: seq<Exchange>, ys: seq<Exchange>, i: nat)
    requires i < |xs| && i < |ys| && xs[i] == ys[i]
    requires RunFrom(system, user, capacity, memory, xs, i + 1) == RunFrom(system, user, capacity, memory, ys, i + 1)
    requires var later := Remember(memory, capacity, Strip(xs[i].line), xs[i].reply);
      RunFrom(system, user, capacity, later, xs, i + 1) == RunFrom(system, user, capacity, later, ys, i + 1)
    ensures RunFrom(system, user, capacity, memory, xs, i) == RunFrom(system, user, capacity, memory, ys, i)
  {
  }

  /** What `main` does after answering piped standard input. */
  datatype Launch = Done | Chat(seed: seq<string>)

  /** The seed is the exchange that answered the piped data, cut to its last
      `capacity` lines when memory is on. An empty composed prompt sends
      nothing and opens a chat with no seed; without `--chat-after-stdin`
      the program ends after the answer. */
  function AfterPipedInput(system: string, user: string, data: string, reply: string, chatAfter: bool, capacity: nat): (l: Launch)
  {
    if ComposePrompt(system, user, data) == [] then Chat([])
    else if !chatAfter then Done
    else
      var seed := NewEntries(Strip(data), reply);
      Chat(if capacity > 0 && seed != [] then TailSlice(seed, capacity) else seed)
  }

  /** Seeding from the piped exchange leaves the memory in the state an
      interactive turn with the same message and reply would have left an
      empty memory in when memory is on. With memory off the two differ: the
      seed is kept whole, and stays in every later history block. */
  lemma SeedIsFirstTurn(system: string, user: string, data: string, reply: string, capacity: nat)
    requires ComposePrompt(system, user, data) != []
    ensures var l := AfterPipedInput(system, user, data, reply, true, capacity);
      && l.Chat?
      && (capacity > 0 ==> InitialMemory(l.seed, capacity) == Remember([], capacity, Strip(data), reply))
      && (capacity == 0 ==> InitialMemory(l.seed, capacity) == NewEntries(Strip(data), reply))
  {
    var seed := NewEntries(Strip(data), reply);
    var l := AfterPipedInput(system, user, data, reply, true, capacity);
    assert l == Chat(if capacity > 0 && seed != [] then TailSlice(seed, capacity) else seed);
    EmptyPrefix(seed);
    if capacity > 0 {
      assert InitialMemory(l.seed, capacity) == TailSlice(seed, capacity);
    }
  }

  lemma EmptyPrefix<T>(s: seq<T>)
    ensures [] + s == s
  {
  }

  /** When the composed prompt is empty the data was blank, so nothing from
      standard input could have been remembered anyway. */
  lemma EmptyPipedPrompt(system: string, user: string, data: string, reply: string, chatAfter: bool, capacity: nat)
    requires ComposePrompt(system, user, data) == []
    ensures AfterPipedInput(system, user, data, reply, chatAfter, capacity) == Chat([])
    ensures Strip(data) == []
  {
  }
}
