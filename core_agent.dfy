/** The two plain helpers of backend/core_agent.py: looking a tool up by
    name, and rendering a chat history as the text of ReAct turns. The
    agent itself (prompt, model, executor) is not part of this model. */
module CoreAgent {
  import opened Common
  import opened Strings

  /** A LangChain tool as far as these helpers see it. */
  datatype Tool = Tool(name: string, description: string)

  /** `i` is the position of the first tool called `name`. */
  predicate FirstNamed(tools: seq<Tool>, name: string, i: int) {
    && 0 <= i < |tools|
    && tools[i].name == name
    && forall j :: 0 <= j < i ==> tools[j].name != name
  }

  /** `find_tool_by_name`: scans the tools in order and returns the first
      whose name is `name`, or `None` when no tool has that name. */
  method FindToolByName(name: string, tools: seq<Tool>) returns (tool: Option<Tool>)
    ensures tool.None? <==> forall i :: 0 <= i < |tools| ==> tools[i].name != name
    ensures tool.Some? ==> exists i :: FirstNamed(tools, name, i) && tools[i] == tool.value
  {
    var k := 0;
    while k < |tools|
      invariant 0 <= k <= |tools|
      invariant forall j :: 0 <= j < k ==> tools[j].name != name
    {
      if tools[k].name == name {
        assert FirstNamed(tools, name, k);
        return Some(tools[k]);
      }
      k := k + 1;
    }
    return None;
  }

  /** There is at most one first position, so the tool found is determined
      by the list and the name. */
  lemma FirstNamedUnique(tools: seq<Tool>, name: string, i: int, j: int)
    requires FirstNamed(tools, name, i) && FirstNamed(tools, name, j)
    ensures i == j
  {
  }

  /** One turn of the history, with the six fields the formatter reads. */
  datatype ChatEntry = ChatEntry(question: string, thought: string, action: string,
                                 actionInput: string, observation: string, finalAnswer: string)

  /** The keys the formatter reads from each entry, in the order it reads
      them. */
  const EntryKeys: seq<string> :=
    ["question", "thought", "action", "action_input", "observation", "final_answer"]

  /** Reads an entry's fields in the formatter's order; a missing key raises
      `KeyError` with that key. */
  function ParseEntry(m: map<string, string>): Lookup<ChatEntry> {
    if "question" !in m then KeyError("question")
    else if "thought" !in m then KeyError("thought")
    else if "action" !in m then KeyError("action")
    else if "action_input" !in m then KeyError("action_input")
    else if "observation" !in m then KeyError("observation")
    else if "final_answer" !in m then KeyError("final_answer")
    else Found(ChatEntry(m["question"], m["thought"], m["action"],
                         m["action_input"], m["observation"], m["final_answer"]))
  }

  /** An entry is read exactly when it has all six keys, and then every
      field is the value under its key; otherwise the key reported is the
      first of the six, in reading order, that is missing. */
  lemma ParseEntryKeys(m: map<string, string>)
    ensures ParseEntry(m).Found? <==> forall k :: k in EntryKeys ==> k in m
    ensures ParseEntry(m).Found? ==>
              && ParseEntry(m).value.question == m["question"]
              && ParseEntry(m).value.thought == m["thought"]
              && ParseEntry(m).value.action == m["action"]
              && ParseEntry(m).value.actionInput == m["action_input"]
              && ParseEntry(m).value.observation == m["observation"]
              && ParseEntry(m).value.finalAnswer == m["final_answer"]
    ensures ParseEntry(m).KeyError? ==>
              exists n :: && 0 <= n < |EntryKeys|
                          && ParseEntry(m).key == EntryKeys[n]
                          && EntryKeys[n] !in m
                          && forall j :: 0 <= j < n ==> EntryKeys[j] in m
  {
    assert EntryKeys[0] == "question" && EntryKeys[1] == "thought" && EntryKeys[2] == "action";
    assert EntryKeys[3] == "action_input" && EntryKeys[4] == "observation";
    assert EntryKeys[5] == "final_answer";
  }

  /** The six lines one entry contributes, without their newlines. */
  function EntryLines(c: ChatEntry): seq<string> {
    ["Question: " + c.question, "Thought: " + c.thought, "Action: " + c.action,
     "Action Input: " + c.actionInput, "Observation: " + c.observation,
     "Final Answer: " + c.finalAnswer]
  }

  /** The text the six `+=` of one loop iteration append. */
  function EntryBlock(c: ChatEntry): string {
    ("Question: " + c.question + "\n")
    + ("Thought: " + c.thought + "\n")
    + ("Action: " + c.action + "\n")
    + ("Action Input: " + c.actionInput + "\n")
    + ("Observation: " + c.observation + "\n")
    + ("Final Answer: " + c.finalAnswer + "\n\n")
  }

  /** An entry's block is its six lines, in order, and then one empty line. */
  lemma EntryBlockLines(c: ChatEntry)
    ensures EntryBlock(c) == Terminated(EntryLines(c) + [""])
  {
    var l := EntryLines(c);
    assert l + [""] == [l[0], l[1], l[2], l[3], l[4], l[5], ""];
    SixLinesAndBlank(l[0], l[1], l[2], l[3], l[4], l[5]);
  }

  /** Six lines and an empty one, each ended by a newline. */
  lemma SixLinesAndBlank(x0: string, x1: string, x2: string, x3: string, x4: string, x5: string)
    ensures Terminated([x0, x1, x2, x3, x4, x5, ""])
            == (x0 + "\n") + (x1 + "\n") + (x2 + "\n") + (x3 + "\n") + (x4 + "\n") + (x5 + "\n\n")
  {
    var t6: seq<string> := [""];
    TerminatedCons("", []);
    var t5 := [x5] + t6;
    TerminatedCons(x5, t6);
    var t4 := [x4] + t5;
    TerminatedCons(x4, t5);
    var t3 := [x3] + t4;
    TerminatedCons(x3, t4);
    var t2 := [x2] + t3;
    TerminatedCons(x2, t3);
    var t1 := [x1] + t2;
    TerminatedCons(x1, t2);
    var t0 := [x0] + t1;
    TerminatedCons(x0, t1);
    assert t0 == [x0, x1, x2, x3, x4, x5, ""];
  }

  /** The six appends of one iteration add the entry's block. */
  lemma EntryBlockAppended(f: string, c: ChatEntry)
    ensures f + ("Question: " + c.question + "\n") + ("Thought: " + c.thought + "\n")
            + ("Action: " + c.action + "\n") + ("Action Input: " + c.actionInput + "\n")
            + ("Observation: " + c.observation + "\n") + ("Final Answer: " + c.finalAnswer + "\n\n")
            == f + EntryBlock(c)
  {
  }

  /** The block of each entry, in order. */
  function EntryBlocks(entries: seq<ChatEntry>): seq<string> {
    seq(|entries|, i requires 0 <= i < |entries| => EntryBlock(entries[i]))
  }

  /** The formatted text of entries already read. */
  function FormatEntries(entries: seq<ChatEntry>): string {
    Concat(EntryBlocks(entries))
  }

  lemma EntryBlocksAppend(a: seq<ChatEntry>, b: seq<ChatEntry>)
    ensures EntryBlocks(a + b) == EntryBlocks(a) + EntryBlocks(b)
  {
  }

  /** Formatting distributes over concatenation of histories. */
  lemma FormatEntriesConcat(a: seq<ChatEntry>, b: seq<ChatEntry>)
    ensures FormatEntries(a + b) == FormatEntries(a) + FormatEntries(b)
  {
    EntryBlocksAppend(a, b);
    ConcatAppend(EntryBlocks(a), EntryBlocks(b));
  }

  /** One more entry appends its block. */
  lemma FormatEntriesSnoc(entries: seq<ChatEntry>, c: ChatEntry)
    ensures FormatEntries(entries + [c]) == FormatEntries(entries) + EntryBlock(c)
  {
    FormatEntriesConcat(entries, [c]);
    var block := EntryBlock(c);
    assert EntryBlocks([c]) == [block];
    assert Concat([block]) == block by {
      assert [block][..0] == [];
      assert "" + block == block;
    }
  }

  /** Every line of the formatted history, entry after entry. */
  function HistoryLines(entries: seq<ChatEntry>): seq<string>
    decreases |entries|
  {
    if entries == [] then []
    else HistoryLines(entries[..|entries| - 1]) + EntryLines(entries[|entries| - 1]) + [""]
  }

  /** The formatted history is its lines, each ended by a newline. */
  lemma {:induction false} FormatEntriesAreLines(entries: seq<ChatEntry>)
    ensures FormatEntries(entries) == Terminated(HistoryLines(entries))
    ensures |HistoryLines(entries)| == 7 * |entries|
    decreases |entries|
  {
    if entries != [] {
      var init := entries[..|entries| - 1];
      var c := entries[|entries| - 1];
      FormatEntriesAreLines(init);
      assert entries == init + [c];
      FormatEntriesSnoc(init, c);
      EntryBlockLines(c);
      assert HistoryLines(entries) == HistoryLines(init) + (EntryLines(c) + [""]);
      TerminatedConcat(HistoryLines(init), EntryLines(c) + [""]);
    }
  }

  /** No field of the entry holds a newline. */
  predicate OneLineFields(c: ChatEntry) {
    && '\n' !in c.question && '\n' !in c.thought && '\n' !in c.action
    && '\n' !in c.actionInput && '\n' !in c.observation && '\n' !in c.finalAnswer
  }

  lemma {:induction false} HistoryLinesAreOneLine(entries: seq<ChatEntry>)
    requires forall i :: 0 <= i < |entries| ==> OneLineFields(entries[i])
    ensures forall k :: 0 <= k < |HistoryLines(entries)| ==> '\n' !in HistoryLines(entries)[k]
    decreases |entries|
  {
    if entries != [] {
      var init := entries[..|entries| - 1];
      var c := entries[|entries| - 1];
      HistoryLinesAreOneLine(init);
      assert OneLineFields(c);
      var tail := EntryLines(c) + [""];
      assert forall k :: 0 <= k < |tail| ==> '\n' !in tail[k];
      assert HistoryLines(entries) == HistoryLines(init) + tail;
    }
  }

  /** Read back line by line, a history whose fields are single lines gives
      the seven lines of each entry in turn (the six labelled lines and the
      blank one), and the empty piece after the last newline. */
  lemma HistoryReadsBack(entries: seq<ChatEntry>)
    requires forall i :: 0 <= i < |entries| ==> OneLineFields(entries[i])
    ensures Split(FormatEntries(entries), '\n') == HistoryLines(entries) + [""]
  {
    FormatEntriesAreLines(entries);
    HistoryLinesAreOneLine(entries);
    TerminatedReadsBack(HistoryLines(entries));
  }

  /** Reads every entry of a history in order; the first entry that lacks a
      key raises for the first key it lacks. */
  function ParseHistory(h: seq<map<string, string>>): Lookup<seq<ChatEntry>>
    decreases |h|
  {
    if h == [] then Found([])
    else match ParseHistory(h[..|h| - 1])
      case KeyError(k) => KeyError(k)
      case Found(entries) =>
        match ParseEntry(h[|h| - 1])
        case KeyError(k) => KeyError(k)
        case Found(c) => Found(entries + [c])
  }

  /** The history is read exactly when every entry has the six keys; what
      is read has one entry per dictionary, in order. */
  lemma {:induction false} ParseHistoryFound(h: seq<map<string, string>>)
    ensures ParseHistory(h).Found? <==> forall i :: 0 <= i < |h| ==> ParseEntry(h[i]).Found?
    ensures ParseHistory(h).Found? ==>
              && |ParseHistory(h).value| == |h|
              && forall i :: 0 <= i < |h| ==> ParseHistory(h).value[i] == ParseEntry(h[i]).value
    decreases |h|
  {
    if h != [] {
      var init := h[..|h| - 1];
      ParseHistoryFound(init);
      assert forall i :: 0 <= i < |init| ==> init[i] == h[i];
    }
  }

  /** `format_chat_history`: the blocks of the entries in order, `""` for an
      empty history, or the `KeyError` of the first entry that lacks a key. */
  method FormatChatHistory(chatHistory: seq<map<string, string>>) returns (r: Lookup<string>)
    ensures ParseHistory(chatHistory).KeyError? ==> r == KeyError(ParseHistory(chatHistory).key)
    ensures ParseHistory(chatHistory).Found? ==> r == Found(FormatEntries(ParseHistory(chatHistory).value))
  {
    var formattedHistory := "";
    ghost var entries: seq<ChatEntry> := [];
    var i := 0;
    while i < |chatHistory|
      invariant 0 <= i <= |chatHistory|
      invariant ParseHistory(chatHistory[..i]) == Found(entries)
      invariant formattedHistory == FormatEntries(entries)
    {
      assert chatHistory[..i + 1][..i] == chatHistory[..i];
      var entry := chatHistory[i];
      var parsed := ParseEntry(entry);
      if parsed.KeyError? {
        ParseHistoryStops(chatHistory, i + 1);
        return KeyError(parsed.key);
      }
      var c := parsed.value;
      EntryBlockAppended(formattedHistory, c);
      formattedHistory := formattedHistory + ("Question: " + c.question + "\n");
      formattedHistory := formattedHistory + ("Thought: " + c.thought + "\n");
      formattedHistory := formattedHistory + ("Action: " + c.action + "\n");
      formattedHistory := formattedHistory + ("Action Input: " + c.actionInput + "\n");
      formattedHistory := formattedHistory + ("Observation: " + c.observation + "\n");
      formattedHistory := formattedHistory + ("Final Answer: " + c.finalAnswer + "\n\n");
      FormatEntriesSnoc(entries, c);
      entries := entries + [c];
      i := i + 1;
    }
    assert chatHistory[..i] == chatHistory;
    r := Found(formattedHistory);
  }

  /** Once a prefix of the history fails to read, the whole history fails
      with the same key. */
  lemma {:induction false} ParseHistoryStops(h: seq<map<string, string>>, n: nat)
    requires n <= |h| && ParseHistory(h[..n]).KeyError?
    ensures ParseHistory(h) == ParseHistory(h[..n])
    decreases |h| - n
  {
    if n < |h| {
      assert h[..n + 1][..n] == h[..n];
      assert ParseHistory(h[..n + 1]) == ParseHistory(h[..n]);
      ParseHistoryStops(h, n + 1);
    } else {
      assert h[..n] == h;
    }
  }
}
