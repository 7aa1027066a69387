# A verified model of the multi-tool ReAct agent's local logic

The repository is a LangChain documentation helper. It is a Streamlit page
in front of a ReAct agent. The agent can query several Pinecone vector
stores and run shell commands and Python, and create, read, list and delete files. Almost all of it is glue
around external services. This Dafny project models the parts that hold
logic of their own, and proves what they promise:

- **The interactive shell session** (`tools/shell_tools.py`, module
  `ShellTools`). `ShellManager` is a class with the source's fields. The
  operating system is abstract: a child process is known by its spawn
  index, and `childInput[k]` is the text written so far to the standard
  input of child `k`. Whether a spawn or a write succeeds is a parameter of
  the operation. The background reader thread is driven one loop
  iteration at a time (`ReaderStep`), given the line `readline()` returned
  and whether `poll()` found the child exited.
- **The "Sources:" block of an answer** (`main.py`, module `Sources`):
  `create_sources_string`, `has_substring` and `get_page_name`.
- **The agent helpers** (`backend/core_agent.py`, module `CoreAgent`):
  `find_tool_by_name` and `format_chat_history`. The copy of
  `find_tool_by_name` in `backend/core-react.py` is the same code and is
  modelled by the same member.
- **The combined retriever** (`backend/core.py`, module `Retrieval`).
  `backend/core-react.py` repeats the class, apart from one commented-out
  line, so one class models both. A retriever is modelled as the function from a query to the
  documents its `invoke` returns.
- **The context text of `retrieve_context_info`**
  (`backend/core-react.py`, module `CoreReact`). This is the loop that
  numbers the retrieved documents.

The Python built-ins this code calls are written out as functions in
module `Strings`. They are `in` on strings, `split`, `join`, `replace`,
`strip`, `capitalize`, `<` on strings with `list.sort()`, and `f"{i}"`.
The properties the callers rely on are proved about them. `Common` holds
`Option` (Python's `None` or a value) and `Lookup` (a result or a
`KeyError`).

Three behaviours of the shell session follow from the code and are kept
in the model:

- `close_shell` (tools/shell_tools.py:70-81) leaves `output_queue` as it
  is. Lines queued before a close come back on the first command after
  reopening.
- The reader queues `line.strip()`, not the raw line, and it queues a
  blank line as `""`.
- The stop event is set by `close_shell` and never cleared, so a reopened
  session has a reader that stops at once. The docstring of `open_shell`
  (tools/shell_tools.py:26) promises a background thread that reads the
  shell's output; see "Findings".

## Model

| member | source | states |
|---|---|---|
| ShellTools.ShellManager.constructor | tools/shell_tools.py:10-14 | A new manager is closed, has no reader, an empty queue and a clear stop event, and has spawned nothing. |
| ShellTools.ShellManager.OpenShell | tools/shell_tools.py:30-50 | Opening an open manager returns the success message and changes nothing. A failed spawn returns "An error occurred: " followed by the OS message and leaves the manager closed and unchanged. A successful spawn records one new child with empty input, and starts exactly one reader for it. It returns the success message and keeps the queue and the stop event as they were. The manager invariant is kept. |
| ShellTools.ShellManager.OpenShellResettingStop | tools/shell_tools.py:31-46 | The corrected open: the same cases as `OpenShell`, except that a successful spawn also clears the stop event. |
| ShellTools.ShellManager.IssueCommand | tools/shell_tools.py:52-64 | On a closed manager it returns "Shell is not opened." and writes nothing. On an open one it appends exactly `command + "\n"` to the live child's input. It returns the drained queue joined by newlines and leaves the queue empty. A failed write returns the error message and leaves the manager open and unchanged. |
| ShellTools.ShellManager.CloseShell | tools/shell_tools.py:66-83 | Closing an open manager appends "exit\n" to the child's input, drops the child and its reader, sets the stop event and returns "Shell closed". It leaves the queue untouched. Closing a closed manager returns "Shell is not opened." and changes nothing. |
| ShellTools.ShellManager.ReaderStep | tools/shell_tools.py:85-94 | A reader that has left its loop changes nothing. With the stop event set, the loop ends and queues nothing. Otherwise it queues `Strip(line)` exactly when the line read is non-empty, and it keeps running exactly when the child has not exited. |
| ShellTools.ShellManager.GetOutput | tools/shell_tools.py:96-103 | Every queued line is removed, oldest first. The result is those lines joined by "\n" ("" for an empty queue), and the queue ends empty. |
| ShellTools.ReadLineStripsToOneLine | tools/shell_tools.py:90-92 | A line as `readline()` returns it has a newline at most at its end, and stripped it has none. So a drain of at least one line splits back into its lines; an empty drain and a drain of one blank line both give `""`. |
| ShellTools.StripNewlineTerminated | tools/shell_tools.py:92 | Text with no whitespace at either end comes back from `strip` without the trailing newline. |
| ShellTools.BlankLineIsQueued | tools/shell_tools.py:89-103 | A worked run: a fresh session whose reader reads "\n" and then "ok\n" hands back "\nok" on the next command. |
| ShellTools.EmptyAndBlankRepliesCoincide | tools/shell_tools.py:89-103 | A worked run: a command issued before the reader has read anything and a command issued after it has queued a lone "\n" both get `""`, so a reply cannot tell no output from one blank line. |
| ShellTools.ReopenedSessionLosesOutput | tools/shell_tools.py:78-89 | The as-written open, close, open run: the reader of the reopened session finds the stop event set, and the next command gets "" although the child printed "hello". |
| ShellTools.ReopenedSessionKeepsOutput | tools/shell_tools.py:31-92 | The same run with the corrected open hands back "hello". |
| Sources.GetPageName | main.py:33-34 | `get_page_name`: the last "/" segment, with ".html" removed, dots and underscores turned into spaces, then capitalized. Its contract: no "/", "." or "_" in the result. `Sources.GetPageNameCharacters` and `Sources.GetPageNameOfLastSegment` state the rest. |
| Strings.Contains | main.py:29 | `sub in s`. A string contains only substrings no longer than itself. `Strings.ContainsIffOccurrence` ties it to an occurrence at some position. |
| Strings.Join | tools/shell_tools.py:103 | `'\n'.join(output)`. A non-empty join begins with its first part. `Strings.JoinSplit` and `Strings.SplitJoin` make it the inverse of `split`. |
| Strings.LastSegment | main.py:34 | `url.split("/")[-1]`. It never holds the separator, and a string without the separator is its own last segment. `Strings.LastSegmentAfterSeparator` shows it ignores all text up to the last separator. |
| Strings.ReplaceAll | main.py:34 | `s.replace(pat, rep)` for a non-empty pattern. A replacement as long as the pattern keeps the length, as for "." and "_" becoming " ". The `Replace*` lemmas state which characters remain. |
| Strings.Strip | tools/shell_tools.py:92 | `line.strip()`. The result is never longer than the line, and it is empty exactly when the line is all whitespace. `Strings.StripCutsWhitespace` and `Strings.StripIdempotent` state the rest. |
| Strings.Capitalize | main.py:34 | `capitalize()`. It keeps the length and the letters up to case. `Strings.CapitalizeCases` states which characters are upper- or lower-case. |
| Strings.LexLess | main.py:21 | `<` on strings, which `sources_list.sort()` orders by. A string is never less than itself. The `LexLess*` lemmas make it a strict total order. |
| Sources.HasSubstring | main.py:27-31 | The scan is true exactly when some element contains the substring, so it is false on an empty collection. |
| Sources.ListOf | main.py:20 | `list(set)` holds exactly the elements of the set, each once. |
| Sources.SortOfDistinct | main.py:20-21 | Sorting a repetition-free list gives a strictly ascending list with the same elements. |
| Sources.LastSegmentCharacters | main.py:34 | `url.split("/")[-1]` has no slash, and every character of it comes from the URL. |
| Sources.CleanSegmentCharacters | main.py:34 | After the three `replace` calls no dot or underscore is left, and every character comes from the segment or is a space. |
| Sources.GetPageNameCharacters | main.py:34 | A page name has no "/", "." or "_". Every character of it that is not a letter comes from the URL or is a space. |
| Sources.GetPageNameOfLastSegment | main.py:34 | The page name depends only on the text after the last "/". |
| Sources.SourceLinkIsOneLine | main.py:24 | A source URL without a newline gives a link line without one. |
| Sources.SourcesBlockLines | main.py:22-24 | Split at newlines, the block is the "Sources:" heading, then one `[name](url)` line per source in the given order, then the empty piece after the last newline. |
| Sources.CreateSourcesString | main.py:17-25 | The result is "" exactly when no source contains ".html", which covers the empty set. Otherwise it is the "Sources:" block over a strictly ascending order of exactly the given sources. |
| CoreAgent.FindToolByName | backend/core_agent.py:21-25 | It returns `None` exactly when no tool has the name. Otherwise it returns the tool at the first position whose name matches. The copy in backend/core-react.py:76-80 is the same code. |
| CoreAgent.FirstNamedUnique | backend/core_agent.py:22-24 | There is only one first position with a given name, so the tool found is determined by the list and the name. |
| CoreAgent.ParseEntryKeys | backend/core_agent.py:137-142 | An entry is read exactly when it has all six keys, and then each field is the value under its key. Otherwise the `KeyError` names the first key, in reading order, that is missing. |
| CoreAgent.ParseHistoryFound | backend/core_agent.py:136-142 | A history is read exactly when every entry has the six keys. What is read has one entry per dictionary, in order. |
| CoreAgent.ParseHistoryStops | backend/core_agent.py:136-142 | Once an entry fails to read, the whole history fails with that entry's key. |
| CoreAgent.EntryBlockLines | backend/core_agent.py:137-142 | One entry's text is its Question, Thought, Action, Action Input, Observation and Final Answer lines, in that order, each ended by a newline, and then one blank line. |
| CoreAgent.FormatEntriesConcat | backend/core_agent.py:136-143 | Formatting distributes over concatenation: `format(a + b) == format(a) + format(b)`. |
| CoreAgent.FormatEntriesSnoc | backend/core_agent.py:136-142 | One more entry appends exactly its own block. |
| CoreAgent.FormatEntriesAreLines | backend/core_agent.py:134-143 | The formatted history is its lines, each ended by a newline. There are seven lines per entry, and none for an empty history. |
| CoreAgent.HistoryReadsBack | backend/core_agent.py:137-142 | If no field holds a newline, splitting the text at newlines gives back each entry's seven lines in turn, then the empty piece after the last newline. |
| CoreAgent.FormatChatHistory | backend/core_agent.py:134-143 | The result is the blocks of all entries in order ("" for an empty history), or the `KeyError` of the first entry that lacks a key. |
| Retrieval.CombinedAppend | backend/core.py:23-27 | Combining two groups of retrievers concatenates their results, in order. |
| Retrieval.CombinedCount | backend/core.py:26 | The combined result has exactly as many documents as the retrievers return together, duplicates included. With no retrievers it is empty. |
| Retrieval.CombinedAt | backend/core.py:25-26 | Document `j` of retriever `k` sits at the position just after all documents of the retrievers before `k`. |
| Retrieval.CombinedHolds | backend/core.py:23-27 | A document is in the combined result exactly when some retriever returns it. |
| Retrieval.CombinedRetriever.constructor | backend/core.py:20-21 | The retriever keeps the given retrievers, in order. |
| Retrieval.CombinedRetriever.GetRelevantDocuments | backend/core.py:23-27 | The loop returns the concatenation of every retriever's documents in retriever order. The repeated class in backend/core-react.py:30-35 runs the same loop. |
| Retrieval.CombinedRetriever.Invoke | backend/core.py:39-42 | `invoke(q)` returns what `get_relevant_documents(q)` returns. The repeated class in backend/core-react.py:47-50 delegates the same way. |
| Retrieval.CombinedRetriever.Retrieve | backend/core.py:35-37 | With an "input" key, the result is the documents for the query under it. Without one, it is a `KeyError("input")`. |
| Retrieval.CombinedRetriever.AsRetriever | backend/core.py:29-30 | Returns the object itself. |
| Retrieval.CombinedRetriever.WithConfig | backend/core.py:32-33 | Returns the object itself, whatever the configuration. |
| CoreReact.ContextTextEmpty | backend/core-react.py:63-68 | An empty document list gives "". |
| CoreReact.ContextTextLines | backend/core-react.py:63-68 | If no content holds a newline, splitting the text at newlines gives one line per document, `"Document " + i + " page_content:" + content`, numbered 0, 1, 2, ... in document order, then the empty piece after the last newline. |
| CoreReact.RetrieveContextInfo | backend/core-react.py:62-68 | The text is, for each document of the combined result in order, "Document i page_content:", then its content, then a newline, with `i` counting from 0. |
| Strings.ContainsIffOccurrence | main.py:29 | `sub in s` holds exactly when `sub` occurs at some position of `s`. |
| Strings.Split | main.py:34 | `split` always gives at least one piece. |
| Strings.SplitWithoutSeparator | main.py:34 | A string without the separator splits into itself alone. |
| Strings.SplitConcat | main.py:34 | The pieces of `a + sep + b` are the pieces of `a` followed by the pieces of `b`. |
| Strings.SplitPiecesLackSeparator | main.py:34 | No piece of a split holds the separator. |
| Strings.JoinSplit | main.py:34 | Joining the pieces with the separator gives back the string. |
| Strings.SplitJoin | tools/shell_tools.py:103 | Splitting a non-empty join gives back the parts when no part holds the separator. |
| Strings.LastSegmentAfterSeparator | main.py:34 | The last piece has no separator and ignores everything up to the last separator. |
| Strings.ReplaceKeepsCharacters | main.py:34 | Every character of a `replace` result comes from the string or from the replacement. |
| Strings.ReplaceRemovesCharacter | main.py:34 | Replacing a character by text without it leaves no occurrence of it. |
| Strings.ReplaceWithoutOccurrence | main.py:34 | A string without the pattern is left unchanged. |
| Strings.TrimStart | tools/shell_tools.py:92 | What is left is a suffix of the string, and everything cut off is whitespace. It does not start with whitespace. |
| Strings.TrimEnd | tools/shell_tools.py:92 | What is left is a prefix of the string, and everything cut off is whitespace. It does not end with whitespace. |
| Strings.StripCutsWhitespace | tools/shell_tools.py:92 | `strip()` gives a piece of the string with only whitespace around it, and the piece neither starts nor ends with whitespace. |
| Strings.StripIdempotent | tools/shell_tools.py:92 | Stripping twice is stripping once. |
| Strings.StripBlank | tools/shell_tools.py:91-92 | A whitespace-only line such as "\n" strips to "". |
| Strings.CapitalizeCases | main.py:34 | `capitalize` keeps the length. The first character is not lower-case, and no later one is upper-case. The letters are unchanged up to case, and every non-letter stays as it was. |
| Strings.LexLessIrreflexive | main.py:21 | No string is less than itself. |
| Strings.LexLessTransitive | main.py:21 | String `<` is transitive. |
| Strings.LexLessTotal | main.py:21 | Of two different strings, one is less than the other. |
| Strings.LexLessAsymmetric | main.py:21 | Two strings are never each less than the other. |
| Strings.Insert | main.py:21 | Insertion adds exactly the one element. |
| Strings.Sort | main.py:21 | Sorting is a permutation. |
| Strings.InsertSorted | main.py:21 | Inserting into a sorted list keeps it sorted. |
| Strings.SortSorted | main.py:21 | The sorted list is in ascending order. |
| Strings.SortedDistinctIsStrict | main.py:20-21 | A sorted list without repetitions is strictly ascending. |
| Strings.StrictlySortedUnique | main.py:20-21 | Two strictly ascending lists with the same elements are equal. So the order of the sources is determined by the set, whatever order `list(set)` gives. |
| Strings.NatToString | backend/core-react.py:65 | `f"{i}"` is a non-empty string of decimal digits without a leading zero. |
| Strings.ParseNatToString | backend/core-react.py:65 | Reading the digits of `f"{i}"` gives back `i`. |
| Strings.TerminatedSplit | main.py:22-24 | Newline-terminated single lines, split at newlines, give back the lines in order, then the pieces of what follows. |
| Strings.ConcatAppend | backend/core_agent.py:136-142 | Repeated `+=` over two runs of parts is the first result followed by the second. |

## Left out

- Concurrency of the shell session. The reader thread's real interleaving with callers is not modelled; each reader iteration is an explicit step. The same goes for the blocking `readline()` and the `join()` that waits for it, for `terminate()`, and for the window in `close_shell` where `shell_process` is `None` while the reader still runs.
- The platform choice of `cmd` or `bin/bash`, and the `Popen` arguments. These are OS queries and process creation; whether a spawn succeeds is a parameter.
- `close_shell`: an exception raised by its write, flush or close propagates to the caller in Python. The model treats those writes as always succeeding.
- `issue_command`: a write that succeeds followed by a flush that fails is one failed write in the model. The partly written text is not recorded.
- A thread that fails to start after a successful spawn is not modelled. In Python it would leave the manager open with no reader.
- `run_shell`, which wraps `subprocess.run`.
- The file tools, the OS and clock tools, ingestion, the prompt templates, and the LLM and agent executors (`chat_with_agent`, `run_llm`, the module-level agent runs). These are library and service calls.
- The Streamlit user interface and its session state.
- Building vector stores from environment variables in `retrieve_context_info`; the combined retriever is a parameter. A retriever is modelled as a pure function of the query, so a store whose answers change between calls is not modelled.
- Document metadata is carried but not inspected; no modelled code reads it.
- `Retrieval.CombinedRetriever.Retrieve`: the input dictionary is `map<string, string>`, so a non-string query value is not modelled.
- `CoreAgent.FormatChatHistory`: entries are dictionaries from strings to strings, so Python's `str()` of non-string values in the f-strings is not modelled.
- `CoreAgent.FindToolByName`: tools are values, so it returns an equal tool, not the same object.
- `Strings.CapitalizeCases`: `capitalize` and the case tests are ASCII only. Python applies Unicode case mappings, including title case for the first character.
- `Strings.ReplaceKeepsCharacters`: `replace` with an empty pattern is not modelled; `get_page_name` only uses non-empty patterns.
- `Strings.ReplaceAll`: the same restriction to a non-empty pattern, which is its `requires`.
- `Strings.Capitalize`: ASCII case mapping only, as for `Strings.CapitalizeCases`.
- `Strings.LexLessTotal`: strings are compared by code point, like Python. A Python `str` may hold lone surrogates (after `surrogateescape` decoding, say), and a Dafny `char` cannot, so such strings are outside the model.
- `Sources.CreateSourcesString`: the output is stated for the strictly ascending order of the set, which `Strings.StrictlySortedUnique` shows is unique. `list.sort()` is modelled by an insertion sort, not Timsort; both give the same ascending order.

## Findings

| source | as written | input that shows it | evidently intended | confidence | as-written member | corrected member |
|---|---|---|---|---|---|---|
| tools/shell_tools.py:78 | `close_shell` sets `stop_thread`. `open_shell` (lines 31-46) never clears it. The reader of a later session checks it first (line 89) and leaves its loop before reading anything. | open, close, open, then the child prints "hello" and the caller issues a command: the reply is "", not "hello" | opening a closed manager gives a fresh reader that queues the child's output; this needs the stop event cleared before the new reader starts | not executed | ShellTools.ReopenedSessionLosesOutput | ShellTools.ReopenedSessionKeepsOutput |
