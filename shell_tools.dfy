/** The interactive shell session of tools/shell_tools.py: a manager that
    owns at most one child shell process, writes commands to its standard
    input and hands back, on each command, the lines a background reader has
    queued from the child's standard output.

    The operating system is abstract. A child is known by its spawn index;
    `childInput[k]` is the text written so far to the standard input of the
    k-th child. Whether spawning or writing succeeds is a parameter of the
    operation. The background reader is driven explicitly: `ReaderStep` runs
    one iteration of its loop, with the line `readline()` returned and
    whether `poll()` found the child exited. */
module ShellTools {
  import opened Common
  import opened Strings

  const OpenedMessage := "Shell opened successfully and ready to execute commands"
  const NotOpenedMessage := "Shell is not opened."
  const ClosedMessage := "Shell closed"
  const ErrorPrefix := "An error occurred: "

  /** What starting the shell program does: a child, or an OS error whose
      message `open_shell` formats into its reply. */
  datatype SpawnOutcome = Spawned | SpawnFailed(reason: string)

  /** What writing and flushing a line to the child's standard input does. */
  datatype WriteOutcome = Written | WriteFailed(reason: string)

  class ShellManager {
    /** `shell_process`: the spawn index of the live child, `None` when closed. */
    var shellProcess: Option<nat>
    /** `output_queue`: lines queued by the reader, oldest first. */
    var outputQueue: seq<string>
    /** `output_thread`: the reader started for the live child. */
    var outputThread: Option<nat>
    /** `stop_thread`: the event that tells the reader loop to end. */
    var stopThread: bool
    /** The reader thread is still inside its loop. */
    var readerRunning: bool
    /** Text written to the standard input of each child ever spawned. */
    var childInput: seq<string>

    /** The live child is the latest one spawned, it has exactly one reader,
        and a reader runs only while a child is live. */
    ghost predicate Valid()
      reads this
    {
      && (shellProcess.Some? <==> outputThread.Some?)
      && (shellProcess.Some? ==> shellProcess.value + 1 == |childInput| && outputThread == shellProcess)
      && (readerRunning ==> shellProcess.Some?)
    }

    /** `__init__`: closed, nothing queued, stop event clear. */
    constructor ()
      ensures Valid()
      ensures shellProcess == None && outputThread == None
      ensures outputQueue == [] && !stopThread && !readerRunning && childInput == []
    {
      shellProcess := None;
      outputQueue := [];
      outputThread := None;
      stopThread := false;
      readerRunning := false;
      childInput := [];
    }

    /** `open_shell`. Opening an open manager changes nothing and reports
        success; a spawn failure reports the OS error and leaves the manager
        closed; a spawn starts one child and one reader. The stop event is
        left as it was, so after a `CloseShell` it stays set. */
    method OpenShell(spawn: SpawnOutcome) returns (msg: string)
      requires Valid()
      modifies this
      ensures Valid()
      ensures old(shellProcess).Some? ==> msg == OpenedMessage && unchanged(this)
      ensures old(shellProcess).None? && spawn.SpawnFailed? ==>
                msg == ErrorPrefix + spawn.reason && unchanged(this)
      ensures old(shellProcess).None? && spawn.Spawned? ==>
                && msg == OpenedMessage
                && shellProcess == Some(old(|childInput|))
                && childInput == old(childInput) + [""]
                && outputThread == shellProcess && readerRunning
                && outputQueue == old(outputQueue) && stopThread == old(stopThread)
    {
      if shellProcess.None? {
        match spawn
        case SpawnFailed(reason) =>
          msg := ErrorPrefix + reason;
        case Spawned =>
          shellProcess := Some(|childInput|);
          childInput := childInput + [""];
          outputThread := shellProcess;
          readerRunning := true;
          msg := OpenedMessage;
      } else {
        msg := OpenedMessage;
      }
    }

    /** `open_shell` as evidently intended: identical to `OpenShell` except
        that a successful spawn clears the stop event before the new reader
        starts, so the reader of a reopened session reads. */
    method OpenShellResettingStop(spawn: SpawnOutcome) returns (msg: string)
      requires Valid()
      modifies this
      ensures Valid()
      ensures old(shellProcess).Some? ==> msg == OpenedMessage && unchanged(this)
      ensures old(shellProcess).None? && spawn.SpawnFailed? ==>
                msg == ErrorPrefix + spawn.reason && unchanged(this)
      ensures old(shellProcess).None? && spawn.Spawned? ==>
                && msg == OpenedMessage
                && shellProcess == Some(old(|childInput|))
                && childInput == old(childInput) + [""]
                && outputThread == shellProcess && readerRunning
                && outputQueue == old(outputQueue) && !stopThread
    {
      if shellProcess.None? {
        match spawn
        case SpawnFailed(reason) =>
          msg := ErrorPrefix + reason;
        case Spawned =>
          shellProcess := Some(|childInput|);
          childInput := childInput + [""];
          stopThread := false;
          outputThread := shellProcess;
          readerRunning := true;
          msg := OpenedMessage;
      } else {
        msg := OpenedMessage;
      }
    }

    /** `issue_command`. On a closed manager nothing is written. On an open
        one, `command` and a newline are appended to the live child's input
        and every queued line is handed back, oldest first, joined by
        newlines; a failed write reports the error and leaves the manager
        open with its queue intact. */
    method IssueCommand(command: string, write: WriteOutcome) returns (out: string)
      requires Valid()
      modifies this
      ensures Valid()
      ensures old(shellProcess).None? ==> out == NotOpenedMessage && unchanged(this)
      ensures old(shellProcess).Some? && write.WriteFailed? ==>
                out == ErrorPrefix + write.reason && unchanged(this)
      ensures old(shellProcess).Some? && write.Written? ==>
                && out == Join(old(outputQueue), "\n")
                && outputQueue == []
                && childInput == old(childInput)[old(shellProcess).value :=
                                   old(childInput)[old(shellProcess).value] + command + "\n"]
                && shellProcess == old(shellProcess) && outputThread == old(outputThread)
                && stopThread == old(stopThread) && readerRunning == old(readerRunning)
    {
      if shellProcess.Some? {
        match write
        case WriteFailed(reason) =>
          out := ErrorPrefix + reason;
        case Written =>
          var k := shellProcess.value;
          childInput := childInput[k := childInput[k] + command + "\n"];
          out := GetOutput();
      } else {
        out := NotOpenedMessage;
      }
    }

    /** `close_shell`. Closing an open manager writes `exit` to the child,
        drops the child and its reader and sets the stop event, which nothing
        ever clears; the queue is kept. Closing a closed manager changes
        nothing. */
    method CloseShell() returns (msg: string)
      requires Valid()
      modifies this
      ensures Valid()
      ensures old(shellProcess).None? ==> msg == NotOpenedMessage && unchanged(this)
      ensures old(shellProcess).Some? ==>
                && msg == ClosedMessage
                && childInput == old(childInput)[old(shellProcess).value :=
                                   old(childInput)[old(shellProcess).value] + "exit\n"]
                && shellProcess == None && outputThread == None
                && stopThread && !readerRunning
                && outputQueue == old(outputQueue)
    {
      if shellProcess.Some? {
        var k := shellProcess.value;
        childInput := childInput[k := childInput[k] + "exit\n"];
        shellProcess := None;
        stopThread := true;
        // the join returns once the reader has left its loop
        readerRunning := false;
        outputThread := None;
        msg := ClosedMessage;
      } else {
        msg := NotOpenedMessage;
      }
    }

    /** One iteration of `_read_output`. A reader that has left its loop does
        nothing. The loop first tests the stop event and ends if it is set.
        Otherwise the line read is queued, stripped, when it is non-empty
        before stripping (so a blank `"\n"` queues `""`), and the loop ends
        when the child has exited. */
    method ReaderStep(rawLine: string, exited: bool)
      requires Valid()
      modifies this`outputQueue, this`readerRunning
      ensures Valid()
      ensures !old(readerRunning) ==> unchanged(this)
      ensures old(readerRunning) && stopThread ==>
                !readerRunning && outputQueue == old(outputQueue)
      ensures old(readerRunning) && !stopThread ==>
                && outputQueue == old(outputQueue) + (if rawLine != "" then [Strip(rawLine)] else [])
                && readerRunning == !exited
    {
      if readerRunning {
        if stopThread {
          readerRunning := false;
        } else {
          if rawLine != "" {
            outputQueue := outputQueue + [Strip(rawLine)];
          }
          if exited {
            readerRunning := false;
          }
        }
      }
    }

    /** `_get_output`: removes every queued line, oldest first, and returns
        them joined by newlines (`""` when nothing was queued). */
    method GetOutput() returns (out: string)
      modifies this`outputQueue
      ensures out == Join(old(outputQueue), "\n")
      ensures outputQueue == []
    {
      var output: seq<string> := [];
      while outputQueue != []
        invariant output + outputQueue == old(outputQueue)
        decreases |outputQueue|
      {
        output := output + [outputQueue[0]];
        outputQueue := outputQueue[1..];
      }
      assert output == output + outputQueue;
      out := Join(output, "\n");
    }
  }

  /** A line as `readline()` returns it holds a newline at most at its end;
      stripped, it holds none. So a drain of at least one line splits back
      into its lines (see `Strings.SplitJoin`); an empty drain and a drain
      of one blank line both give `""` (see `EmptyAndBlankRepliesCoincide`). */
  lemma ReadLineStripsToOneLine(rawLine: string)
    requires forall k :: 0 <= k < |rawLine| - 1 ==> rawLine[k] != '\n'
    ensures '\n' !in Strip(rawLine)
  {
    var r := Strip(rawLine);
    StripCutsWhitespace(rawLine);
    var i :| PaddedAt(rawLine, r, i);
    forall k | 0 <= k < |r|
      ensures r[k] != '\n'
    {
      if k < |r| - 1 {
        assert r[k] == rawLine[i..i + |r|][k] == rawLine[i + k];
      } else {
        assert IsSpace('\n');
      }
    }
  }

  /** A line that neither starts nor ends with whitespace comes back from
      `Strip` without the newline `readline()` leaves on it. */
  lemma StripNewlineTerminated(text: string)
    requires text != [] && !IsSpace(text[0]) && !IsSpace(text[|text| - 1])
    ensures Strip(text + "\n") == text
  {
    var s := text + "\n";
    assert s[..|s| - 1] == text;
  }

  /** The values the blank-line scenario reads back. */
  lemma BlankLineScenarioValues()
    ensures Strip("\n") == "" && Strip("ok\n") == "ok" && Join(["", "ok"], "\n") == "\nok"
  {
    assert Join(["", "ok"], "\n") == "\nok" by {
      JoinPair("", "ok", "\n");
      assert "" + "\n" + "ok" == "\nok";
    }
    assert Strip("\n") == "" by {
      StripBlank("\n");
    }
    assert Strip("ok\n") == "ok" by {
      assert "ok" + "\n" == "ok\n";
      StripNewlineTerminated("ok");
    }
  }

  /** Two parts joined: the first, the separator, the second. */
  lemma JoinPair(a: string, b: string, sep: string)
    ensures Join([a, b], sep) == a + sep + b
  {
    assert [a, b][1..] == [b];
  }

  /** The values the reopening scenarios read back. */
  lemma HelloScenarioValues()
    ensures Strip("hello\n") == "hello" && Join(["hello"], "\n") == "hello"
  {
    assert Strip("hello\n") == "hello" by {
      assert "hello" + "\n" == "hello\n";
      StripNewlineTerminated("hello");
    }
  }

  /** The blank-line quirk: the reader of a fresh session that reads `"\n"`
      and then `"ok\n"` queues two lines, the first one empty, and the caller
      gets `"\nok"`. */
  method BlankLineIsQueued() returns (out: string)
    ensures out == "\nok"
  {
    BlankLineScenarioValues();
    var m := new ShellManager();
    var openMsg := m.OpenShell(Spawned);
    m.ReaderStep("\n", false);
    m.ReaderStep("ok\n", false);
    out := m.IssueCommand("ls", Written);
  }

  /** A reply cannot tell no output from one blank line: a command issued
      before the reader has read anything gets `""`, and so does a command
      issued after it has read and queued a lone `"\n"`. */
  method EmptyAndBlankRepliesCoincide() returns (before: string, after: string)
    ensures before == "" && after == ""
  {
    var m := new ShellManager();
    var openMsg := m.OpenShell(Spawned);
    before := m.IssueCommand("true", Written);
    assert Strip("\n") == "" by {
      StripBlank("\n");
    }
    m.ReaderStep("\n", false);
    assert m.outputQueue == [""];
    after := m.IssueCommand("echo", Written);
  }

  /** After open, close and open again, the new reader finds the stop event
      still set and leaves its loop without reading: the reopened session
      never hands back anything its new child prints. */
  method ReopenedSessionLosesOutput() returns (out: string)
    ensures out == ""
  {
    var m := new ShellManager();
    var openMsg := m.OpenShell(Spawned);
    var closeMsg := m.CloseShell();
    assert m.shellProcess.None? && m.outputQueue == [] && m.stopThread;
    var reopenMsg := m.OpenShell(Spawned);
    m.ReaderStep("hello\n", false);
    assert m.outputQueue == [];
    out := m.IssueCommand("echo hello", Written);
  }

  /** The same run with the stop event cleared on open: the reopened
      session hands back what its child printed. */
  method ReopenedSessionKeepsOutput() returns (out: string)
    ensures out == "hello"
  {
    HelloScenarioValues();
    var m := new ShellManager();
    var openMsg := m.OpenShellResettingStop(Spawned);
    var closeMsg := m.CloseShell();
    assert m.shellProcess.None? && m.outputQueue == [];
    var reopenMsg := m.OpenShellResettingStop(Spawned);
    assert m.readerRunning && !m.stopThread && m.outputQueue == [];
    m.ReaderStep("hello\n", false);
    assert m.outputQueue == ["hello"];
    out := m.IssueCommand("echo hello", Written);
  }
}
