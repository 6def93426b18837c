/** `LogFileWriter`: a bounded in-memory buffer of lines that a worker
    thread swaps out and appends to the log file every half second, until
    `flush` clears its working flag. The model is the sequential state
    machine of one writer; the worker's iterations are `Tick` events. */
module LogFileWriter {

  /** `MAX_BUFFER_SIZE`. */
  const MaxBufferSize := 1000

  // ---------------------------------------------------------------------------
  // What appending a batch of messages does to the file

  /** The text a batch of messages adds to the file: a line separator
      before each message (`newLine`, then `append`), in order. */
  function Lines(messages: seq<string>): (text: string)
  {
    if |messages| == 0 then ""
    else Lines(messages[..|messages| - 1]) + "\n" + messages[|messages| - 1]
  }

  lemma {:induction false} LinesConcat(a: seq<string>, b: seq<string>)
    ensures Lines(a + b) == Lines(a) + Lines(b)
    decreases |b|
  {
    if |b| > 0 {
      var b' := b[..|b| - 1];
      assert (a + b)[..|a + b| - 1] == a + b';
      LinesConcat(a, b');
    } else {
      assert a + b == a;
    }
  }

  /** The writing loop of `writeBufferToFile` (and the single write of
      `Logger.appendToFile`): starting from `file`, each message in turn
      gets a new line and is appended. */
  function AppendEach(file: string, messages: seq<string>): (r: string)
    ensures r == file + Lines(messages)
    decreases |messages|
  {
    if |messages| == 0 then file
    else
      var r := AppendEach(file + "\n" + messages[0], messages[1..]);
      assert messages == [messages[0]] + messages[1..];
      LinesConcat([messages[0]], messages[1..]);
      assert Lines([messages[0]]) == "" + "\n" + messages[0];
      r
  }

  // ---------------------------------------------------------------------------
  // The writer

  /** The shared buffer, the worker's `isWorking` flag, and the contents of
      the log file. */
  datatype Writer = Writer(buffer: seq<string>, working: bool, file: string)

  /** A new writer on a log file holding `file`, its worker running. */
  function Open(file: string): (w: Writer)
    ensures w.buffer == [] && w.working && w.file == file
  {
    Writer([], true, file)
  }

  predicate Bounded(w: Writer) {
    |w.buffer| <= MaxBufferSize
  }

  /** `logToFile(message)`: buffered while there is room, dropped silently
      when the buffer is full. */
  function LogToFile(w: Writer, message: string): (r: Writer)
    ensures |w.buffer| < MaxBufferSize ==> r.buffer == w.buffer + [message]
    ensures |w.buffer| >= MaxBufferSize ==> r == w
    ensures r.working == w.working && r.file == w.file
    ensures Bounded(w) ==> Bounded(r)
  {
    if |w.buffer| < MaxBufferSize then w.(buffer := w.buffer + [message]) else w
  }

  /** `writeBufferToFile()`: a non-empty buffer is swapped for an empty one
      and its messages appended to the file; `canOpen` is whether the file
      could be opened for appending (when it cannot, the swapped-out
      messages are lost). An empty buffer causes no write at all. */
  function WriteBufferToFile(w: Writer, canOpen: bool): (r: Writer)
    ensures r.buffer == [] && r.working == w.working
    ensures canOpen ==> r.file == w.file + Lines(w.buffer)
    ensures !canOpen ==> r.file == w.file
  {
    if |w.buffer| == 0 then w
    else if canOpen then Writer([], w.working, AppendEach(w.file, w.buffer))
    else Writer([], w.working, w.file)
  }

  /** `flush()`: the worker stops at its next look at the flag. */
  function Flush(w: Writer): (r: Writer)
    ensures !r.working && r.buffer == w.buffer && r.file == w.file
  {
    w.(working := false)
  }

  // ---------------------------------------------------------------------------
  // Runs

  /** A call of `logToFile`, one iteration of the worker loop (whose file
      open succeeds or not), or a call of `flush`. */
  datatype Event = Log(message: string) | Tick(canOpen: bool) | Stop

  /** One event; a tick after the flag is cleared finds the loop exited. */
  function Step(w: Writer, e: Event): (next: Writer) {
    match e
    case Log(m) => LogToFile(w, m)
    case Tick(canOpen) => if w.working then WriteBufferToFile(w, canOpen) else w
    case Stop => Flush(w)
  }

  function Run(w: Writer, events: seq<Event>): (last: Writer)
    decreases |events|
  {
    if |events| == 0 then w else Run(Step(w, events[0]), events[1..])
  }

  /** The messages the buffer took in, in submission order. */
  function Accepted(w: Writer, events: seq<Event>): (accepted: seq<string>)
    decreases |events|
  {
    if |events| == 0 then []
    else
      var e := events[0];
      (if e.Log? && |w.buffer| < MaxBufferSize then [e.message] else []) +
      Accepted(Step(w, e), events[1..])
  }

  /** The messages the worker swapped out of the buffer, in order. */
  function Drained(w: Writer, events: seq<Event>): (drained: seq<string>)
    decreases |events|
  {
    if |events| == 0 then []
    else
      var e := events[0];
      (if e.Tick? && w.working then w.buffer else []) + Drained(Step(w, e), events[1..])
  }

  /** The swapped-out messages that reached the file. */
  function Written(w: Writer, events: seq<Event>): (written: seq<string>)
    decreases |events|
  {
    if |events| == 0 then []
    else
      var e := events[0];
      (if e.Tick? && e.canOpen && w.working then w.buffer else []) + Written(Step(w, e), events[1..])
  }

  /** Every message passed to `logToFile`, accepted or not. */
  function Logged(events: seq<Event>): (logged: seq<string>)
    decreases |events|
  {
    if |events| == 0 then []
    else (if events[0].Log? then [events[0].message] else []) + Logged(events[1..])
  }

  predicate NoFailedOpen(events: seq<Event>) {
    forall i :: 0 <= i < |events| ==> events[i] != Tick(false)
  }

  predicate NoTick(events: seq<Event>) {
    forall i :: 0 <= i < |events| ==> !events[i].Tick?
  }

  /** The buffer never holds more than `MAX_BUFFER_SIZE` messages. */
  lemma {:induction false} RunStaysBounded(w: Writer, events: seq<Event>)
    requires Bounded(w)
    ensures Bounded(Run(w, events))
    decreases |events|
  {
    if |events| > 0 {
      RunStaysBounded(Step(w, events[0]), events[1..]);
    }
  }

  /** Conservation: what the worker swapped out, followed by what is still
      buffered, is what was buffered at the start followed by every accepted
      message, in order; nothing is duplicated or reordered. */
  lemma {:induction false} Conservation(w: Writer, events: seq<Event>)
    ensures Drained(w, events) + Run(w, events).buffer == w.buffer + Accepted(w, events)
    decreases |events|
  {
    if |events| > 0 {
      var e, w' := events[0], Step(w, events[0]);
      Conservation(w', events[1..]);
      var d, a := Drained(w', events[1..]), Accepted(w', events[1..]);
      var b := Run(w', events[1..]).buffer;
      assert Run(w, events).buffer == b;
      assert d + b == w'.buffer + a;
      match e
      case Log(m) =>
        if |w.buffer| < MaxBufferSize {
          assert w'.buffer == w.buffer + [m];
          assert Accepted(w, events) == [m] + a;
          assert w.buffer + ([m] + a) == (w.buffer + [m]) + a;
        } else {
          assert Accepted(w, events) == a;
        }
        assert Drained(w, events) == d;
      case Tick(canOpen) =>
        assert Accepted(w, events) == a;
        if w.working {
          assert w'.buffer == [];
          assert Drained(w, events) == w.buffer + d;
          assert (w.buffer + d) + b == w.buffer + (d + b);
        } else {
          assert Drained(w, events) == d;
        }
      case Stop =>
        assert Accepted(w, events) == a;
        assert Drained(w, events) == d;
    }
  }

  /** The file grows by exactly the lines of the written messages. */
  lemma {:induction false} FileGrowsByWritten(w: Writer, events: seq<Event>)
    ensures Run(w, events).file == w.file + Lines(Written(w, events))
    decreases |events|
  {
    if |events| > 0 {
      var e, w' := events[0], Step(w, events[0]);
      FileGrowsByWritten(w', events[1..]);
      assert Run(w, events) == Run(w', events[1..]);
      var rest := Written(w', events[1..]);
      if e.Tick? && e.canOpen && w.working {
        assert Written(w, events) == w.buffer + rest;
        LinesConcat(w.buffer, rest);
      } else {
        assert Written(w, events) == rest;
        assert w'.file == w.file;
      }
    }
  }

  /** When every open succeeds, everything swapped out is written. */
  lemma {:induction false} AllDrainedWritten(w: Writer, events: seq<Event>)
    requires NoFailedOpen(events)
    ensures Written(w, events) == Drained(w, events)
    decreases |events|
  {
    if |events| > 0 {
      assert events[0] != Tick(false);
      assert NoFailedOpen(events[1..]) by {
        forall i | 0 <= i < |events| - 1
          ensures events[1..][i] != Tick(false)
        {
          assert events[1..][i] == events[i + 1];
        }
      }
      AllDrainedWritten(Step(w, events[0]), events[1..]);
    }
  }

  /** With every open succeeding, the file followed by the lines still
      buffered is the starting file followed by the lines of everything
      buffered at the start and everything accepted since. */
  lemma FileAndBufferHoldAllAccepted(w: Writer, events: seq<Event>)
    requires NoFailedOpen(events)
    ensures var r := Run(w, events);
            r.file + Lines(r.buffer) == w.file + Lines(w.buffer + Accepted(w, events))
  {
    var r := Run(w, events);
    Conservation(w, events);
    FileGrowsByWritten(w, events);
    AllDrainedWritten(w, events);
    LinesConcat(Drained(w, events), r.buffer);
  }

  /** Once the flag is cleared nothing more is drained or written, and the
      flag stays cleared. */
  lemma {:induction false} NoWritesAfterFlush(w: Writer, events: seq<Event>)
    requires !w.working
    ensures var r := Run(w, events);
            !r.working && r.file == w.file && Drained(w, events) == []
    decreases |events|
  {
    if |events| > 0 {
      var w' := Step(w, events[0]);
      assert !w'.working && w'.file == w.file;
      NoWritesAfterFlush(w', events[1..]);
      assert Drained(w, events) == [] + Drained(w', events[1..]);
    }
  }

  /** Without a drain, the buffer keeps the first messages up to its
      capacity and drops the rest. */
  lemma {:induction false} FirstMessagesKept(w: Writer, events: seq<Event>)
    requires Bounded(w) && NoTick(events)
    ensures var room := MaxBufferSize - |w.buffer|;
            var logged := Logged(events);
            Accepted(w, events) == if |logged| <= room then logged else logged[..room]
    decreases |events|
  {
    if |events| > 0 {
      var e, w' := events[0], Step(w, events[0]);
      assert !e.Tick?;
      assert NoTick(events[1..]) by {
        forall i | 0 <= i < |events| - 1
          ensures !events[1..][i].Tick?
        {
          assert events[1..][i] == events[i + 1];
        }
      }
      FirstMessagesKept(w', events[1..]);
      var room := MaxBufferSize - |w.buffer|;
      var rest := Logged(events[1..]);
      if e.Log? {
        assert Logged(events) == [e.message] + rest;
        if room > 0 {
          assert |w'.buffer| == |w.buffer| + 1;
          assert Accepted(w, events) == [e.message] + Accepted(w', events[1..]);
          if |rest| + 1 > room {
            assert ([e.message] + rest)[..room] == [e.message] + rest[..room - 1];
          }
        } else {
          assert w' == w;
          assert Accepted(w, events) == [] + Accepted(w', events[1..]);
        }
      } else {
        assert Logged(events) == [] + rest;
        assert Accepted(w, events) == [] + Accepted(w', events[1..]);
      }
    }
  }

  /** While the buffer has room for everything still to come, every
      message passed to `logToFile` is accepted. */
  lemma {:induction false} AllAcceptedWhileRoom(w: Writer, events: seq<Event>)
    requires |w.buffer| + |Logged(events)| <= MaxBufferSize
    ensures Accepted(w, events) == Logged(events)
    decreases |events|
  {
    if |events| > 0 {
      var e, w' := events[0], Step(w, events[0]);
      var rest := Logged(events[1..]);
      if e.Log? {
        assert Logged(events) == [e.message] + rest;
        assert |w'.buffer| == |w.buffer| + 1;
        AllAcceptedWhileRoom(w', events[1..]);
        assert Accepted(w, events) == [e.message] + Accepted(w', events[1..]);
      } else {
        assert Logged(events) == [] + rest;
        assert |w'.buffer| <= |w.buffer|;
        AllAcceptedWhileRoom(w', events[1..]);
        assert Accepted(w, events) == [] + Accepted(w', events[1..]);
      }
    }
  }

  /** A writer opened on `file` loses no message as long as no more than
      `MAX_BUFFER_SIZE` are logged and every open succeeds: what reached
      the file, followed by what is still buffered, is the old file
      followed by every logged message, in order. */
  lemma OpenedWriterLosesNothing(file: string, events: seq<Event>)
    requires NoFailedOpen(events) && |Logged(events)| <= MaxBufferSize
    ensures var r := Run(Open(file), events);
            Bounded(r) && r.file + Lines(r.buffer) == file + Lines(Logged(events))
  {
    RunStaysBounded(Open(file), events);
    AllAcceptedWhileRoom(Open(file), events);
    FileAndBufferHoldAllAccepted(Open(file), events);
    assert Open(file).buffer + Accepted(Open(file), events) == Logged(events);
  }

  /** After `flush()` the file never changes again and nothing more is
      swapped out of the buffer, whatever else is logged. */
  lemma FlushStopsWriting(w: Writer, events: seq<Event>)
    ensures var r := Run(Flush(w), events);
            !r.working && r.file == w.file && r.buffer == w.buffer + Accepted(Flush(w), events)
  {
    NoWritesAfterFlush(Flush(w), events);
    Conservation(Flush(w), events);
  }
}
