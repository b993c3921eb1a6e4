/** From `record` calls to the inspection: the writer and the reader of the logs together. */
module LogPipeline {
  import opened LogAnalysis
  import opened LogText
  import opened LoggingEngine
  import opened SecureStorage
  import opened Text

  // ----- What calls leave in a file, whole entries and torn ones ------------------------------

  /** What a call left of the line it was to write: all of it, newline included, or some beginning. */
  datatype Trace = Trace(recorded: Recorded, whole: bool, text: string)

  function FullLine(r: Recorded): string {
    FormatLogEvent(r.timestamp, r.event)
  }

  function TraceOf(r: Recorded, text: string): Trace {
    Trace(r, text == FullLine(r), text)
  }

  predicate IsTrace(t: Trace, channel: LogChannel) {
    && LogTimestamp(t.recorded.timestamp) && t.recorded.event.channel == channel
    && t.text <= FullLine(t.recorded) && (t.whole <==> t.text == FullLine(t.recorded))
  }

  predicate AreTraces(traces: seq<Trace>, channel: LogChannel) {
    forall k :: 0 <= k < |traces| ==> IsTrace(traces[k], channel)
  }

  function Written(traces: seq<Trace>): string {
    if traces == [] then "" else Written(traces[..|traces| - 1]) + traces[|traces| - 1].text
  }

  /** What stands behind the last newline. */
  function Unfinished(traces: seq<Trace>): string {
    if traces == [] || traces[|traces| - 1].whole then ""
    else Unfinished(traces[..|traces| - 1]) + traces[|traces| - 1].text
  }

  /** The lines that were finished; a whole entry finishes whatever was torn before it. */
  function Finished(traces: seq<Trace>): seq<string> {
    if traces == [] then []
    else
      var init, last := traces[..|traces| - 1], traces[|traces| - 1];
      Finished(init) + FinishedBy(Unfinished(init), last)
  }

  function FinishedBy(torn: string, t: Trace): seq<string> {
    if t.whole then [torn + LogLine(t.recorded)] else []
  }

  lemma TornHasNoNewline(line: string, text: string)
    requires '\n' !in line && text <= line + "\n" && text != line + "\n"
    ensures '\n' !in text
  {
    assert text == line[..|text|];
  }

  lemma TextOfTrace(t: Trace, channel: LogChannel)
    requires IsTrace(t, channel)
    ensures t.whole ==> t.text == LogLine(t.recorded) + "\n" && '\n' !in LogLine(t.recorded)
    ensures !t.whole ==> '\n' !in t.text
  {
    FormattedIsALine(t.recorded);
    if !t.whole {
      TornHasNoNewline(LogLine(t.recorded), t.text);
    }
  }

  lemma WholeEndsTheLine(lines: string, torn: string, line: string)
    ensures (lines + torn) + (line + "\n") == lines + (torn + line) + "\n"
  {
  }

  lemma WrittenOneMore(lines: seq<string>, torn: string, t: Trace, channel: LogChannel)
    requires IsTrace(t, channel) && '\n' !in torn
    ensures (JoinLines(lines) + torn) + t.text ==
            JoinLines(lines + FinishedBy(torn, t)) + if t.whole then "" else torn + t.text
    ensures forall line :: line in FinishedBy(torn, t) ==> '\n' !in line
    ensures !t.whole ==> '\n' !in torn + t.text
  {
    TextOfTrace(t, channel);
    if t.whole {
      JoinLinesSnoc(lines, torn + LogLine(t.recorded));
      WholeEndsTheLine(JoinLines(lines), torn, LogLine(t.recorded));
    } else {
      ConcatAssociative(JoinLines(lines), torn, t.text);
      assert lines + [] == lines;
    }
  }

  lemma {:induction false} WrittenInLines(traces: seq<Trace>, channel: LogChannel)
    requires AreTraces(traces, channel)
    ensures Written(traces) == JoinLines(Finished(traces)) + Unfinished(traces)
    ensures '\n' !in Unfinished(traces)
    ensures forall line :: line in Finished(traces) ==> '\n' !in line
  {
    if traces != [] {
      var init, last := traces[..|traces| - 1], traces[|traces| - 1];
      WrittenInLines(init, channel);
      assert IsTrace(last, channel);
      WrittenOneMore(Finished(init), Unfinished(init), last, channel);
    }
  }

  // ----- What the reader makes of it ------------------------------------------------------------

  lemma TabJoinedBehind(p: string, a: string, b: string, c: string, d: string, e: string)
    ensures p + TabJoined(a, b, c, d, e) == TabJoined(p + a, b, c, d, e)
  {
  }

  /** A line that begins with the torn beginning of another is not an entry. */
  lemma JoinedLineIsRefused(torn: string, r: Recorded)
    requires torn != "" && LogTimestamp(r.timestamp)
    ensures Parsed(torn + LogLine(r), r.event.channel).None?
  {
    RedactedIsOneField(r.event.event, MAXIMUM_EVENT_LENGTH);
    RedactedIsOneField(r.event.detail, MAXIMUM_DETAIL_LENGTH);
    var level, channel := LevelName(r.event.level), ChannelName(r.event.channel);
    var event, detail := Redacted(r.event.event, MAXIMUM_EVENT_LENGTH), Redacted(r.event.detail, MAXIMUM_DETAIL_LENGTH);
    if '\t' in torn {
      FieldsOfTabJoined(r.timestamp, level, channel, event, detail);
      FieldsOfTabbed(torn);
      FieldsOfConcat(torn, LogLine(r));
    } else {
      TabJoinedBehind(torn, r.timestamp, level, channel, event, detail);
      FieldsOfTabJoined(torn + r.timestamp, level, channel, event, detail);
    }
  }

  /** The entries reported: of the whole ones those that do not continue a torn line, when their names are safe. */
  function Survivors(traces: seq<Trace>): seq<Tagged> {
    if traces == [] then []
    else
      var init, last := traces[..|traces| - 1], traces[|traces| - 1];
      Survivors(init) + Surviving(Unfinished(init), last)
  }

  function Surviving(torn: string, t: Trace): seq<Tagged> {
    if t.whole && torn == "" then ReportedCall(t.recorded) else []
  }

  /** A torn line at the very end may have got as far as its detail, and is then an entry too. */
  function Remnant(traces: seq<Trace>, channel: LogChannel): (r: seq<Tagged>) {
    if Unfinished(traces) == "" then [] else LineEntry(Unfinished(traces), channel)
  }

  lemma LineBehindTorn(torn: string, r: Recorded)
    requires LogTimestamp(r.timestamp)
    ensures LineEntry(torn + LogLine(r), r.event.channel) == if torn == "" then ReportedCall(r) else []
  {
    if torn == "" {
      assert torn + LogLine(r) == LogLine(r);
      ParseInvertsFormat(r);
    } else {
      JoinedLineIsRefused(torn, r);
    }
  }

  lemma FinishedOneMore(lines: seq<string>, torn: string, t: Trace, channel: LogChannel)
    requires IsTrace(t, channel)
    ensures LineEntries(lines + FinishedBy(torn, t), channel) == LineEntries(lines, channel) + Surviving(torn, t)
  {
    if t.whole {
      var line := torn + LogLine(t.recorded);
      LineBehindTorn(torn, t.recorded);
      assert (lines + [line])[..|lines|] == lines;
    } else {
      assert lines + [] == lines;
    }
  }

  lemma {:induction false} FinishedAreSurvivors(traces: seq<Trace>, channel: LogChannel)
    requires AreTraces(traces, channel)
    ensures LineEntries(Finished(traces), channel) == Survivors(traces)
  {
    if traces != [] {
      var init, last := traces[..|traces| - 1], traces[|traces| - 1];
      FinishedAreSurvivors(init, channel);
      assert IsTrace(last, channel);
      FinishedOneMore(Finished(init), Unfinished(init), last, channel);
    }
  }

  lemma TracesAreReported(traces: seq<Trace>, channel: LogChannel)
    requires AreTraces(traces, channel)
    ensures ReadEntries(LogRead.Content(Written(traces)), channel) == Survivors(traces) + Remnant(traces, channel)
  {
    var lines, torn := Finished(traces), Unfinished(traces);
    WrittenInLines(traces, channel);
    LinesOfUnfinished(lines, torn);
    FinishedAreSurvivors(traces, channel);
    if torn != "" {
      assert (lines + [torn])[..|lines|] == lines;
    } else {
      assert lines + [] == lines;
    }
  }

  // ----- Whole runs of calls, on all channels -----------------------------------------------------

  /** One `record` call, the marker it would write, and what came of it. */
  datatype Logged = Logged(recorded: Recorded, rotation: Recorded, call: Call)

  /** The calls of one channel, in the order in which they held its lock. */
  function CallsOn(run: seq<Logged>, channel: LogChannel): seq<Call> {
    if run == [] then []
    else
      var last := run[|run| - 1];
      CallsOn(run[..|run| - 1], channel) + if last.recorded.event.channel == channel then [last.call] else []
  }

  predicate Genuine(l: Logged) {
    && LogTimestamp(l.recorded.timestamp) && LogTimestamp(l.rotation.timestamp)
    && l.rotation.event.channel == l.recorded.event.channel
    && l.call.entry == FullLine(l.recorded) && l.call.marker == FullLine(l.rotation)
  }

  /** Calls on four channels, each with a file that was not there at first and that only these calls touch. */
  ghost predicate IsHistory(run: seq<Logged>) {
    && (forall k :: 0 <= k < |run| ==> Genuine(run[k]))
    && forall channel: LogChannel :: ProperHistory(None, CallsOn(run, channel))
  }

  lemma HistoryBefore(run: seq<Logged>)
    requires IsHistory(run) && run != []
    ensures IsHistory(run[..|run| - 1])
  {
    var init, last := run[..|run| - 1], run[|run| - 1];
    forall channel: LogChannel ensures ProperHistory(None, CallsOn(init, channel)) {
      assert ProperHistory(None, CallsOn(run, channel));
      if last.recorded.event.channel == channel {
        assert CallsOn(run, channel)[..|CallsOn(run, channel)| - 1] == CallsOn(init, channel);
      } else {
        assert CallsOn(run, channel) == CallsOn(init, channel);
      }
    }
  }

  /** What the calls left in a channel's file since its last rotation. */
  function TracesOn(run: seq<Logged>, channel: LogChannel): seq<Trace> {
    if run == [] then []
    else
      var init, last := run[..|run| - 1], run[|run| - 1];
      if last.recorded.event.channel != channel then TracesOn(init, channel)
      else
        match last.call.effect
        case Nothing => TracesOn(init, channel)
        case Appended(text) => TracesOn(init, channel) + [TraceOf(last.recorded, text)]
        case Rotated(_) => [TraceOf(last.rotation, FullLine(last.rotation))] + [TraceOf(last.recorded, FullLine(last.recorded))]
  }

  function FileOf(run: seq<Logged>, channel: LogChannel): Option<string> {
    FileAfter(None, CallsOn(run, channel))
  }

  lemma WrittenSnoc(traces: seq<Trace>, last: Trace)
    ensures Written(traces + [last]) == Written(traces) + last.text
  {
    assert (traces + [last])[..|traces|] == traces;
  }

  lemma AreTracesSnoc(traces: seq<Trace>, last: Trace, channel: LogChannel)
    requires AreTraces(traces, channel) && IsTrace(last, channel)
    ensures AreTraces(traces + [last], channel)
  {
  }

  lemma SurvivorsSnoc(traces: seq<Trace>, last: Trace)
    ensures Survivors(traces + [last]) ==
            Survivors(traces) + Surviving(Unfinished(traces), last)
    ensures Unfinished(traces + [last]) == if last.whole then "" else Unfinished(traces) + last.text
  {
    assert (traces + [last])[..|traces|] == traces;
  }

  lemma WrittenAlone(t: Trace)
    ensures Written([t]) == t.text
  {
    var none: seq<Trace> := [];
    WrittenSnoc(none, t);
    assert none + [t] == [t];
  }

  lemma WrittenByRotation(marker: Trace, entry: Trace)
    ensures Written([marker] + [entry]) == marker.text + entry.text
  {
    WrittenAlone(marker);
    WrittenSnoc([marker], entry);
  }

  lemma LastCallOn(run: seq<Logged>, channel: LogChannel)
    requires IsHistory(run) && run != [] && run[|run| - 1].recorded.event.channel == channel
    ensures var init, call := run[..|run| - 1], run[|run| - 1].call;
            FileOf(run, channel) == Apply(FileOf(init, channel), call.effect) && Proper(FileOf(init, channel), call)
  {
    var calls := CallsOn(run, channel);
    assert calls[..|calls| - 1] == CallsOn(run[..|run| - 1], channel);
    assert ProperHistory(None, calls);
  }

  lemma OtherChannelKept(run: seq<Logged>, channel: LogChannel)
    requires run != [] && run[|run| - 1].recorded.event.channel != channel
    ensures FileOf(run, channel) == FileOf(run[..|run| - 1], channel)
  {
    assert CallsOn(run, channel) == CallsOn(run[..|run| - 1], channel);
  }

  lemma FileIsItsTracesStep(run: seq<Logged>, channel: LogChannel)
    requires IsHistory(run) && run != [] && run[|run| - 1].recorded.event.channel == channel
    requires var init := run[..|run| - 1];
             TextOf(FileOf(init, channel)) == Written(TracesOn(init, channel)) && AreTraces(TracesOn(init, channel), channel)
    ensures TextOf(FileOf(run, channel)) == Written(TracesOn(run, channel)) && AreTraces(TracesOn(run, channel), channel)
  {
    var init, last := run[..|run| - 1], run[|run| - 1];
    assert Genuine(last);
    LastCallOn(run, channel);
    match last.call.effect {
      case Nothing =>
      case Appended(text) =>
        WrittenSnoc(TracesOn(init, channel), TraceOf(last.recorded, text));
        AreTracesSnoc(TracesOn(init, channel), TraceOf(last.recorded, text), channel);
      case Rotated(_) =>
        var marker, entry := TraceOf(last.rotation, FullLine(last.rotation)), TraceOf(last.recorded, FullLine(last.recorded));
        WrittenByRotation(marker, entry);
        AreTracesSnoc([marker], entry, channel);
    }
  }

  lemma {:induction false} FileIsItsTraces(run: seq<Logged>, channel: LogChannel)
    requires IsHistory(run)
    ensures TextOf(FileOf(run, channel)) == Written(TracesOn(run, channel)) && AreTraces(TracesOn(run, channel), channel)
  {
    if run != [] {
      HistoryBefore(run);
      FileIsItsTraces(run[..|run| - 1], channel);
      if run[|run| - 1].recorded.event.channel == channel {
        FileIsItsTracesStep(run, channel);
      } else {
        OtherChannelKept(run, channel);
      }
    }
  }

  function AsRead(file: Option<string>): LogRead {
    match file
    case None => LogRead.Missing
    case Some(text) => LogRead.Content(text)
  }

  /** The logs as the inspection finds them after the run. */
  function LogsAfter(run: seq<Logged>): LogChannel -> LogRead {
    channel => AsRead(FileOf(run, channel))
  }

  /**
   Whatever calls succeeded, failed, tore their entries or rotated: a channel's file reports the surviving whole
   entries since the last rotation in order, and at most one more for a line torn at the very end.
   */
  lemma HistoryIsReported(run: seq<Logged>, channel: LogChannel)
    requires IsHistory(run)
    ensures var traces := TracesOn(run, channel);
            && ReadEntries(LogsAfter(run)(channel), channel) == Survivors(traces) + Remnant(traces, channel)
            && |Remnant(traces, channel)| <= 1
  {
    var traces := TracesOn(run, channel);
    FileIsItsTraces(run, channel);
    TracesAreReported(traces, channel);
    if FileOf(run, channel).None? {
      assert Lines("") == [];
    }
  }

  predicate AtLineStart(file: Option<string>) {
    var text := TextOf(file);
    text == "" || text[|text| - 1] == '\n'
  }

  lemma NothingUnfinishedExactly(lines: seq<string>, torn: string, text: string)
    requires '\n' !in torn && text == JoinLines(lines) + torn
    ensures torn == "" <==> text == "" || text[|text| - 1] == '\n'
  {
    if torn != "" {
      assert text[|text| - 1] == torn[|torn| - 1];
    } else if lines != [] {
      var init, last := lines[..|lines| - 1], lines[|lines| - 1];
      assert lines == init + [last];
      JoinLinesSnoc(init, last);
    }
  }

  lemma AtLineStartExactly(run: seq<Logged>, channel: LogChannel)
    requires IsHistory(run)
    ensures AtLineStart(FileOf(run, channel)) <==> Unfinished(TracesOn(run, channel)) == ""
  {
    var traces := TracesOn(run, channel);
    FileIsItsTraces(run, channel);
    WrittenInLines(traces, channel);
    NothingUnfinishedExactly(Finished(traces), Unfinished(traces), TextOf(FileOf(run, channel)));
  }

  /** The last call appended `text` on its channel. */
  lemma AfterAppend(run: seq<Logged>, last: Logged, text: string)
    requires IsHistory(run + [last]) && last.call.effect == Appended(text)
    ensures IsHistory(run)
    ensures var channel := last.recorded.event.channel;
            var (traces, trace) := (TracesOn(run, channel), TraceOf(last.recorded, text));
            && TracesOn(run + [last], channel) == traces + [trace]
            && Survivors(traces + [trace]) ==
               Survivors(traces) + (if trace.whole && AtLineStart(FileOf(run, channel)) then ReportedCall(last.recorded) else [])
            && Unfinished(traces + [trace]) == (if trace.whole then "" else Unfinished(traces) + text)
            && (last.call.ok ==> trace.whole)
  {
    var channel, longer := last.recorded.event.channel, run + [last];
    assert longer[..|longer| - 1] == run && longer[|run|] == last;
    HistoryBefore(longer);
    LastCallOn(longer, channel);
    AtLineStartExactly(run, channel);
    SurvivorsSnoc(TracesOn(run, channel), TraceOf(last.recorded, text));
    assert Genuine(last);
  }

  /**
   Whatever failed before, a successful call that appends is reported exactly if its name is a safe one and its file
   was empty or ended with a newline; otherwise its line is lost in a torn one. What was reported before stays
   reported exactly if it did not include that torn line.
   */
  lemma SuccessIsReportedExactly(run: seq<Logged>, last: Logged)
    requires IsHistory(run + [last]) && last.call.ok && last.call.effect.Appended?
    ensures var channel := last.recorded.event.channel;
            var before := ReadEntries(LogsAfter(run)(channel), channel);
            var after := ReadEntries(LogsAfter(run + [last])(channel), channel);
            && after == Survivors(TracesOn(run, channel)) +
                        (if AtLineStart(FileOf(run, channel)) then ReportedCall(last.recorded) else [])
            && (before <= after <==> Remnant(TracesOn(run, channel), channel) == [])
  {
    var channel := last.recorded.event.channel;
    AfterAppend(run, last, last.call.effect.text);
    HistoryIsReported(run, channel);
    HistoryIsReported(run + [last], channel);
    AtLineStartExactly(run, channel);
    assert Remnant(TracesOn(run + [last], channel), channel) == [];
  }

  /** Two calls on one channel; the first fails just before its newline, the second succeeds. */
  function TornThenWhole(first: Recorded, second: Recorded, rotation: Recorded): seq<Logged> {
    [Logged(first, rotation, Call(false, FullLine(first), FullLine(rotation), Appended(LogLine(first)))),
     Logged(second, rotation, Call(true, FullLine(second), FullLine(rotation), Appended(FullLine(second))))]
  }

  lemma ProperSnoc(history: seq<Call>, call: Call)
    requires ProperHistory(None, history) && Proper(FileAfter(None, history), call)
    ensures ProperHistory(None, history + [call])
    ensures FileAfter(None, history + [call]) == Apply(FileAfter(None, history), call.effect)
  {
    assert (history + [call])[..|history|] == history;
  }

  lemma CallsOnSnoc(run: seq<Logged>, last: Logged, channel: LogChannel)
    ensures CallsOn(run + [last], channel) ==
            if last.recorded.event.channel == channel then CallsOn(run, channel) + [last.call] else CallsOn(run, channel)
  {
    assert (run + [last])[..|run|] == run;
  }

  lemma HistorySnoc(run: seq<Logged>, last: Logged)
    requires IsHistory(run) && Genuine(last) && Proper(FileOf(run, last.recorded.event.channel), last.call)
    ensures IsHistory(run + [last])
    ensures FileOf(run + [last], last.recorded.event.channel) == Apply(FileOf(run, last.recorded.event.channel), last.call.effect)
  {
    forall channel: LogChannel ensures ProperHistory(None, CallsOn(run + [last], channel)) {
      CallsOnSnoc(run, last, channel);
      if last.recorded.event.channel == channel {
        ProperSnoc(CallsOn(run, channel), last.call);
      }
    }
    CallsOnSnoc(run, last, last.recorded.event.channel);
    ProperSnoc(CallsOn(run, last.recorded.event.channel), last.call);
  }

  lemma TornThenWholeIsHistory(first: Recorded, second: Recorded, rotation: Recorded)
    requires LogTimestamp(first.timestamp) && LogTimestamp(second.timestamp) && LogTimestamp(rotation.timestamp)
    requires first.event.channel == second.event.channel == rotation.event.channel
    ensures var run := TornThenWhole(first, second, rotation); IsHistory(run) && IsHistory(run[..1])
  {
    var run, none: seq<Logged> := TornThenWhole(first, second, rotation), [];
    FormattedIsALine(first);
    FormattedIsShort(first.timestamp, first.event);
    FormattedIsShort(second.timestamp, second.event);
    assert none + [run[0]] == run[..1] && run[..1] + [run[1]] == run;
    HistorySnoc(none, run[0]);
    HistorySnoc(run[..1], run[1]);
  }

  lemma TornIsReported(first: Recorded, rotation: Recorded, run: seq<Logged>)
    requires LogTimestamp(first.timestamp) && IsHistory(run)
    requires run == [Logged(first, rotation, Call(false, FullLine(first), FullLine(rotation), Appended(LogLine(first))))]
    ensures var (channel, traces) := (first.event.channel, TracesOn(run, first.event.channel));
            && Survivors(traces) == [] && Unfinished(traces) == LogLine(first) != ""
            && Remnant(traces, channel) == ReportedCall(first)
            && ReadEntries(LogsAfter(run)(channel), channel) == ReportedCall(first)
  {
    var none: seq<Logged> := [];
    var channel := first.event.channel;
    FormattedIsALine(first);
    assert run == none + [run[0]];
    AfterAppend(none, run[0], LogLine(first));
    assert TracesOn(none, channel) == [];
    assert "" + LogLine(first) == LogLine(first);
    ParseInvertsFormat(first);
    HistoryIsReported(run, channel);
  }

  /** A success and the entry reported before it are both lost: from one reported entry to none. */
  lemma SuccessAndRemnantAreLost(first: Recorded, second: Recorded, rotation: Recorded)
    requires LogTimestamp(first.timestamp) && LogTimestamp(second.timestamp) && LogTimestamp(rotation.timestamp)
    requires first.event.channel == second.event.channel == rotation.event.channel
    ensures var (run, channel) := (TornThenWhole(first, second, rotation), first.event.channel);
            && IsHistory(run) && IsHistory(run[..1]) && !run[0].call.ok && run[1].call.ok
            && ReadEntries(LogsAfter(run[..1])(channel), channel) == ReportedCall(first)
            && ReadEntries(LogsAfter(run)(channel), channel) == []
  {
    var run, channel := TornThenWhole(first, second, rotation), first.event.channel;
    TornThenWholeIsHistory(first, second, rotation);
    var before := run[..1];
    assert before == [run[0]] && run == before + [run[1]];
    TornIsReported(first, rotation, before);
    AtLineStartExactly(before, channel);
    SuccessIsReportedExactly(before, run[1]);
  }

  lemma NameIsKept(r: Recorded, name: string)
    requires r.event.event == name && SafeEventName(name) && Clean(name)
    ensures ReportedCall(r) == [Tagged(r.event.channel, ParsedLogEntry(r.timestamp, r.event.level, name))]
  {
    KeptExactlyWhenClean(name, MAXIMUM_EVENT_LENGTH);
  }

  function OnOperations(timestamp: string, name: string): Recorded {
    Recorded(timestamp, LogEvent(Operations, Info, name, ""))
  }

  lemma NameWithoutUnderscore(name: string)
    requires SafeEventName(name) && '_' !in name
    ensures Clean(name)
  {
    forall i | 0 <= i <= |name| ensures !StartsKey(name[i..]) {
      if |name[i..]| >= 4 {
        assert name[i..][2] == name[i + 2];
      }
    }
  }

  const FIRST_STAMP: string := "2024-01-01T00:00:00Z"
  const SECOND_STAMP: string := "2024-01-01T00:00:01Z"

  lemma StampsAreFit()
    ensures LogTimestamp(FIRST_STAMP) && LogTimestamp(SECOND_STAMP)
  {
  }

  /** For instance: a start that is reported although its call failed, and a stop that is not although it succeeded. */
  lemma SuccessCanBeLost()
    ensures var first := OnOperations(FIRST_STAMP, "start");
            var run := TornThenWhole(first, OnOperations(SECOND_STAMP, "stop"), first);
            && IsHistory(run) && !run[0].call.ok && run[1].call.ok
            && ReadEntries(LogsAfter(run[..1])(Operations), Operations)
               == [Tagged(Operations, ParsedLogEntry(FIRST_STAMP, Info, "start"))]
            && ReadEntries(LogsAfter(run)(Operations), Operations) == []
  {
    var first, second := OnOperations(FIRST_STAMP, "start"), OnOperations(SECOND_STAMP, "stop");
    StampsAreFit();
    NameWithoutUnderscore("start");
    NameIsKept(first, "start");
    SuccessAndRemnantAreLost(first, second, first);
  }

  // ----- Runs without rotation ------------------------------------------------------------------------

  predicate NeverRotated(run: seq<Logged>) {
    forall k :: 0 <= k < |run| ==> !run[k].call.effect.Rotated?
  }

  function Successful(run: seq<Logged>): seq<Recorded> {
    if run == [] then []
    else Successful(run[..|run| - 1]) + if run[|run| - 1].call.ok then [run[|run| - 1].recorded] else []
  }

  /** What the last call would have been reported as and is not: a success appended behind a torn line. */
  function LostCall(run: seq<Logged>, last: Logged): seq<Tagged> {
    if last.call.ok && !AtLineStart(FileOf(run, last.recorded.event.channel)) then ReportedCall(last.recorded) else []
  }

  /** What the last call is reported as although it failed: it left its whole line, on a line of its own. */
  function StrayCall(run: seq<Logged>, last: Logged): seq<Tagged> {
    if !last.call.ok && last.call.effect == Appended(FullLine(last.recorded)) && AtLineStart(FileOf(run, last.recorded.event.channel))
    then ReportedCall(last.recorded) else []
  }

  function LostOn(run: seq<Logged>, channel: LogChannel): seq<Tagged> {
    if run == [] then []
    else
      var init, last := run[..|run| - 1], run[|run| - 1];
      LostOn(init, channel) + if last.recorded.event.channel == channel then LostCall(init, last) else []
  }

  function StrayOn(run: seq<Logged>, channel: LogChannel): seq<Tagged> {
    if run == [] then []
    else
      var init, last := run[..|run| - 1], run[|run| - 1];
      StrayOn(init, channel) + if last.recorded.event.channel == channel then StrayCall(init, last) else []
  }

  lemma ReportedOnSnoc(run: seq<Recorded>, last: Recorded, channel: LogChannel)
    ensures ReportedOn(run + [last], channel) ==
            ReportedOn(run, channel) + if last.event.channel == channel then ReportedCall(last) else []
  {
    assert (run + [last])[..|run|] == run;
  }

  /** What one more call adds to the entries that survive, and to those that should. */
  lemma OneMoreCall(run: seq<Logged>, last: Logged)
    requires IsHistory(run + [last]) && !last.call.effect.Rotated?
    ensures IsHistory(run)
    ensures var channel := last.recorded.event.channel;
            && Survivors(TracesOn(run + [last], channel)) ==
               Survivors(TracesOn(run, channel)) +
               (if last.call.ok && LostCall(run, last) == [] then ReportedCall(last.recorded) else StrayCall(run, last))
            && (last.call.ok ==> LostCall(run, last) == [] || LostCall(run, last) == ReportedCall(last.recorded))
            && (last.call.ok ==> StrayCall(run, last) == []) && (!last.call.ok ==> LostCall(run, last) == [])
  {
    var longer := run + [last];
    assert longer[..|longer| - 1] == run && longer[|run|] == last;
    HistoryBefore(longer);
    LastCallOn(longer, last.recorded.event.channel);
    if last.call.effect.Appended? {
      AfterAppend(run, last, last.call.effect.text);
    }
  }

  lemma SuccessfulSnoc(run: seq<Logged>, last: Logged, channel: LogChannel)
    ensures ReportedOn(Successful(run + [last]), channel) ==
            ReportedOn(Successful(run), channel) +
            if last.call.ok && last.recorded.event.channel == channel then ReportedCall(last.recorded) else []
  {
    assert (run + [last])[..|run|] == run;
    if last.call.ok {
      ReportedOnSnoc(Successful(run), last.recorded, channel);
    } else {
      assert Successful(run + [last]) == Successful(run);
    }
  }

  predicate Balanced(survivors: seq<Tagged>, lost: seq<Tagged>, successes: seq<Tagged>, stray: seq<Tagged>) {
    multiset(survivors) + multiset(lost) == multiset(successes) + multiset(stray)
  }

  lemma SumsOfEqualSums<T>(a: multiset<T>, b: multiset<T>, c: multiset<T>, d: multiset<T>,
                           a': multiset<T>, b': multiset<T>, c': multiset<T>, d': multiset<T>)
    requires a + b == c + d && a' + b' == c' + d'
    ensures (a + a') + (b + b') == (c + c') + (d + d')
  {
    assert (a + a') + (b + b') == (a + b) + (a' + b');
    assert (c + c') + (d + d') == (c + d) + (c' + d');
  }

  lemma SumsCancel<T>(a: multiset<T>, b: multiset<T>, c: multiset<T>, d: multiset<T>)
    requires a + b == c + d
    ensures a == c <==> b == d
  {
    if a == c {
      forall t ensures b[t] == d[t] {
        assert (a + b)[t] == (c + d)[t];
      }
    }
    if b == d {
      forall t ensures a[t] == c[t] {
        assert (a + b)[t] == (c + d)[t];
      }
    }
  }

  lemma BalancedTogether(a: seq<Tagged>, b: seq<Tagged>, c: seq<Tagged>, d: seq<Tagged>,
                         a': seq<Tagged>, b': seq<Tagged>, c': seq<Tagged>, d': seq<Tagged>)
    requires Balanced(a, b, c, d) && Balanced(a', b', c', d')
    ensures Balanced(a + a', b + b', c + c', d + d')
  {
    assert multiset(a + a') == multiset(a) + multiset(a') && multiset(b + b') == multiset(b) + multiset(b');
    assert multiset(c + c') == multiset(c) + multiset(c') && multiset(d + d') == multiset(d) + multiset(d');
    SumsOfEqualSums(multiset(a), multiset(b), multiset(c), multiset(d),
                    multiset(a'), multiset(b'), multiset(c'), multiset(d'));
  }

  lemma BalanceStep(run: seq<Logged>, last: Logged, channel: LogChannel)
    requires IsHistory(run + [last]) && !last.call.effect.Rotated? && last.recorded.event.channel == channel
    requires Balanced(Survivors(TracesOn(run, channel)), LostOn(run, channel),
                      ReportedOn(Successful(run), channel), StrayOn(run, channel))
    ensures Balanced(Survivors(TracesOn(run + [last], channel)), LostOn(run + [last], channel),
                     ReportedOn(Successful(run + [last]), channel), StrayOn(run + [last], channel))
  {
    var all := ReportedCall(last.recorded);
    var lost, stray := LostCall(run, last), StrayCall(run, last);
    assert (run + [last])[..|run|] == run;
    OneMoreCall(run, last);
    SuccessfulSnoc(run, last, channel);
    BalancedTogether(Survivors(TracesOn(run, channel)), LostOn(run, channel),
                     ReportedOn(Successful(run), channel), StrayOn(run, channel),
                     if last.call.ok && lost == [] then all else stray, lost, if last.call.ok then all else [], stray);
  }

  lemma OtherChannelStep(run: seq<Logged>, last: Logged, channel: LogChannel)
    requires last.recorded.event.channel != channel
    ensures TracesOn(run + [last], channel) == TracesOn(run, channel)
    ensures LostOn(run + [last], channel) == LostOn(run, channel) && StrayOn(run + [last], channel) == StrayOn(run, channel)
    ensures ReportedOn(Successful(run + [last]), channel) == ReportedOn(Successful(run), channel)
  {
    assert (run + [last])[..|run|] == run;
    SuccessfulSnoc(run, last, channel);
  }

  lemma {:induction false} SurvivorsBalance(run: seq<Logged>, channel: LogChannel)
    requires IsHistory(run) && NeverRotated(run)
    ensures Balanced(Survivors(TracesOn(run, channel)), LostOn(run, channel),
                     ReportedOn(Successful(run), channel), StrayOn(run, channel))
  {
    if run != [] {
      var init, last := run[..|run| - 1], run[|run| - 1];
      assert run == init + [last];
      HistoryBefore(run);
      SurvivorsBalance(init, channel);
      if last.recorded.event.channel == channel {
        BalanceStep(init, last, channel);
      } else {
        OtherChannelStep(init, last, channel);
      }
    }
  }

  lemma BalanceWithRemnant(survivors: seq<Tagged>, remnant: seq<Tagged>, lost: seq<Tagged>,
                           successes: seq<Tagged>, stray: seq<Tagged>)
    requires Balanced(survivors, lost, successes, stray)
    ensures multiset(survivors + remnant) + multiset(lost) == multiset(successes) + multiset(stray) + multiset(remnant)
    ensures multiset(survivors + remnant) == multiset(successes) <==> multiset(lost) == multiset(stray) + multiset(remnant)
  {
    var entries, extra := multiset(survivors + remnant), multiset(stray) + multiset(remnant);
    var none: multiset<Tagged> := multiset{};
    assert entries == multiset(survivors) + multiset(remnant);
    SumsOfEqualSums(multiset(survivors), multiset(lost), multiset(successes), multiset(stray),
                    multiset(remnant), none, none, multiset(remnant));
    assert multiset(lost) + none == multiset(lost) && multiset(successes) + none == multiset(successes);
    assert multiset(successes) + multiset(stray) + multiset(remnant) == multiset(successes) + extra;
    SumsCancel(entries, multiset(lost), multiset(successes), extra);
  }

  /**
   Without rotation nothing is reported out of the blue or lost unaccounted for: what is reported and the lost successes
   are together the successes, the failed calls that left their whole line, and the torn last line if it is reported.
   So the file reports exactly the successes if and only if what was lost makes up for what is reported too much.
   */
  lemma EveryEntryIsAccountedFor(run: seq<Logged>, channel: LogChannel)
    requires IsHistory(run) && NeverRotated(run)
    ensures var entries := multiset(ReadEntries(LogsAfter(run)(channel), channel));
            var successes := multiset(ReportedOn(Successful(run), channel));
            var (lost, stray) := (multiset(LostOn(run, channel)), multiset(StrayOn(run, channel)));
            var remnant := multiset(Remnant(TracesOn(run, channel), channel));
            && entries + lost == successes + stray + remnant
            && (entries == successes <==> lost == stray + remnant)
  {
    var traces := TracesOn(run, channel);
    HistoryIsReported(run, channel);
    SurvivorsBalance(run, channel);
    BalanceWithRemnant(Survivors(traces), Remnant(traces, channel), LostOn(run, channel),
                       ReportedOn(Successful(run), channel), StrayOn(run, channel));
  }

  /** No file was rotated, no success is lost, and no failed call is reported. */
  ghost predicate Undisturbed(run: seq<Logged>) {
    && NeverRotated(run)
    && forall channel: LogChannel ::
         LostOn(run, channel) == [] && StrayOn(run, channel) == [] && Remnant(TracesOn(run, channel), channel) == []
  }

  lemma UndisturbedBefore(run: seq<Logged>, last: Logged, channel: LogChannel)
    requires LostOn(run + [last], channel) == [] && StrayOn(run + [last], channel) == []
    ensures LostOn(run, channel) == [] && StrayOn(run, channel) == []
    ensures last.recorded.event.channel == channel ==> LostCall(run, last) == [] && StrayCall(run, last) == []
  {
    assert (run + [last])[..|run|] == run;
  }

  lemma UndisturbedStep(run: seq<Logged>, last: Logged, channel: LogChannel)
    requires IsHistory(run + [last]) && !last.call.effect.Rotated? && last.recorded.event.channel == channel
    requires LostCall(run, last) == [] && StrayCall(run, last) == []
    requires Survivors(TracesOn(run, channel)) == ReportedOn(Successful(run), channel)
    ensures Survivors(TracesOn(run + [last], channel)) == ReportedOn(Successful(run + [last]), channel)
  {
    OneMoreCall(run, last);
    SuccessfulSnoc(run, last, channel);
  }

  lemma {:induction false} UndisturbedSurvive(run: seq<Logged>, channel: LogChannel)
    requires IsHistory(run) && NeverRotated(run) && LostOn(run, channel) == [] && StrayOn(run, channel) == []
    ensures Survivors(TracesOn(run, channel)) == ReportedOn(Successful(run), channel)
  {
    if run != [] {
      var init, last := run[..|run| - 1], run[|run| - 1];
      assert run == init + [last];
      HistoryBefore(run);
      UndisturbedBefore(init, last, channel);
      UndisturbedSurvive(init, channel);
      if last.recorded.event.channel == channel {
        UndisturbedStep(init, last, channel);
      } else {
        OtherChannelStep(init, last, channel);
      }
    }
  }

  predicate QuietFailures(run: seq<Logged>) {
    forall k :: 0 <= k < |run| && !run[k].call.ok ==> LeftBehind(run[k].call) == ""
  }

  lemma FullLineIsNotEmpty(r: Recorded)
    ensures FullLine(r) != ""
  {
  }

  lemma QuietStep(run: seq<Logged>, last: Logged)
    requires IsHistory(run + [last]) && !last.call.effect.Rotated? && (!last.call.ok ==> LeftBehind(last.call) == "")
    requires IsHistory(run) && Unfinished(TracesOn(run, last.recorded.event.channel)) == ""
    ensures LostCall(run, last) == [] && StrayCall(run, last) == []
    ensures Unfinished(TracesOn(run + [last], last.recorded.event.channel)) == ""
  {
    var channel, longer := last.recorded.event.channel, run + [last];
    assert longer[..|longer| - 1] == run && longer[|run|] == last;
    AtLineStartExactly(run, channel);
    FullLineIsNotEmpty(last.recorded);
    LastCallOn(longer, channel);
    if last.call.effect.Appended? {
      AfterAppend(run, last, last.call.effect.text);
    }
  }

  lemma {:induction false} QuietChannel(run: seq<Logged>, channel: LogChannel)
    requires IsHistory(run) && NeverRotated(run) && QuietFailures(run)
    ensures LostOn(run, channel) == [] && StrayOn(run, channel) == [] && Unfinished(TracesOn(run, channel)) == ""
  {
    if run != [] {
      var init, last := run[..|run| - 1], run[|run| - 1];
      assert run == init + [last];
      HistoryBefore(run);
      QuietChannel(init, channel);
      if last.recorded.event.channel == channel {
        QuietStep(init, last);
      }
    }
  }

  /** A run without rotation in which no failed call left a byte is undisturbed. */
  lemma QuietFailuresDisturbNothing(run: seq<Logged>)
    requires IsHistory(run) && NeverRotated(run) && QuietFailures(run)
    ensures Undisturbed(run)
  {
    forall channel: LogChannel
      ensures LostOn(run, channel) == [] && StrayOn(run, channel) == [] && Remnant(TracesOn(run, channel), channel) == []
    {
      QuietChannel(run, channel);
    }
  }

  /** Then a channel's file reports its successful calls with safe names, in order. */
  lemma UndisturbedIsReported(run: seq<Logged>, channel: LogChannel)
    requires IsHistory(run) && Undisturbed(run)
    ensures ReadEntries(LogsAfter(run)(channel), channel) == ReportedOn(Successful(run), channel)
  {
    HistoryIsReported(run, channel);
    UndisturbedSurvive(run, channel);
  }

  /**
   From empty logs, after any undisturbed interleaving of calls on the four channels, every counter of the inspection
   agrees with the successful calls whose redacted names are safe.
   */
  lemma InspectionCountsTheRun(run: seq<Logged>)
    requires IsHistory(run) && Undisturbed(run)
    ensures SameCounts(AllEntries(LogsAfter(run), CHANNELS), Reported(Successful(run)))
  {
    AllEntriesOfFour(LogsAfter(run));
    forall channel: LogChannel ensures ReadEntries(LogsAfter(run)(channel), channel) == ReportedOn(Successful(run), channel) {
      UndisturbedIsReported(run, channel);
    }
    PerChannelCounts(Successful(run));
  }

  /** When all names are safe and hold no key, it counts exactly the successful calls. */
  lemma InspectionCountsEveryCall(run: seq<Logged>)
    requires IsHistory(run) && Undisturbed(run)
    requires forall k :: 0 <= k < |Successful(run)| ==> NamedSafely(Successful(run)[k])
    ensures SameCounts(AllEntries(LogsAfter(run), CHANNELS), AsRecorded(Successful(run)))
  {
    InspectionCountsTheRun(run);
    SafeCallsAreReported(Successful(run));
  }

  /** No history makes a file that the inspection would refuse as too large. */
  lemma {:induction false} FilesAreWithinTheLimit(run: seq<Logged>, channel: LogChannel)
    requires IsHistory(run)
    ensures |TextOf(FileOf(run, channel))| <= MAXIMUM_LOG_BYTES
  {
    if run != [] {
      var last := run[|run| - 1];
      HistoryBefore(run);
      FilesAreWithinTheLimit(run[..|run| - 1], channel);
      if last.recorded.event.channel == channel {
        assert Genuine(last);
        FormattedIsShort(last.recorded.timestamp, last.recorded.event);
        FormattedIsShort(last.rotation.timestamp, last.rotation.event);
        LastCallOn(run, channel);
      } else {
        OtherChannelKept(run, channel);
      }
    }
  }
}
