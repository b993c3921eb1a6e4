/** The locked, rotating log writer of `src/logging/engine/logging_engine.cpp`. */
module LoggingEngine {
  import opened LogText
  import opened SecureStorage
  import opened Text

  const MAXIMUM_LOG_BYTES: nat := 512 * 1024

  /** What a `record` call did to its file. */
  datatype Effect = Nothing | Appended(text: string) | Rotated(text: string)

  /** One `record` call: its formatted entry, the rotation marker it would write, and what came of it. */
  datatype Call = Call(ok: bool, entry: string, marker: string, effect: Effect)

  function Apply(file: Option<string>, e: Effect): Option<string> {
    match e
    case Nothing => file
    case Appended(text) => Some(TextOf(file) + text)
    case Rotated(text) => Some(text)
  }

  predicate MustRotate(file: Option<string>, entry: string) {
    |TextOf(file)| + |entry| > MAXIMUM_LOG_BYTES
  }

  /**
   What a call may do to `file`: a success appends its entry, or leaves the marker and its entry if the file would
   grow too large; a failure may have appended a beginning, or replaced the file without making sure of it.
   */
  predicate Proper(file: Option<string>, c: Call) {
    match c.effect
    case Nothing => !c.ok
    case Appended(text) => !MustRotate(file, c.entry) && text <= c.entry && (c.ok ==> text == c.entry)
    case Rotated(text) => MustRotate(file, c.entry) && text == c.marker + c.entry
  }

  function RotationEvent(channel: LogChannel): LogEvent {
    LogEvent(channel, Info, "log-rotation", "retained log reached 512 KiB limit")
  }

  /** Whether the lock was taken, and which of the two paths could not be had before that. */
  datatype LockOutcome = LockTaken | LockRefused

  /** `LoggingEngine::record`, with the lock held from before the read to after the write. */
  method Record(fs: FileSystem, path: string, event: LogEvent, timestamp: string, rotationTimestamp: string,
                lock: LockOutcome, pid: nat, target: TargetStatus)
    returns (ok: bool, ghost call: Call)
    requires fs.Valid() && TargetName(path).Some?
    modifies fs
    ensures fs.Valid() && call.ok == ok
    ensures ok ==> lock.LockTaken? && fs.failures == old(fs.failures)
    ensures !ok ==>
              || lock.LockRefused? || target.UnfitTarget? || target.StatFailed?
              || fs.failures > old(fs.failures) || AllTaken(old(fs.names), TargetName(path).value, pid)
    ensures call.entry == FormatLogEvent(timestamp, event)
    ensures call.marker == FormatLogEvent(rotationTimestamp,
                                          LogEvent(event.channel, Info, "log-rotation", "retained log reached 512 KiB limit"))
    ensures Proper(old(fs.Lookup(TargetName(path).value)), call)
    ensures fs.Lookup(TargetName(path).value) == Apply(old(fs.Lookup(TargetName(path).value)), call.effect)
    ensures OthersKept(old(fs.Now()), fs.Now(), TargetName(path).value)
    ensures ok ==> call.effect ==
                   if |TextOf(old(fs.Lookup(TargetName(path).value)))| + |call.entry| > 524_288
                   then Rotated(call.marker + call.entry) else Appended(call.entry)
  {
    var name := TargetName(path).value;
    var entry := FormatLogEvent(timestamp, event);
    var marker := FormatLogEvent(rotationTimestamp, RotationEvent(event.channel));
    call := Call(false, entry, marker, Nothing);
    ok := false;
    if lock.LockRefused? {
      return;
    }
    var read := ReadPrivateFile(fs, name, MAXIMUM_LOG_BYTES);
    if read.ReadFailed? {
      return;
    }
    var existing := if read.Content? then read.text else "";
    if read.TooLarge? || |existing| + |entry| > MAXIMUM_LOG_BYTES {
      ok, call := Rotate(fs, path, entry, marker, pid, target);
    } else {
      ok, call := Append(fs, name, entry, marker);
    }
  }

  /** The rotating branch: the marker and the entry take the place of the file. */
  method Rotate(fs: FileSystem, path: string, entry: string, marker: string, pid: nat, target: TargetStatus)
    returns (ok: bool, ghost call: Call)
    requires fs.Valid() && TargetName(path).Some? && MustRotate(fs.Lookup(TargetName(path).value), entry)
    modifies fs
    ensures fs.Valid() && call.ok == ok && call.entry == entry && call.marker == marker
    ensures ok ==> fs.failures == old(fs.failures)
    ensures !ok ==>
              || target.UnfitTarget? || target.StatFailed?
              || fs.failures > old(fs.failures) || AllTaken(old(fs.names), TargetName(path).value, pid)
    ensures Proper(old(fs.Lookup(TargetName(path).value)), call)
    ensures fs.Lookup(TargetName(path).value) == Apply(old(fs.Lookup(TargetName(path).value)), call.effect)
    ensures OthersKept(old(fs.Now()), fs.Now(), TargetName(path).value)
  {
    ghost var name := TargetName(path).value;
    ghost var before := fs.Lookup(name);
    var complaint := ReplaceAtomically(fs, path, marker + entry, pid, target);
    ok := complaint.None?;
    call := Call(ok, entry, marker, if fs.Lookup(name) == before && !ok then Nothing else Rotated(marker + entry));
  }

  /** The other branch: the entry is appended. */
  method Append(fs: FileSystem, name: string, entry: string, marker: string) returns (ok: bool, ghost call: Call)
    requires fs.Valid() && !MustRotate(fs.Lookup(name), entry)
    modifies fs
    ensures fs.Valid() && call.ok == ok && call.entry == entry && call.marker == marker
    ensures if ok then fs.failures == old(fs.failures) else fs.failures > old(fs.failures)
    ensures Proper(old(fs.Lookup(name)), call)
    ensures fs.Lookup(name) == Apply(old(fs.Lookup(name)), call.effect)
    ensures OthersKept(old(fs.Now()), fs.Now(), name)
  {
    ghost var before := fs.Lookup(name);
    var complaint, written := WritePrivateFile(fs, name, entry, true);
    ok := complaint.None?;
    call := Call(ok, entry, marker,
                 if ok then Appended(entry)
                 else if fs.Lookup(name) == before then Nothing
                 else Appended(entry[..written]));
  }

  // ----- Any number of recorders, interleaved ------------------------------------------------

  datatype Phase =
    | Waiting
    | Locked
    | Informed(existing: ReadResult)
    | Appending(written: nat)
    | Ended(ok: bool, effect: Effect)
    | Released

  datatype Recorder = Recorder(entry: string, marker: string, phase: Phase)

  /** One channel: its file, who holds its lock, the calls, and those that have released the lock, in that order. */
  datatype System = System(file: Option<string>, lock: Option<nat>, recorders: seq<Recorder>, history: seq<Call>)

  /** What a recorder's next step may be; every write of an append is a step of its own. */
  datatype Event =
    | Acquire(p: nat)
    | Refuse(p: nat)
    | Read(p: nat, existing: ReadResult)
    | Fail(p: nat)
    | StartAppend(p: nat)
    | AppendBytes(p: nat, count: nat)
    | EndAppend(p: nat, ok: bool)
    | Replace(p: nat, ok: bool, replaced: bool)
    | Release(p: nat)

  /** What `read_private_file` may answer about `file`. */
  predicate Truthful(file: Option<string>, r: ReadResult) {
    match r
    case Content(text) => file == Some(text) && |text| <= MAXIMUM_LOG_BYTES
    case Missing => file == None
    case TooLarge => file.Some? && |file.value| > MAXIMUM_LOG_BYTES
    case ReadFailed(_) => true
  }

  /** The decision that `record` takes from what it read. */
  predicate Rotates(r: ReadResult, entry: string) {
    r.TooLarge? || |if r.Content? then r.text else ""| + |entry| > MAXIMUM_LOG_BYTES
  }

  predicate Enabled(s: System, e: Event) {
    e.p < |s.recorders| &&
    var r := s.recorders[e.p];
    match e
    case Acquire(p) => r.phase.Waiting? && s.lock == None
    case Refuse(p) => r.phase.Waiting?
    case Read(p, existing) => r.phase.Locked? && Truthful(s.file, existing)
    case Fail(p) => r.phase.Informed?
    case StartAppend(p) =>
      r.phase.Informed? && !r.phase.existing.ReadFailed? && !Rotates(r.phase.existing, r.entry)
    case AppendBytes(p, count) => r.phase.Appending? && 1 <= count && r.phase.written + count <= |r.entry|
    case EndAppend(p, ok) => r.phase.Appending? && (ok ==> r.phase.written == |r.entry|) && r.phase.written <= |r.entry|
    case Replace(p, ok, replaced) =>
      r.phase.Informed? && !r.phase.existing.ReadFailed? && Rotates(r.phase.existing, r.entry) && (ok ==> replaced)
    case Release(p) => r.phase.Ended?
  }

  function InPhase(s: System, p: nat, phase: Phase): System
    requires p < |s.recorders|
  {
    s.(recorders := s.recorders[p := s.recorders[p].(phase := phase)])
  }

  function CallOf(r: Recorder): Call
    requires r.phase.Ended?
  {
    Call(r.phase.ok, r.entry, r.marker, r.phase.effect)
  }

  function Step(s: System, e: Event): System
    requires Enabled(s, e)
  {
    var r := s.recorders[e.p];
    match e
    case Acquire(p) => InPhase(s.(lock := Some(p)), p, Locked)
    case Refuse(p) => InPhase(s, p, Released)
    case Read(p, existing) => InPhase(s, p, Informed(existing))
    case Fail(p) => InPhase(s, p, Ended(false, Nothing))
    case StartAppend(p) => InPhase(s.(file := Some(TextOf(s.file))), p, Appending(0))
    case AppendBytes(p, count) =>
      var w := r.phase.written;
      InPhase(s.(file := Some(TextOf(s.file) + r.entry[w..w + count])), p, Appending(w + count))
    case EndAppend(p, ok) => InPhase(s, p, Ended(ok, Appended(r.entry[..r.phase.written])))
    case Replace(p, ok, replaced) =>
      if replaced then InPhase(s.(file := Some(r.marker + r.entry)), p, Ended(ok, Rotated(r.marker + r.entry)))
      else InPhase(s, p, Ended(false, Nothing))
    case Release(p) => InPhase(s.(lock := None, history := s.history + [CallOf(r)]), p, Released)
  }

  predicate IsRun(s: System, run: seq<Event>)
    decreases |run|, 0
  {
    run == [] || (IsRun(s, run[..|run| - 1]) && Enabled(After(s, run[..|run| - 1]), run[|run| - 1]))
  }

  function After(s: System, run: seq<Event>): System
    requires IsRun(s, run)
    decreases |run|, 1
  {
    if run == [] then s else Step(After(s, run[..|run| - 1]), run[|run| - 1])
  }

  /** Nobody has begun. */
  predicate Initial(s: System) {
    && s.lock == None && s.history == []
    && forall p :: 0 <= p < |s.recorders| ==> s.recorders[p].phase.Waiting?
  }

  /** The file after the calls, one after the other. */
  function FileAfter(initial: Option<string>, history: seq<Call>): Option<string> {
    if history == [] then initial
    else Apply(FileAfter(initial, history[..|history| - 1]), history[|history| - 1].effect)
  }

  predicate ProperHistory(initial: Option<string>, history: seq<Call>) {
    history == [] ||
    (ProperHistory(initial, history[..|history| - 1])
     && Proper(FileAfter(initial, history[..|history| - 1]), history[|history| - 1]))
  }

  /** How far the holder of the lock has got, from the file `base` that it found. */
  predicate Holding(base: Option<string>, file: Option<string>, r: Recorder) {
    match r.phase
    case Waiting => false
    case Locked => file == base
    case Informed(existing) => file == base && Truthful(base, existing)
    case Appending(w) => w <= |r.entry| && !MustRotate(base, r.entry) && file == Apply(base, Appended(r.entry[..w]))
    case Ended(_, effect) => file == Apply(base, effect) && Proper(base, CallOf(r))
    case Released => false
  }

  /** At any moment the file is what the finished calls left, plus what the holder of the lock has done so far. */
  predicate Serial(initial: Option<string>, s: System) {
    var base := FileAfter(initial, s.history);
    && ProperHistory(initial, s.history)
    && (s.lock.None? ==> s.file == base)
    && (s.lock.Some? ==> s.lock.value < |s.recorders| && Holding(base, s.file, s.recorders[s.lock.value]))
    && forall p :: 0 <= p < |s.recorders| && Some(p) != s.lock ==> s.recorders[p].phase.Waiting? || s.recorders[p].phase.Released?
  }

  lemma RotatesExactlyWhenItMust(file: Option<string>, r: ReadResult, entry: string)
    requires Truthful(file, r) && !r.ReadFailed?
    ensures Rotates(r, entry) <==> MustRotate(file, entry)
  {
  }

  /** The holder of the lock moves on by itself; the finished calls stay as they are. */
  lemma HolderMovesOn(initial: Option<string>, s: System, t: System, p: nat)
    requires Serial(initial, s) && s.lock == Some(p) && p < |s.recorders| && |t.recorders| == |s.recorders|
    requires t.lock == s.lock && t.history == s.history
    requires forall q :: 0 <= q < |s.recorders| && q != p ==> t.recorders[q] == s.recorders[q]
    requires Holding(FileAfter(initial, s.history), t.file, t.recorders[p])
    ensures Serial(initial, t)
  {
  }

  lemma HoldsTheLock(initial: Option<string>, s: System, p: nat)
    requires Serial(initial, s) && p < |s.recorders|
    requires !s.recorders[p].phase.Waiting? && !s.recorders[p].phase.Released?
    ensures s.lock == Some(p) && Holding(FileAfter(initial, s.history), s.file, s.recorders[p])
  {
  }

  lemma SerialAfterLocking(initial: Option<string>, s: System, e: Event)
    requires Serial(initial, s) && Enabled(s, e) && (e.Acquire? || e.Refuse?)
    ensures Serial(initial, Step(s, e))
  {
  }

  lemma SerialAfterRelease(initial: Option<string>, s: System, e: Event)
    requires Serial(initial, s) && Enabled(s, e) && e.Release?
    ensures Serial(initial, Step(s, e))
  {
    HoldsTheLock(initial, s, e.p);
    var t := Step(s, e);
    assert t.history[..|t.history| - 1] == s.history;
  }

  lemma SerialAfterAppending(initial: Option<string>, s: System, e: Event)
    requires Serial(initial, s) && Enabled(s, e) && (e.StartAppend? || e.AppendBytes? || e.EndAppend?)
    ensures Serial(initial, Step(s, e))
  {
    HoldsTheLock(initial, s, e.p);
    var r, base := s.recorders[e.p], FileAfter(initial, s.history);
    match e {
      case StartAppend(p) =>
        RotatesExactlyWhenItMust(base, r.phase.existing, r.entry);
        assert TextOf(base) + r.entry[..0] == TextOf(base);
      case AppendBytes(p, count) =>
        var w := r.phase.written;
        assert r.entry[..w] + r.entry[w..w + count] == r.entry[..w + count];
        ConcatAssociative(TextOf(base), r.entry[..w], r.entry[w..w + count]);
      case EndAppend(p, ok) =>
        assert r.entry[..|r.entry|] == r.entry;
    }
    HolderMovesOn(initial, s, Step(s, e), e.p);
  }

  lemma SerialAfterTheRest(initial: Option<string>, s: System, e: Event)
    requires Serial(initial, s) && Enabled(s, e) && (e.Read? || e.Fail? || e.Replace?)
    ensures Serial(initial, Step(s, e))
  {
    HoldsTheLock(initial, s, e.p);
    var r, base := s.recorders[e.p], FileAfter(initial, s.history);
    if e.Replace? {
      RotatesExactlyWhenItMust(base, r.phase.existing, r.entry);
    }
    HolderMovesOn(initial, s, Step(s, e), e.p);
  }

  lemma SerialKept(initial: Option<string>, s: System, e: Event)
    requires Serial(initial, s) && Enabled(s, e)
    ensures Serial(initial, Step(s, e))
  {
    if e.Acquire? || e.Refuse? {
      SerialAfterLocking(initial, s, e);
    } else if e.Release? {
      SerialAfterRelease(initial, s, e);
    } else if e.StartAppend? || e.AppendBytes? || e.EndAppend? {
      SerialAfterAppending(initial, s, e);
    } else {
      SerialAfterTheRest(initial, s, e);
    }
  }

  /** Every interleaving of any number of calls is a serial one, in the order in which the lock is released. */
  lemma {:induction false} EveryRunIsSerial(s: System, run: seq<Event>)
    requires Initial(s) && IsRun(s, run)
    ensures Serial(s.file, After(s, run))
  {
    if run != [] {
      EveryRunIsSerial(s, run[..|run| - 1]);
      SerialKept(s.file, After(s, run[..|run| - 1]), run[|run| - 1]);
    }
  }

  // ----- What the file holds ------------------------------------------------------------------------

  /** A marker and an entry together are far below the limit. */
  predicate ShortCall(c: Call) {
    |c.marker| + |c.entry| <= MAXIMUM_LOG_BYTES
  }

  lemma FormattedIsShort(timestamp: string, event: LogEvent)
    requires |timestamp| == 20
    ensures |FormatLogEvent(timestamp, event)| <= 648
  {
    RedactedIsBounded(event.event, 0, MAXIMUM_EVENT_LENGTH);
    RedactedIsBounded(event.detail, 0, MAXIMUM_DETAIL_LENGTH);
    assert |LevelName(event.level)| <= 5 && |ChannelName(event.channel)| <= 10;
  }

  /** After each successful call the file is within its limit, whatever its size was before. */
  lemma {:induction false} SuccessLeavesABoundedFile(initial: Option<string>, history: seq<Call>, k: nat)
    requires ProperHistory(initial, history) && k < |history|
    requires history[k].ok && ShortCall(history[k])
    ensures FileAfter(initial, history[..k + 1]).Some? && |FileAfter(initial, history[..k + 1]).value| <= 524_288
    decreases |history|
  {
    if k + 1 == |history| {
      assert history[..k + 1] == history;
    } else {
      var init := history[..|history| - 1];
      SuccessLeavesABoundedFile(initial, init, k);
      assert init[..k + 1] == history[..k + 1];
    }
  }

  function LeftBehind(c: Call): string {
    match c.effect
    case Nothing => ""
    case Appended(text) => text
    case Rotated(text) => text
  }

  function Texts(calls: seq<Call>): string {
    if calls == [] then "" else Texts(calls[..|calls| - 1]) + LeftBehind(calls[|calls| - 1])
  }

  /** The calls from the last rotation on, it included; all of them if there was none. */
  function SinceRotation(history: seq<Call>): seq<Call> {
    if history == [] then []
    else
      var last := history[|history| - 1];
      if last.effect.Rotated? then [last] else SinceRotation(history[..|history| - 1]) + [last]
  }

  /** The text from before the calls that is still there. */
  function Remainder(initial: Option<string>, history: seq<Call>): string {
    if history == [] then TextOf(initial)
    else if history[|history| - 1].effect.Rotated? then ""
    else Remainder(initial, history[..|history| - 1])
  }

  lemma TextsSnoc(calls: seq<Call>, last: Call)
    ensures Texts(calls + [last]) == Texts(calls) + LeftBehind(last)
  {
    assert (calls + [last])[..|calls|] == calls;
  }

  lemma ApplyAddsItsText(file: Option<string>, e: Effect, c: Call)
    requires c.effect == e && !e.Rotated?
    ensures TextOf(Apply(file, e)) == TextOf(file) + LeftBehind(c)
  {
  }

  lemma {:induction false} FileSinceRotation(initial: Option<string>, history: seq<Call>)
    ensures TextOf(FileAfter(initial, history)) == Remainder(initial, history) + Texts(SinceRotation(history))
  {
    if history != [] {
      var init, last := history[..|history| - 1], history[|history| - 1];
      if last.effect.Rotated? {
        TextsSnoc([], last);
      } else {
        FileSinceRotation(initial, init);
        ApplyAddsItsText(FileAfter(initial, init), last.effect, last);
        TextsSnoc(SinceRotation(init), last);
        ConcatAssociative(Remainder(initial, init), Texts(SinceRotation(init)), LeftBehind(last));
      }
    }
  }

  function Successes(calls: seq<Call>): seq<Call> {
    if calls == [] then []
    else Successes(calls[..|calls| - 1]) + if calls[|calls| - 1].ok then [calls[|calls| - 1]] else []
  }

  /** A failed call left no byte behind: it never got to write, or its first write failed. */
  predicate FailuresLeftNothing(calls: seq<Call>) {
    forall k :: 0 <= k < |calls| && !calls[k].ok ==> LeftBehind(calls[k]) == ""
  }

  lemma {:induction false} SuccessTexts(calls: seq<Call>)
    ensures |Texts(Successes(calls))| <= |Texts(calls)|
    ensures |Texts(Successes(calls))| == |Texts(calls)| <==> FailuresLeftNothing(calls)
    ensures FailuresLeftNothing(calls) ==> Texts(Successes(calls)) == Texts(calls)
  {
    if calls != [] {
      var init, last := calls[..|calls| - 1], calls[|calls| - 1];
      SuccessTexts(init);
      assert calls == init + [last];
      if last.ok {
        assert (Successes(init) + [last])[..|Successes(init)|] == Successes(init);
      } else {
        assert Successes(calls) == Successes(init);
        assert LeftBehind(last) == "" ==> Texts(init) + LeftBehind(last) == Texts(init);
      }
      assert FailuresLeftNothing(calls) <==> FailuresLeftNothing(init) && (last.ok || LeftBehind(last) == "");
    }
  }

  /** The step is the failure of a call behind bytes it has written; a rotation wipes out what was there. */
  predicate FailsBehindItsBytes(s: System, e: Event, earlier: bool)
    requires Enabled(s, e)
  {
    var r := s.recorders[e.p];
    match e
    case EndAppend(_, ok) => earlier || (!ok && r.phase.written > 0)
    case Replace(_, ok, replaced) => if replaced then !ok && r.marker + r.entry != "" else earlier
    case _ => earlier
  }

  /**
   Since the last rotation some call failed after the file had been touched: its append ended badly behind a written
   byte, or its replacement was renamed into place and then not made certain.
   */
  predicate FailedBehindItsBytes(s: System, run: seq<Event>)
    requires IsRun(s, run)
  {
    run != [] &&
    var before := run[..|run| - 1];
    FailsBehindItsBytes(After(s, before), run[|run| - 1], FailedBehindItsBytes(s, before))
  }

  /** The finished calls, and the one that has ended but still holds the lock. */
  function EndedCalls(s: System): seq<Call> {
    if s.lock.Some? && s.lock.value < |s.recorders| && s.recorders[s.lock.value].phase.Ended?
    then s.history + [CallOf(s.recorders[s.lock.value])]
    else s.history
  }

  lemma FailuresOneMore(history: seq<Call>, c: Call)
    ensures FailuresLeftNothing(SinceRotation(history + [c])) <==>
            (c.ok || LeftBehind(c) == "") && (c.effect.Rotated? || FailuresLeftNothing(SinceRotation(history)))
  {
    var since := SinceRotation(history);
    assert (history + [c])[..|history|] == history;
    if !c.effect.Rotated? {
      assert SinceRotation(history + [c]) == since + [c];
      assert forall k :: 0 <= k < |since| ==> (since + [c])[k] == since[k];
      assert (since + [c])[|since|] == c;
    }
  }

  /** One step ends at most one call. */
  lemma EndedCallsStep(initial: Option<string>, s: System, e: Event)
    requires Serial(initial, s) && Enabled(s, e)
    ensures EndedCalls(Step(s, e)) ==
            if e.Fail? || e.EndAppend? || e.Replace? then EndedCalls(s) + [CallOf(Step(s, e).recorders[e.p])] else EndedCalls(s)
    ensures e.Fail? || e.EndAppend? || e.Replace? ==> Step(s, e).recorders[e.p].phase.Ended?
  {
    if !e.Acquire? && !e.Refuse? {
      HoldsTheLock(initial, s, e.p);
    }
  }

  lemma FailuresAreInTheStep(initial: Option<string>, s: System, e: Event, earlier: bool)
    requires Serial(initial, s) && Enabled(s, e)
    requires earlier <==> !FailuresLeftNothing(SinceRotation(EndedCalls(s)))
    ensures FailsBehindItsBytes(s, e, earlier) <==> !FailuresLeftNothing(SinceRotation(EndedCalls(Step(s, e))))
  {
    EndedCallsStep(initial, s, e);
    if e.Fail? || e.EndAppend? || e.Replace? {
      var c := CallOf(Step(s, e).recorders[e.p]);
      FailuresOneMore(EndedCalls(s), c);
    }
  }

  lemma {:induction false} FailuresAreInTheRun(s: System, run: seq<Event>)
    requires Initial(s) && IsRun(s, run)
    ensures FailedBehindItsBytes(s, run) <==> !FailuresLeftNothing(SinceRotation(EndedCalls(After(s, run))))
  {
    if run != [] {
      var before := run[..|run| - 1];
      FailuresAreInTheRun(s, before);
      EveryRunIsSerial(s, before);
      FailuresAreInTheStep(s.file, After(s, before), run[|run| - 1], FailedBehindItsBytes(s, before));
    }
  }

  /**
   Between calls the file holds, after what survives from earlier, exactly the successful calls since the last
   rotation in lock order, if and only if since then no call failed after it had touched the file.
   */
  lemma FileHoldsTheSuccessesExactly(s: System, run: seq<Event>)
    requires Initial(s) && IsRun(s, run) && After(s, run).lock == None
    ensures var t := After(s, run);
            TextOf(t.file) == Remainder(s.file, t.history) + Texts(Successes(SinceRotation(t.history)))
            <==> !FailedBehindItsBytes(s, run)
  {
    var t := After(s, run);
    var since := SinceRotation(t.history);
    EveryRunIsSerial(s, run);
    FailuresAreInTheRun(s, run);
    FileSinceRotation(s.file, t.history);
    SuccessTexts(since);
    if TextOf(t.file) == Remainder(s.file, t.history) + Texts(Successes(since)) {
      assert |TextOf(t.file)| == |Remainder(s.file, t.history)| + |Texts(Successes(since))|;
    }
  }

  lemma RunOneMore(s: System, run: seq<Event>, e: Event)
    requires IsRun(s, run) && Enabled(After(s, run), e)
    ensures IsRun(s, run + [e]) && After(s, run + [e]) == Step(After(s, run), e)
  {
    assert (run + [e])[..|run|] == run;
  }

  /** A call whose bytes were all written and then not synced fails, and its entry stays. */
  lemma FailedCallCanLeaveItsEntry(entry: string, marker: string) returns (s: System, run: seq<Event>)
    requires 1 <= |entry| <= MAXIMUM_LOG_BYTES
    ensures Initial(s) && s.file == None && IsRun(s, run)
    ensures After(s, run).lock == None && After(s, run).file == Some(entry)
    ensures After(s, run).history == [Call(false, entry, marker, Appended(entry))]
  {
    s := System(None, None, [Recorder(entry, marker, Waiting)], []);
    run := RunUpToTheWrite(s, entry, marker);
    assert entry[..|entry|] == entry;
    RunOneMore(s, run, EndAppend(0, false));
    run := run + [EndAppend(0, false)];
    assert After(s, run) == System(Some(entry), Some(0), [Recorder(entry, marker, Ended(false, Appended(entry)))], []);
    RunOneMore(s, run, Release(0));
    run := run + [Release(0)];
  }

  lemma RunUpToTheWrite(s: System, entry: string, marker: string) returns (run: seq<Event>)
    requires 1 <= |entry| <= MAXIMUM_LOG_BYTES
    requires s == System(None, None, [Recorder(entry, marker, Waiting)], [])
    ensures IsRun(s, run)
    ensures After(s, run) == System(Some(entry), Some(0), [Recorder(entry, marker, Appending(|entry|))], [])
  {
    run := [];
    RunOneMore(s, run, Acquire(0));
    run := run + [Acquire(0)];
    assert After(s, run) == System(None, Some(0), [Recorder(entry, marker, Locked)], []);
    RunOneMore(s, run, Read(0, Missing));
    run := run + [Read(0, Missing)];
    assert After(s, run) == System(None, Some(0), [Recorder(entry, marker, Informed(Missing))], []);
    RunOneMore(s, run, StartAppend(0));
    run := run + [StartAppend(0)];
    assert After(s, run) == System(Some(""), Some(0), [Recorder(entry, marker, Appending(0))], []);
    assert "" + entry[0..|entry|] == entry;
    RunOneMore(s, run, AppendBytes(0, |entry|));
    run := run + [AppendBytes(0, |entry|)];
  }
}
