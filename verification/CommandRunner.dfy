/** The bounded process runner of `src/core/command_runner.cpp`, against an arbitrary kernel. */
module CommandRunner {
  import opened Text

  const MAXIMUM_CAPTURED_OUTPUT: nat := 1024 * 1024
  const READ_BUFFER: nat := 4096
  const TICKS_PER_MILLISECOND: int := 1_000_000

  // ----- The kernel: an adversary that keeps books ---------------------------------------

  /** What one read can bring. */
  type Chunk = s: string | 1 <= |s| <= READ_BUFFER witness "x"

  datatype ReadOutcome = Data(bytes: Chunk) | EndOfFile | ReadInterrupted | ReadFailed(detail: string)

  /** `Wrote` at least one byte; `WroteNothing` is a write that returned 0. */
  datatype WriteOutcome =
    | Wrote(count: nat)
    | WroteNothing(detail: string)
    | WriteInterrupted
    | WouldBlock
    | BrokenPipe
    | WriteFailed(detail: string)

  /** The events poll reports for one descriptor. */
  datatype Revents = Revents(invalid: bool, error: bool, hangUp: bool, readable: bool, writable: bool)

  datatype PollOutcome =
    | PollInterrupted
    | PollFailed(detail: string)
    | Polled(stdout: Revents, stderr: Revents, input: Revents)

  const QUIET: Revents := Revents(false, false, false, false, false)

  predicate PollIsAFault(o: PollOutcome) {
    o.PollFailed? || (o.Polled? && (o.stdout.invalid || o.stderr.invalid || o.input.invalid))
  }

  datatype WriteCall = WriteCall(bytes: string, outcome: WriteOutcome)

  /**
   A poll and what was done until the next one: the descriptors, how much the child had accepted, what poll reported,
   and the reads, by descriptor, and writes that followed.
   */
  datatype Turn = Turn(watched: seq<int>, accepted: nat, outcome: PollOutcome,
                       got: map<int, seq<ReadOutcome>>, writes: seq<WriteCall>)

  function ReadsOn(t: Turn, fd: int): seq<ReadOutcome> {
    if fd in t.got then t.got[fd] else []
  }

  function WithReads(t: Turn, fd: int, got: seq<ReadOutcome>): Turn {
    if got == [] then t else t.(got := t.got[fd := ReadsOn(t, fd) + got])
  }

  function WithWrites(t: Turn, writes: seq<WriteCall>): Turn {
    t.(writes := t.writes + writes)
  }

  function AfterReads(turns: seq<Turn>, fd: int, got: seq<ReadOutcome>): seq<Turn>
    requires turns != []
  {
    turns[..|turns| - 1] + [WithReads(turns[|turns| - 1], fd, got)]
  }

  function AfterWrites(turns: seq<Turn>, writes: seq<WriteCall>): seq<Turn>
    requires turns != []
  {
    turns[..|turns| - 1] + [WithWrites(turns[|turns| - 1], writes)]
  }

  // ----- What a turn must do -------------------------------------------------------------

  /** An output that is readable, hung up or in error is read once; any other is not read. */
  predicate OutputAnswered(fd: int, r: Revents, got: seq<ReadOutcome>) {
    |got| == if fd >= 0 && !r.invalid && (r.readable || r.hangUp || r.error) then 1 else 0
  }

  /** The descriptor from then on: given up when invalid, at end of file, or when it could not be read. */
  function OutputAfter(fd: int, r: Revents, got: seq<ReadOutcome>): int {
    if fd < 0 || r.invalid || (got != [] && (got[0].EndOfFile? || got[0].ReadFailed?)) then -1 else fd
  }

  /** An input that is writable, and neither hung up nor in error, is offered all that remains, once. */
  predicate InputAnswered(fd: int, r: Revents, rest: string, writes: seq<WriteCall>) {
    if fd >= 0 && !r.invalid && !r.error && !r.hangUp && r.writable then |writes| == 1 && writes[0].bytes == rest
    else writes == []
  }

  /** Given up when invalid or closed by the child, when everything is written, or when writing failed for good. */
  function InputAfter(fd: int, r: Revents, rest: string, writes: seq<WriteCall>): int {
    if fd < 0 || r.invalid || r.error || r.hangUp then -1
    else if writes == [] then fd
    else
      match writes[0].outcome
      case Wrote(count) => if count == |rest| then -1 else fd
      case WriteInterrupted => fd
      case WouldBlock => fd
      case _ => -1
  }

  function EventsFor(o: PollOutcome, index: nat): Revents {
    if !o.Polled? then QUIET else if index == 0 then o.stdout else if index == 1 then o.stderr else o.input
  }

  /** Each descriptor got what its events call for, and nothing else was read or written. */
  predicate Answered(t: Turn, input: string) {
    && |t.watched| == 3 && t.accepted <= |input|
    && OutputAnswered(t.watched[0], EventsFor(t.outcome, 0), ReadsOn(t, t.watched[0]))
    && OutputAnswered(t.watched[1], EventsFor(t.outcome, 1), ReadsOn(t, t.watched[1]))
    && InputAnswered(t.watched[2], EventsFor(t.outcome, 2), input[t.accepted..], t.writes)
    && forall fd :: fd in t.got ==> fd == t.watched[0] || fd == t.watched[1]
  }

  /** What the next poll is to watch. */
  function WatchedAfter(t: Turn, input: string): seq<int>
    requires Answered(t, input)
  {
    if t.outcome.PollFailed? then [-1, -1, -1]
    else [OutputAfter(t.watched[0], EventsFor(t.outcome, 0), ReadsOn(t, t.watched[0])),
          OutputAfter(t.watched[1], EventsFor(t.outcome, 1), ReadsOn(t, t.watched[1])),
          InputAfter(t.watched[2], EventsFor(t.outcome, 2), input[t.accepted..], t.writes)]
  }

  predicate LostOutput(fd: int, r: Revents, got: seq<ReadOutcome>) {
    fd >= 0 && (r.invalid || (got != [] && got[0].ReadFailed?))
  }

  /** The turn calls for the end of the command: poll failed, a descriptor was invalid, or a read failed. */
  predicate Fatal(t: Turn)
    requires |t.watched| == 3
  {
    || t.outcome.PollFailed?
    || LostOutput(t.watched[0], EventsFor(t.outcome, 0), ReadsOn(t, t.watched[0]))
    || LostOutput(t.watched[1], EventsFor(t.outcome, 1), ReadsOn(t, t.watched[1]))
    || (t.watched[2] >= 0 && EventsFor(t.outcome, 2).invalid)
  }

  /** What is to be watched after `k` turns is everything at first, and then what the turn before left open. */
  predicate Follows(turns: seq<Turn>, k: nat, next: seq<int>, first: seq<int>, input: string, killed: bool)
    requires k <= |turns|
  {
    var watched := if k < |turns| then turns[k].watched else next;
    if k == 0 then watched == first
    else && Answered(turns[k - 1], input) && watched == WatchedAfter(turns[k - 1], input)
         && (Fatal(turns[k - 1]) ==> killed)
  }

  /**
   Every turn watched what was left open, answered what it was told, and if it was fatal the command was killed; now
   `next` is to be watched.
   */
  predicate Serviced(turns: seq<Turn>, next: seq<int>, first: seq<int>, input: string, killed: bool) {
    forall k :: 0 <= k <= |turns| ==> Follows(turns, k, next, first, input, killed)
  }

  lemma ServicedAndKilled(turns: seq<Turn>, next: seq<int>, first: seq<int>, input: string)
    requires Serviced(turns, next, first, input, false)
    ensures Serviced(turns, next, first, input, true)
  {
    forall k | 0 <= k <= |turns|
      ensures Follows(turns, k, next, first, input, true)
    {
      assert Follows(turns, k, next, first, input, false);
    }
  }

  lemma NothingServicedYet(first: seq<int>, input: string, killed: bool)
    ensures Serviced([], first, first, input, killed)
  {
  }

  lemma ServicedOnceMore(turns: seq<Turn>, last: Turn, first: seq<int>, input: string, killed: bool, before: bool)
    requires Serviced(turns, last.watched, first, input, before) && (before ==> killed)
    requires Answered(last, input) && (Fatal(last) ==> killed)
    ensures Serviced(turns + [last], WatchedAfter(last, input), first, input, killed)
  {
    var more := turns + [last];
    forall k | 0 <= k <= |more|
      ensures Follows(more, k, WatchedAfter(last, input), first, input, killed)
    {
      if k <= |turns| {
        assert Follows(turns, k, last.watched, first, input, before);
        assert k > 0 ==> more[k - 1] == turns[k - 1];
      }
    }
  }

  /** When poll reports nothing there is nothing to do. */
  lemma EmptyTurnIsAnswered(t: Turn, input: string)
    requires |t.watched| == 3 && t.accepted <= |input| && t.got == map[] && t.writes == [] && !t.outcome.Polled?
    requires t.watched[0] >= -1 && t.watched[1] >= -1 && t.watched[2] >= -1
    ensures Answered(t, input)
    ensures WatchedAfter(t, input) == if t.outcome.PollFailed? then [-1, -1, -1] else t.watched
    ensures Fatal(t) ==> t.outcome.PollFailed?
  {
  }

  /** The answers to the three descriptors together are an answered turn. */
  lemma TurnIsAnswered(t: Turn, got: seq<ReadOutcome>, errors: seq<ReadOutcome>, writes: seq<WriteCall>, input: string)
    requires |t.watched| == 3 && t.accepted <= |input| && t.got == map[] && t.writes == []
    requires t.watched[0] != t.watched[1] || t.watched[0] < 0
    requires OutputAnswered(t.watched[0], EventsFor(t.outcome, 0), got)
    requires OutputAnswered(t.watched[1], EventsFor(t.outcome, 1), errors)
    requires InputAnswered(t.watched[2], EventsFor(t.outcome, 2), input[t.accepted..], writes)
    ensures var last := WithWrites(WithReads(WithReads(t, t.watched[0], got), t.watched[1], errors), writes);
            && Answered(last, input) && last.watched == t.watched
            && ReadsOn(last, t.watched[0]) == got && ReadsOn(last, t.watched[1]) == errors
            && last.outcome == t.outcome && last.accepted == t.accepted && last.writes == writes
            && (t.outcome.Polled? ==>
                  WatchedAfter(last, input) == [OutputAfter(t.watched[0], t.outcome.stdout, got),
                                                OutputAfter(t.watched[1], t.outcome.stderr, errors),
                                                InputAfter(t.watched[2], t.outcome.input, input[t.accepted..], writes)])
            && (t.outcome.Polled? && Fatal(last) ==>
                  || LostOutput(t.watched[0], t.outcome.stdout, got) || LostOutput(t.watched[1], t.outcome.stderr, errors)
                  || (t.watched[2] >= 0 && t.outcome.input.invalid))
  {
    var once := WithReads(t, t.watched[0], got);
    assert [] + got == got && [] + errors == errors && [] + writes == writes;
    assert ReadsOn(once, t.watched[0]) == got;
  }

  /** One more turn of a run that was answered so far. */
  lemma TurnCompletes(before: seq<Turn>, t: Turn, a: int, b: int, c: int, rest: string,
                      got: seq<ReadOutcome>, errors: seq<ReadOutcome>, writes: seq<WriteCall>,
                      first: seq<int>, next: seq<int>, input: string, killedBefore: bool, killed: bool)
    requires t.watched == [a, b, c] && t.accepted <= |input| && rest == input[t.accepted..]
    requires t.got == map[] && t.writes == [] && t.outcome.Polled? && (a != b || a < 0)
    requires Serviced(before, t.watched, first, input, killedBefore) && (killedBefore ==> killed)
    requires OutputAnswered(a, t.outcome.stdout, got) && OutputAnswered(b, t.outcome.stderr, errors)
    requires InputAnswered(c, t.outcome.input, rest, writes)
    requires LostOutput(a, t.outcome.stdout, got) || LostOutput(b, t.outcome.stderr, errors) ==> killed
    requires c >= 0 && t.outcome.input.invalid ==> killed
    requires |next| == 3 && next[0] == OutputAfter(a, t.outcome.stdout, got) && next[1] == OutputAfter(b, t.outcome.stderr, errors)
    requires next[2] == InputAfter(c, t.outcome.input, rest, writes)
    ensures Serviced(before + [WithWrites(WithReads(WithReads(t, a, got), b, errors), writes)], next, first, input, killed)
  {
    TurnIsAnswered(t, got, errors, writes, input);
    assert next == [next[0], next[1], next[2]];
    ServicedOnceMore(before, WithWrites(WithReads(WithReads(t, a, got), b, errors), writes), first, input, killed, killedBefore);
  }

  /** A call of poll: the clock at that time, and the milliseconds it was asked to wait at most. */
  datatype PollCall = PollCall(at: int, wait: int)

  /** The clock at the kill, and how many polls had been made by then. */
  datatype KillCall = KillCall(at: int, polls: nat)

  /** What the kernel writes down about time: the first reading of the clock, every poll, the kill, the first reading since. */
  datatype Journal = Journal(started: Option<int>, polls: seq<PollCall>, kill: Option<KillCall>, drainFrom: Option<int>)

  function AfterReading(j: Journal, now: int): Journal {
    j.(started := if j.started.None? then Some(now) else j.started,
       drainFrom := if j.kill.Some? && j.drainFrom.None? then Some(now) else j.drainFrom)
  }

  function AfterKill(j: Journal, clock: int): Journal {
    if j.kill.Some? then j else j.(kill := Some(KillCall(clock, |j.polls|)))
  }

  function AfterPoll(j: Journal, clock: int, wait: int): Journal {
    j.(polls := j.polls + [PollCall(clock, wait)])
  }

  /** The whole milliseconds among so many ticks, but at least one, and at most a second while nothing was killed. */
  predicate IsWaitFor(ticks: int, killed: bool, wait: int) {
    var whole := ticks / TICKS_PER_MILLISECOND;
    wait == if whole < 1 then 1 else if !killed && whole > 1000 then 1000 else whole
  }

  /**
   A poll in time: before the deadline, or after a kill before the end of the grace period, and waiting no longer than
   what is left of it. Only the first poll after a kill may still measure that from the time of the kill.
   */
  predicate InTime(j: Journal, k: nat, deadline: int, grace: int)
    requires k < |j.polls|
  {
    var p := j.polls[k];
    if j.kill.None? || k < j.kill.value.polls then p.at < deadline && IsWaitFor(deadline - p.at, false, p.wait)
    else && j.drainFrom.Some? && p.at < j.drainFrom.value + grace
         && (|| IsWaitFor(j.drainFrom.value + grace - p.at, true, p.wait)
             || (k == j.kill.value.polls && IsWaitFor(j.drainFrom.value + grace - j.kill.value.at, true, p.wait)))
  }

  predicate Punctual(j: Journal, deadline: int, grace: int) {
    forall k :: 0 <= k < |j.polls| ==> InTime(j, k, deadline, grace)
  }

  lemma PunctualAfterKillAndReading(j: Journal, deadline: int, grace: int, clock: int, now: int)
    requires Punctual(j, deadline, grace)
    ensures Punctual(AfterKill(j, clock), deadline, grace) && Punctual(AfterReading(j, now), deadline, grace)
    ensures Punctual(AfterReading(AfterKill(j, clock), now), deadline, grace)
  {
    forall k | 0 <= k < |j.polls|
      ensures InTime(AfterKill(j, clock), k, deadline, grace) && InTime(AfterReading(j, now), k, deadline, grace)
      ensures InTime(AfterReading(AfterKill(j, clock), now), k, deadline, grace)
    {
      assert InTime(j, k, deadline, grace);
    }
  }

  lemma PunctualAfterPoll(j: Journal, deadline: int, grace: int, clock: int, wait: int)
    requires Punctual(j, deadline, grace) && InTime(AfterPoll(j, clock, wait), |j.polls|, deadline, grace)
    ensures Punctual(AfterPoll(j, clock, wait), deadline, grace)
  {
    forall k | 0 <= k < |j.polls| ensures InTime(AfterPoll(j, clock, wait), k, deadline, grace) {
      assert InTime(j, k, deadline, grace);
    }
  }

  method ChooseWait(ticks: int, killed: bool) returns (wait: int)
    requires ticks > 0
    ensures IsWaitFor(ticks, killed, wait) && wait >= 1 && (wait == 1 || wait * TICKS_PER_MILLISECOND <= ticks)
  {
    wait := ticks / TICKS_PER_MILLISECOND;
    if !killed && wait > 1000 {
      wait := 1000;
    }
    wait := if wait > 1 then wait else 1;
  }

  /**
   The operating system as the runner meets it. Every outcome is arbitrary; the fields record what happened,
   so that the runner's result can be compared with it. Time is in ticks, and a poll takes at least one.
   */
  class Kernel {
    var clock: int
    /** How often the process group was told to die. */
    var kills: nat
    /** Every close, by descriptor. */
    var closes: multiset<int>
    /** What reads have returned so far, by descriptor. */
    var delivered: map<int, string>
    /** The descriptors on which a read reported end of file. */
    var atEnd: set<int>
    /** What the child's standard input has accepted. */
    var accepted: string
    /** How many polls, reads and `fcntl` calls failed or found a descriptor invalid, and how many writes failed. */
    ghost var faults: nat
    ghost var writeFaults: nat
    /** The child's standard input has been made not to block. */
    ghost var nonBlocking: bool
    ghost var turns: seq<Turn>
    /** The child was seen to have closed its standard input. */
    ghost var inputClosed: bool
    ghost var journal: Journal

    function Delivered(fd: int): string
      reads this`delivered
    {
      if fd in delivered then delivered[fd] else ""
    }

    /** Nothing has happened yet. */
    ghost predicate Idle()
      reads this
    {
      kills == 0 && closes == multiset{} && delivered == map[] && atEnd == {} && accepted == ""
      && faults == 0 && writeFaults == 0 && !nonBlocking && turns == [] && !inputClosed
      && journal.polls == [] && journal.kill.None? && journal.drainFrom.None?
    }

    method Now() returns (t: int)
      modifies this`clock, this`journal
      ensures clock == t >= old(clock) && journal == AfterReading(old(journal), t)
    {
      t :| t >= clock;
      clock := t;
      journal := AfterReading(journal, t);
    }

    /** Poll passes over descriptors below zero. */
    method Poll(descriptors: seq<int>, wait: int) returns (o: PollOutcome)
      requires |descriptors| == 3 && wait >= 1
      modifies this`clock, this`faults, this`inputClosed, this`journal, this`turns
      ensures turns == old(turns) + [Turn(descriptors, |accepted|, o, map[], [])]
      ensures clock > old(clock) && journal == AfterPoll(old(journal), old(clock), wait)
      ensures o.Polled? ==> && (descriptors[0] < 0 ==> o.stdout == QUIET) && (descriptors[1] < 0 ==> o.stderr == QUIET)
                            && (descriptors[2] < 0 ==> o.input == QUIET)
      ensures faults == old(faults) + if PollIsAFault(o) then 1 else 0
      ensures inputClosed == (old(inputClosed) || (o.Polled? && (o.input.error || o.input.hangUp)))
    {
      journal := AfterPoll(journal, clock, wait);
      var later :| later > clock;
      clock := later;
      o := *;
      if o.Polled? {
        o := Polled(if descriptors[0] < 0 then QUIET else o.stdout, if descriptors[1] < 0 then QUIET else o.stderr,
                    if descriptors[2] < 0 then QUIET else o.input);
      }
      turns := turns + [Turn(descriptors, |accepted|, o, map[], [])];
      faults := faults + if PollIsAFault(o) then 1 else 0;
      inputClosed := inputClosed || (o.Polled? && (o.input.error || o.input.hangUp));
    }

    method Read(fd: int) returns (o: ReadOutcome)
      requires turns != []
      modifies this`delivered, this`atEnd, this`faults, this`turns
      ensures turns == AfterReads(old(turns), fd, [o])
      ensures faults == old(faults) + if o.ReadFailed? then 1 else 0
      ensures o.Data? ==> delivered == old(delivered)[fd := old(Delivered(fd)) + o.bytes] && atEnd == old(atEnd)
      ensures o.EndOfFile? ==> delivered == old(delivered) && atEnd == old(atEnd) + {fd}
      ensures o.ReadInterrupted? || o.ReadFailed? ==> delivered == old(delivered) && atEnd == old(atEnd)
    {
      o := *;
      if o.Data? {
        delivered := delivered[fd := Delivered(fd) + o.bytes];
      }
      if o.EndOfFile? {
        atEnd := atEnd + {fd};
      }
      faults := faults + if o.ReadFailed? then 1 else 0;
      turns := AfterReads(turns, fd, [o]);
    }

    /** A write that could block might never return, so that its descriptor must not block. */
    method Write(bytes: string) returns (o: WriteOutcome)
      requires bytes != "" && turns != [] && nonBlocking
      modifies this`accepted, this`writeFaults, this`inputClosed, this`turns
      ensures turns == AfterWrites(old(turns), [WriteCall(bytes, o)])
      ensures writeFaults == old(writeFaults) + if o.WroteNothing? || o.WriteFailed? then 1 else 0
      ensures inputClosed == (old(inputClosed) || o.BrokenPipe?)
      ensures o.Wrote? ==> 1 <= o.count <= |bytes| && accepted == old(accepted) + bytes[..o.count]
      ensures !o.Wrote? ==> accepted == old(accepted)
    {
      o := *;
      if o.Wrote? {
        if o.count < 1 || o.count > |bytes| {
          o := Wrote(|bytes|);
        }
        accepted := accepted + bytes[..o.count];
      }
      writeFaults := writeFaults + if o.WroteNothing? || o.WriteFailed? then 1 else 0;
      turns := AfterWrites(turns, [WriteCall(bytes, o)]);
      inputClosed := inputClosed || o.BrokenPipe?;
    }

    method Close(fd: int)
      modifies this`closes
      ensures closes == old(closes) + multiset{fd}
    {
      closes := closes + multiset{fd};
    }

    method KillGroup()
      modifies this`kills, this`journal
      ensures kills == old(kills) + 1 && journal == AfterKill(old(journal), clock)
    {
      journal := AfterKill(journal, clock);
      kills := kills + 1;
    }

    /** `fcntl` with `O_NONBLOCK`; the error text if it fails. */
    method SetNonBlocking() returns (failure: Option<string>)
      modifies this`faults, this`nonBlocking
      ensures faults == old(faults) + if failure.Some? then 1 else 0
      ensures nonBlocking == if failure.Some? then old(nonBlocking) else true
    {
      failure := *;
      nonBlocking := if failure.Some? then nonBlocking else true;
      faults := faults + if failure.Some? then 1 else 0;
    }
  }

  // ----- The poll loop ----------------------------------------------------------------------

  function AppendError(target: string, detail: string): (text: string)
    ensures target <= text
  {
    if target == "" then detail else target + "\n" + detail
  }

  /** The part of a stream that is captured. */
  function Captured(stream: string): string {
    stream[..Min(|stream|, 1_048_576)]
  }

  class Communication {
    const kernel: Kernel
    const stdoutFd: nat
    const stderrFd: nat
    const inputFd: nat
    const input: string
    const deadline: int
    const grace: int
    /** When the deadline began to run. */
    ghost const start: int

    /** The three descriptors, or -1 once closed. */
    const descriptors: array<int>
    var openDescriptors: int
    var inputOffset: nat
    var terminated: bool
    var drainDeadline: int

    var standardOutput: string
    var standardError: string
    var timedOut: bool
    var truncated: bool
    var outputFailed: bool
    var inputRejected: bool
    var inputFailed: bool
    var inputError: string

    ghost predicate Wired()
      reads descriptors
    {
      && descriptors.Length == 3
      && stdoutFd != stderrFd && stdoutFd != inputFd && stderrFd != inputFd
      && descriptors[0] in {stdoutFd as int, -1} && descriptors[1] in {stderrFd as int, -1}
      && descriptors[2] in {inputFd as int, -1}
      && grace > 0
    }

    ghost function Slots(): seq<int>
      requires descriptors.Length == 3
      reads descriptors
    {
      [descriptors[0], descriptors[1], descriptors[2]]
    }

    function OpenSlots(): int
      requires descriptors.Length == 3
      reads descriptors
    {
      (if descriptors[0] >= 0 then 1 else 0) + (if descriptors[1] >= 0 then 1 else 0) +
      if descriptors[2] >= 0 then 1 else 0
    }

    /** Every descriptor has been closed once if its slot is empty, and not at all otherwise. */
    ghost predicate ClosedOnce()
      requires descriptors.Length == 3
      reads kernel`closes, descriptors
    {
      && kernel.closes[stdoutFd] == (if descriptors[0] < 0 then 1 else 0)
      && kernel.closes[stderrFd] == (if descriptors[1] < 0 then 1 else 0)
      && kernel.closes[inputFd] == (if descriptors[2] < 0 then 1 else 0)
      && forall fd :: fd in kernel.closes ==> fd == stdoutFd || fd == stderrFd || fd == inputFd
    }

    /** The captured text is the stream up to the cap, and without a kill it is the whole stream. */
    ghost predicate FaithfulTo(captured: string, stream: string, spoiled: bool)
      reads this`terminated
    {
      (!spoiled ==> captured == Captured(stream)) && (!terminated ==> captured == stream)
    }

    /** What has been captured, of what was read; only error messages spoil the captured stderr. */
    ghost predicate CapturesFaithfully()
      reads this`standardOutput, this`standardError, this`outputFailed, this`terminated, kernel`delivered
    {
      && FaithfulTo(standardOutput, kernel.Delivered(stdoutFd), false)
      && FaithfulTo(standardError, kernel.Delivered(stderrFd), outputFailed)
    }

    /** Why an output slot is empty. */
    ghost predicate OutputsEnd()
      requires descriptors.Length == 3
      reads this`outputFailed, kernel`atEnd, descriptors
    {
      && (descriptors[0] < 0 && !outputFailed ==> stdoutFd in kernel.atEnd)
      && (descriptors[1] < 0 && !outputFailed ==> stderrFd in kernel.atEnd)
    }

    /** What the child has accepted, and why the input slot is empty. */
    ghost predicate InputAccounted()
      requires descriptors.Length == 3
      reads this`inputOffset, this`inputRejected, this`inputFailed, this`outputFailed
      reads kernel`accepted, kernel`nonBlocking, descriptors
    {
      && (descriptors[2] >= 0 ==> kernel.nonBlocking)
      && inputOffset <= |input| && kernel.accepted == input[..inputOffset]
      && (descriptors[2] >= 0 ==> inputOffset < |input| && !inputRejected && !inputFailed)
      && (descriptors[2] < 0 && inputOffset < |input| ==> inputRejected || inputFailed || outputFailed)
      && (inputRejected || inputFailed ==> inputOffset < |input|)
    }

    /** One kill at most, and only for the time, for too much output, or for a fault other than that of a write. */
    ghost predicate KillsAreFlagged()
      reads this`timedOut, this`truncated, this`outputFailed, this`inputFailed, this`terminated, kernel`kills, kernel`faults
    {
      && kernel.kills == (if terminated then 1 else 0)
      && (timedOut || truncated || outputFailed ==> terminated)
      && (terminated ==> timedOut || truncated || outputFailed || inputFailed)
      && (terminated ==> timedOut || truncated || kernel.faults > 0)
    }

    /** No flag without a cause in what the kernel did, or in the time it took. */
    ghost predicate FlagsHaveCauses()
      reads this`timedOut, this`truncated, this`outputFailed, this`inputRejected, this`inputFailed, this`terminated
      reads kernel`clock, kernel`faults, kernel`writeFaults, kernel`inputClosed, kernel`delivered
    {
      && (timedOut ==> kernel.clock >= deadline)
      && (truncated ==> |kernel.Delivered(stdoutFd)| > MAXIMUM_CAPTURED_OUTPUT || |kernel.Delivered(stderrFd)| > MAXIMUM_CAPTURED_OUTPUT)
      && (inputRejected ==> kernel.inputClosed)
      && (inputFailed ==> kernel.writeFaults > 0 || (terminated && kernel.faults > 0))
      && (outputFailed ==> kernel.faults > 0 || timedOut || truncated)
    }

    /** Every poll was made before the deadline in force, and waited no longer than that left. */
    ghost predicate PollsInTime()
      reads this`terminated, this`drainDeadline, kernel`journal
    {
      && Punctual(kernel.journal, deadline, grace) && kernel.journal.started == Some(start)
      && kernel.journal.kill.Some? == terminated == kernel.journal.drainFrom.Some?
      && (terminated ==> kernel.journal.drainFrom == Some(drainDeadline - grace)
                         && kernel.journal.kill.value.polls <= |kernel.journal.polls|)
    }

    ghost predicate Valid()
      reads this, kernel, descriptors
    {
      Wired() && ClosedOnce() && CapturesFaithfully() && OutputsEnd() && InputAccounted() && KillsAreFlagged() && PollsInTime()
      && FlagsHaveCauses()
    }

    method CloseSlot(index: nat)
      requires Wired() && index < 3 && descriptors[index] >= 0
      modifies descriptors, kernel`closes
      ensures Wired() && descriptors[index] == -1
      ensures forall k :: 0 <= k < 3 && k != index ==> descriptors[k] == old(descriptors[k])
      ensures old(ClosedOnce()) ==> ClosedOnce()
      ensures OpenSlots() == old(OpenSlots()) - 1
    {
      kernel.Close(descriptors[index]);
      descriptors[index] := -1;
    }

    /** The manual count is right, and so are the closes. */
    ghost predicate Accounted()
      reads this`openDescriptors, kernel`closes, descriptors
    {
      Wired() && ClosedOnce() && openDescriptors == OpenSlots()
    }

    /** Closes one slot and counts it out. */
    method DropSlot(index: nat)
      requires Accounted() && index < 3 && descriptors[index] >= 0
      modifies descriptors, this`openDescriptors, kernel`closes
      ensures Accounted() && descriptors[index] == -1
      ensures forall k :: 0 <= k < 3 && k != index ==> descriptors[k] == old(descriptors[k])
    {
      CloseSlot(index);
      openDescriptors := openDescriptors - 1;
    }

    /** Every slot's state agrees with what the kernel has seen and with the flags. */
    ghost predicate SlotsAccounted()
      reads this`openDescriptors, this`inputOffset, this`inputRejected, this`inputFailed, this`outputFailed
      reads kernel`closes, kernel`atEnd, kernel`accepted, kernel`nonBlocking, descriptors
    {
      Accounted() && OutputsEnd() && InputAccounted()
    }

    /** Closes the slot of an output stream that is over, or lost. */
    method DropOutput(index: nat)
      requires SlotsAccounted() && index < 2 && descriptors[index] >= 0
      requires outputFailed || descriptors[index] in kernel.atEnd
      modifies descriptors, this`openDescriptors, kernel`closes
      ensures SlotsAccounted() && descriptors[index] == -1
      ensures forall k :: 0 <= k < 3 && k != index ==> descriptors[k] == old(descriptors[k])
    {
      DropSlot(index);
      assert InputAccounted();
      assert OutputsEnd();
    }

    /** What holds whenever the loop condition is evaluated. */
    ghost predicate AtLoopHead()
      reads this, kernel, descriptors
    {
      Valid() && openDescriptors == OpenSlots()
    }

    /** What the first poll is to watch: the input only once it does not block. */
    ghost function First(nonBlocking: bool): seq<int> {
      [stdoutFd, stderrFd, if nonBlocking then inputFd else -1]
    }

    /** Every turn so far was answered, and what is open is what the next poll is to watch. */
    ghost predicate OnWatch()
      requires descriptors.Length == 3
      reads this`terminated, kernel`turns, kernel`nonBlocking, descriptors
    {
      && Serviced(kernel.turns, Slots(), First(kernel.nonBlocking), input, terminated)
      && (input != "" && !kernel.nonBlocking ==> terminated)
    }

    /** Every turn so far was answered, the group has been killed, and its grace period is over. */
    ghost predicate OutOfTime()
      reads this`terminated, this`drainDeadline, kernel`clock, kernel`turns, kernel`nonBlocking
    {
      && (exists next :: Serviced(kernel.turns, next, First(kernel.nonBlocking), input, terminated))
      && terminated && kernel.clock >= drainDeadline
    }

    constructor (kernel: Kernel, stdoutFd: nat, stderrFd: nat, inputFd: nat, input: string, ghost start: int, deadline: int, grace: int)
      requires kernel.Idle() && kernel.journal.started == Some(start) && grace > 0
      requires stdoutFd != stderrFd && stdoutFd != inputFd && stderrFd != inputFd
      ensures this.kernel == kernel && this.stdoutFd == stdoutFd && this.stderrFd == stderrFd && this.inputFd == inputFd
      ensures this.input == input && this.deadline == deadline && this.grace == grace && this.start == start
      ensures fresh(descriptors) && Wired()
      ensures descriptors[0] >= 0 && descriptors[1] >= 0 && descriptors[2] >= 0
      ensures openDescriptors == (if input == "" then 2 else 3) && inputOffset == 0 && !terminated
      ensures standardOutput == "" && standardError == ""
      ensures !timedOut && !truncated && !outputFailed && !inputRejected && !inputFailed
    {
      this.kernel := kernel;
      this.stdoutFd, this.stderrFd, this.inputFd := stdoutFd, stderrFd, inputFd;
      this.input, this.start, this.deadline, this.grace := input, start, deadline, grace;
      descriptors := new int[3](i => if i == 0 then stdoutFd else if i == 1 then stderrFd else inputFd);
      openDescriptors := if input == "" then 2 else 3;
      inputOffset, terminated, drainDeadline := 0, false, 0;
      standardOutput, standardError, inputError := "", "", "";
      timedOut, truncated, outputFailed, inputRejected, inputFailed := false, false, false, false, false;
    }

    /** Kills the process group, once. */
    method Terminate()
      requires PollsInTime()
      modifies this`terminated, this`drainDeadline, kernel`kills, kernel`clock, kernel`journal
      ensures terminated && PollsInTime()
      ensures old(terminated) ==> kernel.kills == old(kernel.kills) && drainDeadline == old(drainDeadline)
                                  && kernel.clock == old(kernel.clock) && kernel.journal == old(kernel.journal)
      ensures !old(terminated) ==>
                && kernel.kills == old(kernel.kills) + 1 && drainDeadline == kernel.clock + grace
                && kernel.clock >= old(kernel.clock) && kernel.journal.polls == old(kernel.journal.polls)
                && kernel.journal.kill == Some(KillCall(old(kernel.clock), |old(kernel.journal.polls)|))
    {
      if !terminated {
        ghost var journal := kernel.journal;
        kernel.KillGroup();
        terminated := true;
        var now := kernel.Now();
        drainDeadline := now + grace;
        PunctualAfterKillAndReading(journal, deadline, grace, old(kernel.clock), now);
      }
    }

    /** The deadline in force moves only when the group is killed; the clock does not go back. */
    ghost predicate Deadlines(wasTerminated: bool, oldDrain: int, oldClock: int)
      reads this`terminated, this`drainDeadline, kernel`clock
    {
      && kernel.clock >= oldClock
      && (wasTerminated ==> terminated && drainDeadline == oldDrain)
    }

    /** Input still to be written, and nothing wrong with it so far. */
    ghost predicate InputPending()
      reads this`inputOffset, this`inputRejected, this`inputFailed, kernel`accepted
    {
      inputOffset < |input| && kernel.accepted == input[..inputOffset] && !inputRejected && !inputFailed
    }

    /** Input is over: all of it was accepted, or a flag says why not. */
    ghost predicate InputOver()
      reads this`inputOffset, this`inputRejected, this`inputFailed, kernel`accepted
    {
      && inputOffset <= |input| && kernel.accepted == input[..inputOffset]
      && (inputOffset < |input| <==> inputRejected || inputFailed)
    }

    /** Closes the slot of an input that is over. */
    method DropInput()
      requires Accounted() && OutputsEnd() && InputOver() && descriptors[2] >= 0
      modifies descriptors, this`openDescriptors, kernel`closes
      ensures SlotsAccounted() && descriptors[2] == -1
      ensures forall k :: 0 <= k < 2 ==> descriptors[k] == old(descriptors[k])
    {
      DropSlot(2);
      assert OutputsEnd();
    }

    /** One write towards the child, or the news that it is gone; `over` when the descriptor is to be closed. */
    method FeedInput(r: Revents) returns (over: bool, ghost writes: seq<WriteCall>)
      requires InputPending() && KillsAreFlagged() && FlagsHaveCauses() && (r.error || r.hangUp ==> kernel.inputClosed)
      requires kernel.nonBlocking && kernel.turns != [] && !r.invalid
      modifies this`inputOffset, this`inputRejected, this`inputFailed, this`inputError
      modifies kernel`accepted, kernel`writeFaults, kernel`inputClosed, kernel`turns
      ensures (if over then InputOver() else InputPending()) && KillsAreFlagged() && FlagsHaveCauses()
      ensures old(kernel.inputClosed) ==> kernel.inputClosed
      ensures kernel.turns == AfterWrites(old(kernel.turns), writes)
      ensures InputAnswered(inputFd, r, old(input[inputOffset..]), writes)
      ensures over <==> InputAfter(inputFd, r, old(input[inputOffset..]), writes) == -1
    {
      var rest := input[inputOffset..];
      AddingNoWrites(kernel.turns);
      if r.error || r.hangUp {
        inputRejected := inputOffset < |input|;
        return true, [];
      }
      if !r.writable {
        return false, [];
      }
      var outcome := kernel.Write(rest);
      writes := [WriteCall(rest, outcome)];
      match outcome {
        case Wrote(count) =>
          assert input[..inputOffset] + rest[..count] == input[..inputOffset + count];
          inputOffset := inputOffset + count;
          return inputOffset == |input|, writes;
        case WriteInterrupted =>
          return false, writes;
        case WouldBlock =>
          return false, writes;
        case BrokenPipe =>
          inputRejected := true;
          return true, writes;
        case WroteNothing(detail) =>
          inputFailed, inputError := true, detail;
          return true, writes;
        case WriteFailed(detail) =>
          inputFailed, inputError := true, detail;
          return true, writes;
      }
    }

    method ServiceInput(r: Revents) returns (ghost writes: seq<WriteCall>)
      requires SlotsAccounted() && KillsAreFlagged() && FlagsHaveCauses() && kernel.turns != [] && !r.invalid
      requires descriptors[2] >= 0 && (r.error || r.hangUp ==> kernel.inputClosed)
      modifies descriptors, this`openDescriptors, this`inputOffset, this`inputRejected, this`inputFailed, this`inputError
      modifies kernel`accepted, kernel`closes, kernel`writeFaults, kernel`inputClosed, kernel`turns
      ensures SlotsAccounted() && KillsAreFlagged() && FlagsHaveCauses() && (old(kernel.inputClosed) ==> kernel.inputClosed)
      ensures kernel.turns == AfterWrites(old(kernel.turns), writes)
      ensures InputAnswered(inputFd, r, old(input[inputOffset..]), writes)
      ensures descriptors[2] == InputAfter(inputFd, r, old(input[inputOffset..]), writes)
      ensures descriptors[0] == old(descriptors[0]) && descriptors[1] == old(descriptors[1])
    {
      var over;
      over, writes := FeedInput(r);
      if over {
        DropInput();
      }
    }

    /** An output stream is lost: flag it, say why, and kill the group. */
    method FailOutput(detail: string)
      requires CapturesFaithfully() && KillsAreFlagged() && PollsInTime() && FlagsHaveCauses()
      requires kernel.faults > 0 || terminated
      modifies this`outputFailed, this`standardError, this`terminated, this`drainDeadline, kernel`kills, kernel`clock, kernel`journal
      ensures CapturesFaithfully() && KillsAreFlagged() && PollsInTime() && FlagsHaveCauses() && outputFailed && terminated
      ensures Deadlines(old(terminated), old(drainDeadline), old(kernel.clock))
    {
      outputFailed := true;
      standardError := AppendError(standardError, detail);
      Terminate();
    }

    /** The input descriptor is lost: flag it, say why, and kill the group. */
    method FailInput(detail: string)
      requires KillsAreFlagged() && PollsInTime() && FlagsHaveCauses() && kernel.faults > 0
      modifies this`inputFailed, this`inputError, this`terminated, this`drainDeadline, kernel`kills, kernel`clock, kernel`journal
      ensures KillsAreFlagged() && PollsInTime() && FlagsHaveCauses() && inputFailed && terminated
      ensures Deadlines(old(terminated), old(drainDeadline), old(kernel.clock))
    {
      inputFailed, inputError := true, detail;
      Terminate();
    }

    /** An input descriptor that poll calls invalid is given up. */
    method GiveUpInput()
      requires AtLoopHead() && descriptors[2] >= 0 && kernel.faults > 0
      modifies descriptors, this`openDescriptors, this`inputFailed, this`inputError, this`terminated, this`drainDeadline
      modifies kernel`kills, kernel`clock, kernel`journal, kernel`closes
      ensures AtLoopHead() && terminated && descriptors[2] == -1
      ensures forall k :: 0 <= k < 3 && k != 2 ==> descriptors[k] == old(descriptors[k])
      ensures Deadlines(old(terminated), old(drainDeadline), old(kernel.clock))
    {
      FailInput("command standard-input descriptor became invalid");
      DropInput();
    }

    /** An output descriptor that poll calls invalid is given up. */
    method GiveUpOutput(index: nat)
      requires AtLoopHead() && index < 2 && descriptors[index] >= 0 && kernel.faults > 0
      modifies descriptors, this`openDescriptors, this`outputFailed, this`standardError, this`terminated, this`drainDeadline
      modifies kernel`kills, kernel`clock, kernel`journal, kernel`closes
      ensures AtLoopHead() && terminated && descriptors[index] == -1
      ensures forall k :: 0 <= k < 3 && k != index ==> descriptors[k] == old(descriptors[k])
      ensures Deadlines(old(terminated), old(drainDeadline), old(kernel.clock))
    {
      FailOutput("command output descriptor became invalid");
      assert SlotsAccounted();
      DropOutput(index);
    }

    /** Adds what was read to what is captured of that stream, up to the cap; beyond it the group is killed. */
    method Capture(index: nat, bytes: string)
      requires index < 2 && KillsAreFlagged() && PollsInTime() && FlagsHaveCauses()
      requires var before := if index == 0 then standardOutput else standardError;
               !terminated && |bytes| > Remaining(before) ==>
                 || |kernel.Delivered(stdoutFd)| > MAXIMUM_CAPTURED_OUTPUT
                 || |kernel.Delivered(stderrFd)| > MAXIMUM_CAPTURED_OUTPUT
      modifies this`standardOutput, this`standardError, this`truncated, this`terminated, this`drainDeadline, kernel`kills, kernel`clock, kernel`journal
      ensures KillsAreFlagged() && PollsInTime() && FlagsHaveCauses() && Deadlines(old(terminated), old(drainDeadline), old(kernel.clock))
      ensures var before := if index == 0 then old(standardOutput) else old(standardError);
              var remaining := Remaining(before);
              var target := before + bytes[..Min(|bytes|, remaining)];
              && standardOutput == (if index == 0 then target else old(standardOutput))
              && standardError == (if index == 0 then old(standardError) else target)
              && (!terminated ==> |bytes| <= remaining)
    {
      var before := if index == 0 then standardOutput else standardError;
      var remaining := Remaining(before);
      var target := before + bytes[..Min(|bytes|, remaining)];
      if index == 0 {
        standardOutput := target;
      } else {
        standardError := target;
      }
      if |bytes| > remaining && !terminated {
        truncated := true;
        Terminate();
      }
    }

    /** A read has just brought these bytes; up to them the captures are faithful. */
    ghost predicate Brought(index: nat, before: string, bytes: string)
      reads this`standardOutput, this`standardError, this`outputFailed, this`terminated, kernel`delivered
    {
      && kernel.Delivered(if index == 0 then stdoutFd else stderrFd) == before + bytes
      && (index == 0 ==> FaithfulTo(standardOutput, before, false) && FaithfulTo(standardError, kernel.Delivered(stderrFd), outputFailed))
      && (index == 1 ==> FaithfulTo(standardOutput, kernel.Delivered(stdoutFd), false) && FaithfulTo(standardError, before, outputFailed))
    }

    /** They are captured, of the stream they belong to. */
    method TakeIn(index: nat, bytes: string, ghost before: string)
      requires index < 2 && Brought(index, before, bytes)
      requires KillsAreFlagged() && PollsInTime() && FlagsHaveCauses()
      modifies this`standardOutput, this`standardError, this`truncated, this`terminated, this`drainDeadline, kernel`kills, kernel`clock, kernel`journal
      ensures CapturesFaithfully() && KillsAreFlagged() && PollsInTime() && FlagsHaveCauses()
      ensures Deadlines(old(terminated), old(drainDeadline), old(kernel.clock))
    {
      CapturedGrows(before, bytes);
      Capture(index, bytes);
    }

    /** One read, before anything is made of it. */
    method ReadOutput(index: nat, fd: nat) returns (outcome: ReadOutcome)
      requires index < 2 && fd == (if index == 0 then stdoutFd else stderrFd) && stdoutFd != stderrFd
      requires CapturesFaithfully() && KillsAreFlagged() && FlagsHaveCauses() && kernel.turns != []
      modifies kernel`delivered, kernel`atEnd, kernel`faults, kernel`turns
      ensures KillsAreFlagged() && FlagsHaveCauses()
      ensures kernel.faults >= old(kernel.faults) && old(kernel.atEnd) <= kernel.atEnd
      ensures if outcome.Data? then Brought(index, old(kernel.Delivered(fd)), outcome.bytes) else CapturesFaithfully()
      ensures outcome.ReadFailed? ==> kernel.faults > 0
      ensures outcome.EndOfFile? ==> fd in kernel.atEnd
      ensures kernel.turns == AfterReads(old(kernel.turns), fd, [outcome])
    {
      outcome := kernel.Read(fd);
    }

    /** One read from an output descriptor; `over` when it is to be closed. */
    method DrainOutput(index: nat, fd: nat) returns (over: bool, ghost outcome: ReadOutcome)
      requires index < 2 && fd == (if index == 0 then stdoutFd else stderrFd) && stdoutFd != stderrFd
      requires CapturesFaithfully() && KillsAreFlagged() && PollsInTime() && FlagsHaveCauses() && kernel.turns != []
      modifies this`standardOutput, this`standardError, this`truncated, this`outputFailed, this`terminated, this`drainDeadline
      modifies kernel`kills, kernel`clock, kernel`journal, kernel`delivered, kernel`atEnd, kernel`faults, kernel`turns
      ensures CapturesFaithfully() && KillsAreFlagged() && PollsInTime() && FlagsHaveCauses()
      ensures kernel.faults >= old(kernel.faults)
      ensures old(outputFailed) ==> outputFailed
      ensures old(kernel.atEnd) <= kernel.atEnd
      ensures over ==> outputFailed || fd in kernel.atEnd
      ensures over <==> outcome.EndOfFile? || outcome.ReadFailed?
      ensures outcome.ReadFailed? ==> terminated
      ensures kernel.turns == AfterReads(old(kernel.turns), fd, [outcome])
      ensures Deadlines(old(terminated), old(drainDeadline), old(kernel.clock))
    {
      ghost var before := kernel.Delivered(fd);
      var found := ReadOutput(index, fd);
      outcome := found;
      if found.Data? {
        TakeIn(index, found.bytes, before);
      } else if found.ReadFailed? {
        FailOutput(found.detail);
      }
      over := found.ReadFailed? || found.EndOfFile?;
    }

    /** One read from an open output slot. */
    method DrainSlot(index: nat) returns (over: bool, ghost outcome: ReadOutcome)
      requires AtLoopHead() && index < 2 && descriptors[index] >= 0 && kernel.turns != []
      modifies this`standardOutput, this`standardError, this`truncated, this`outputFailed, this`terminated, this`drainDeadline
      modifies kernel`kills, kernel`clock, kernel`journal, kernel`delivered, kernel`atEnd, kernel`faults, kernel`turns
      ensures AtLoopHead() && kernel.faults >= old(kernel.faults)
      ensures over ==> outputFailed || descriptors[index] in kernel.atEnd
      ensures over <==> outcome.EndOfFile? || outcome.ReadFailed?
      ensures outcome.ReadFailed? ==> terminated
      ensures kernel.turns == AfterReads(old(kernel.turns), descriptors[index], [outcome])
      ensures Deadlines(old(terminated), old(drainDeadline), old(kernel.clock))
    {
      over, outcome := DrainOutput(index, descriptors[index]);
      assert SlotsAccounted();
    }

    method DropOver(index: nat)
      requires AtLoopHead() && index < 2 && descriptors[index] >= 0
      requires outputFailed || descriptors[index] in kernel.atEnd
      modifies descriptors, this`openDescriptors, kernel`closes
      ensures AtLoopHead() && descriptors[index] == -1
      ensures forall k :: 0 <= k < 3 && k != index ==> descriptors[k] == old(descriptors[k])
    {
      DropOutput(index);
    }

    /** One read, and the descriptor is given up if it was the last. */
    method ReadSlot(index: nat) returns (ghost outcome: ReadOutcome)
      requires AtLoopHead() && index < 2 && descriptors[index] >= 0 && kernel.turns != []
      modifies this`standardOutput, this`standardError, this`truncated, this`outputFailed, this`terminated, this`drainDeadline
      modifies descriptors, this`openDescriptors
      modifies kernel`kills, kernel`clock, kernel`journal, kernel`delivered, kernel`atEnd, kernel`faults, kernel`closes, kernel`turns
      ensures AtLoopHead() && kernel.faults >= old(kernel.faults)
      ensures descriptors[index] == if outcome.EndOfFile? || outcome.ReadFailed? then -1 else old(descriptors[index])
      ensures outcome.ReadFailed? ==> terminated
      ensures kernel.turns == AfterReads(old(kernel.turns), old(descriptors[index]), [outcome])
      ensures forall k :: 0 <= k < 3 && k != index ==> descriptors[k] == old(descriptors[k])
      ensures Deadlines(old(terminated), old(drainDeadline), old(kernel.clock))
    {
      var over;
      over, outcome := DrainSlot(index);
      if over {
        DropOver(index);
      }
    }

    /** What an output descriptor's events call for. */
    method ServiceOutputSlot(index: nat, r: Revents) returns (ghost got: seq<ReadOutcome>)
      requires AtLoopHead() && index < 2 && kernel.turns != [] && (r.invalid ==> kernel.faults > 0)
      modifies this`standardOutput, this`standardError, this`truncated, this`outputFailed, this`terminated, this`drainDeadline
      modifies descriptors, this`openDescriptors
      modifies kernel`kills, kernel`clock, kernel`journal, kernel`delivered, kernel`atEnd, kernel`faults, kernel`closes, kernel`turns
      ensures AtLoopHead() && kernel.faults >= old(kernel.faults)
      ensures OutputAnswered(old(descriptors[index]), r, got)
      ensures descriptors[index] == OutputAfter(old(descriptors[index]), r, got)
      ensures LostOutput(old(descriptors[index]), r, got) ==> terminated
      ensures kernel.turns == AfterReads(old(kernel.turns), old(descriptors[index]), got)
      ensures forall k :: 0 <= k < 3 && k != index ==> descriptors[k] == old(descriptors[k])
      ensures Deadlines(old(terminated), old(drainDeadline), old(kernel.clock))
    {
      got := [];
      AddingNothing(kernel.turns, descriptors[index]);
      if descriptors[index] < 0 || r == QUIET {
        return;
      }
      if r.invalid {
        GiveUpOutput(index);
      } else if r.readable || r.hangUp || r.error {
        ghost var outcome := ReadSlot(index);
        got := [outcome];
      }
    }

    method ServiceOpenInput(r: Revents) returns (ghost writes: seq<WriteCall>)
      requires AtLoopHead() && kernel.turns != [] && !r.invalid
      requires descriptors[2] >= 0 && (r.error || r.hangUp ==> kernel.inputClosed)
      modifies descriptors, this`openDescriptors, this`inputOffset, this`inputRejected, this`inputFailed, this`inputError
      modifies kernel`accepted, kernel`closes, kernel`writeFaults, kernel`inputClosed, kernel`turns
      ensures AtLoopHead()
      ensures InputAnswered(inputFd, r, old(input[inputOffset..]), writes)
      ensures descriptors[2] == InputAfter(inputFd, r, old(input[inputOffset..]), writes)
      ensures kernel.turns == AfterWrites(old(kernel.turns), writes)
      ensures descriptors[0] == old(descriptors[0]) && descriptors[1] == old(descriptors[1])
    {
      writes := ServiceInput(r);
    }

    /** What the input descriptor's events call for. */
    method ServiceInputSlot(r: Revents) returns (ghost writes: seq<WriteCall>)
      requires AtLoopHead() && kernel.turns != []
      requires (r.invalid ==> kernel.faults > 0) && (r.error || r.hangUp ==> kernel.inputClosed)
      modifies descriptors, this`openDescriptors, this`inputOffset, this`inputRejected, this`inputFailed, this`inputError
      modifies this`terminated, this`drainDeadline
      modifies kernel`kills, kernel`clock, kernel`journal
      modifies kernel`accepted, kernel`closes, kernel`writeFaults, kernel`inputClosed, kernel`turns
      ensures AtLoopHead()
      ensures InputAnswered(old(descriptors[2]), r, old(input[inputOffset..]), writes)
      ensures descriptors[2] == InputAfter(old(descriptors[2]), r, old(input[inputOffset..]), writes)
      ensures old(descriptors[2]) >= 0 && r.invalid ==> terminated
      ensures kernel.turns == AfterWrites(old(kernel.turns), writes)
      ensures descriptors[0] == old(descriptors[0]) && descriptors[1] == old(descriptors[1])
      ensures Deadlines(old(terminated), old(drainDeadline), old(kernel.clock))
    {
      writes := [];
      AddingNoWrites(kernel.turns);
      if descriptors[2] < 0 || r == QUIET {
        return;
      }
      if r.invalid {
        GiveUpInput();
      } else {
        writes := ServiceOpenInput(r);
      }
    }

    /** The outputs are serviced one after the other. */
    method ServiceOutputs(stdout: Revents, stderr: Revents, ghost before: seq<Turn>, ghost begun: Turn)
      returns (ghost got: seq<ReadOutcome>, ghost errors: seq<ReadOutcome>)
      requires AtLoopHead() && kernel.turns == before + [begun] && (stdout.invalid || stderr.invalid ==> kernel.faults > 0)
      modifies this`standardOutput, this`standardError, this`truncated, this`outputFailed, this`terminated, this`drainDeadline
      modifies descriptors, this`openDescriptors
      modifies kernel`kills, kernel`clock, kernel`journal, kernel`delivered, kernel`atEnd, kernel`faults, kernel`closes, kernel`turns
      ensures AtLoopHead() && kernel.faults >= old(kernel.faults)
      ensures OutputAnswered(old(descriptors[0]), stdout, got) && OutputAnswered(old(descriptors[1]), stderr, errors)
      ensures descriptors[0] == OutputAfter(old(descriptors[0]), stdout, got)
      ensures descriptors[1] == OutputAfter(old(descriptors[1]), stderr, errors)
      ensures descriptors[2] == old(descriptors[2])
      ensures LostOutput(old(descriptors[0]), stdout, got) || LostOutput(old(descriptors[1]), stderr, errors) ==> terminated
      ensures kernel.turns == before + [WithReads(WithReads(begun, old(descriptors[0]), got), old(descriptors[1]), errors)]
      ensures Deadlines(old(terminated), old(drainDeadline), old(kernel.clock))
    {
      got := ServiceOutputSlot(0, stdout);
      LastTurnChanges(before, begun, old(descriptors[0]), got, []);
      errors := ServiceOutputSlot(1, stderr);
      LastTurnChanges(before, WithReads(begun, old(descriptors[0]), got), old(descriptors[1]), errors, []);
    }

    /** All three descriptors, one after the other. */
    method ServiceAll(stdout: Revents, stderr: Revents, inputEvents: Revents, ghost before: seq<Turn>, ghost begun: Turn)
      returns (ghost got: seq<ReadOutcome>, ghost errors: seq<ReadOutcome>, ghost writes: seq<WriteCall>)
      requires AtLoopHead() && kernel.turns == before + [begun]
      requires (stdout.invalid || stderr.invalid || inputEvents.invalid ==> kernel.faults > 0)
      requires inputEvents.error || inputEvents.hangUp ==> kernel.inputClosed
      modifies this`standardOutput, this`standardError, this`truncated, this`outputFailed, this`terminated, this`drainDeadline
      modifies this`inputFailed, this`inputError, this`inputOffset, this`inputRejected, descriptors, this`openDescriptors
      modifies kernel`kills, kernel`clock, kernel`journal, kernel`delivered, kernel`atEnd, kernel`faults, kernel`closes, kernel`turns
      modifies kernel`accepted, kernel`writeFaults, kernel`inputClosed
      ensures AtLoopHead()
      ensures OutputAnswered(old(descriptors[0]), stdout, got) && OutputAnswered(old(descriptors[1]), stderr, errors)
      ensures InputAnswered(old(descriptors[2]), inputEvents, old(input[inputOffset..]), writes)
      ensures descriptors[0] == OutputAfter(old(descriptors[0]), stdout, got)
      ensures descriptors[1] == OutputAfter(old(descriptors[1]), stderr, errors)
      ensures descriptors[2] == InputAfter(old(descriptors[2]), inputEvents, old(input[inputOffset..]), writes)
      ensures LostOutput(old(descriptors[0]), stdout, got) || LostOutput(old(descriptors[1]), stderr, errors) ==> terminated
      ensures old(descriptors[2]) >= 0 && inputEvents.invalid ==> terminated
      ensures kernel.turns ==
              before + [WithWrites(WithReads(WithReads(begun, old(descriptors[0]), got), old(descriptors[1]), errors), writes)]
      ensures Deadlines(old(terminated), old(drainDeadline), old(kernel.clock))
    {
      got, errors := ServiceOutputs(stdout, stderr, before, begun);
      writes := ServiceInputSlot(inputEvents);
      LastTurnChanges(before, WithReads(WithReads(begun, old(descriptors[0]), got), old(descriptors[1]), errors), 0, [], writes);
    }

    /** Poll has returned, and nothing has been done about it yet. */
    ghost predicate TurnBegun(before: seq<Turn>, outcome: PollOutcome)
      requires descriptors.Length == 3
      reads this`terminated, descriptors, kernel`turns, kernel`accepted, kernel`nonBlocking, kernel`faults, kernel`inputClosed
    {
      && kernel.turns == before + [Turn(Slots(), |kernel.accepted|, outcome, map[], [])]
      && Serviced(before, Slots(), First(kernel.nonBlocking), input, terminated) && (input != "" && !kernel.nonBlocking ==> terminated)
      && (PollIsAFault(outcome) ==> kernel.faults > 0)
      && (outcome.Polled? && (outcome.input.error || outcome.input.hangUp) ==> kernel.inputClosed)
    }

    /** A poll that reported events is answered, descriptor by descriptor. */
    method AnswerEvents(stdout: Revents, stderr: Revents, inputEvents: Revents, ghost before: seq<Turn>)
      requires AtLoopHead() && TurnBegun(before, Polled(stdout, stderr, inputEvents))
      modifies this`standardOutput, this`standardError, this`truncated, this`outputFailed, this`terminated, this`drainDeadline
      modifies this`inputFailed, this`inputError, this`inputOffset, this`inputRejected, descriptors, this`openDescriptors
      modifies kernel`kills, kernel`clock, kernel`journal, kernel`delivered, kernel`atEnd, kernel`faults, kernel`closes, kernel`turns
      modifies kernel`accepted, kernel`writeFaults, kernel`inputClosed
      ensures AtLoopHead() && OnWatch() && Deadlines(old(terminated), old(drainDeadline), old(kernel.clock))
    {
      ghost var begun, killed, first := kernel.turns[|before|], terminated, First(kernel.nonBlocking);
      ghost var a, b, c, rest := descriptors[0], descriptors[1], descriptors[2], input[inputOffset..];
      assert begun.watched == [a, b, c] && begun.accepted == inputOffset;
      assert Serviced(before, begun.watched, first, input, killed);
      ghost var got;
      ghost var errors;
      ghost var writes;
      got, errors, writes := ServiceAll(stdout, stderr, inputEvents, before, begun);
      TurnCompletes(before, begun, a, b, c, rest, got, errors, writes, first, Slots(), input, killed, terminated);
    }

    /** Closes what is still open, without counting: the loop is being left. */
    method CloseAll()
      requires Wired() && ClosedOnce()
      modifies descriptors, kernel`closes
      ensures Wired() && ClosedOnce() && forall k :: 0 <= k < 3 ==> descriptors[k] == -1
    {
      for index := 0 to 3
        invariant Wired() && ClosedOnce()
        invariant forall k :: 0 <= k < index ==> descriptors[k] == -1
      {
        if descriptors[index] >= 0 {
          CloseSlot(index);
        }
      }
    }

    /** Nothing has been done yet. */
    ghost predicate AtTheStart()
      reads this, kernel, descriptors
    {
      && Wired() && kernel.Idle() && kernel.journal.started == Some(start)
      && descriptors[0] >= 0 && descriptors[1] >= 0 && descriptors[2] >= 0
      && openDescriptors == (if input == "" then 2 else 3) && inputOffset == 0 && !terminated
      && standardOutput == "" && standardError == ""
      && !timedOut && !truncated && !outputFailed && !inputRejected && !inputFailed
    }

    lemma NothingIsWrongAtTheStart()
      requires AtTheStart()
      ensures CapturesFaithfully() && KillsAreFlagged() && PollsInTime() && FlagsHaveCauses() && ClosedOnce() && OutputsEnd()
    {
    }

    method SkipInput()
      requires AtTheStart() && input == ""
      modifies descriptors, kernel`closes
      ensures AtLoopHead() && OnWatch()
    {
      NothingIsWrongAtTheStart();
      CloseSlot(2);
    }

    /** The input could not be made not to block: it is given up, and so is the command. */
    method RefuseInput(detail: string)
      requires Accounted() && OutputsEnd() && CapturesFaithfully() && KillsAreFlagged() && PollsInTime() && FlagsHaveCauses()
      requires descriptors[2] >= 0 && InputPending() && kernel.faults > 0 && !kernel.nonBlocking && kernel.turns == []
      requires descriptors[0] == stdoutFd && descriptors[1] == stderrFd
      modifies descriptors, this`openDescriptors, this`inputFailed, this`inputError, this`terminated, this`drainDeadline
      modifies kernel`closes, kernel`kills, kernel`clock, kernel`journal
      ensures AtLoopHead() && terminated && descriptors[2] == -1
      ensures descriptors[0] == old(descriptors[0]) && descriptors[1] == old(descriptors[1])
    {
      FailInput(detail);
      DropInput();
    }

    /** Before the loop: no input to write, or a descriptor that must not block. */
    method PrepareInput()
      requires AtTheStart()
      modifies descriptors, this`openDescriptors, this`inputFailed, this`inputError, this`terminated, this`drainDeadline
      modifies kernel`closes, kernel`faults, kernel`nonBlocking, kernel`kills, kernel`clock, kernel`journal
      ensures AtLoopHead() && OnWatch()
    {
      if input == "" {
        SkipInput();
        return;
      }
      NothingIsWrongAtTheStart();
      var failure := kernel.SetNonBlocking();
      if failure.Some? {
        RefuseInput(failure.value);
      }
    }

    /** The limit the next poll is made under. */
    function Limit(): int
      reads this
    {
      if terminated then drainDeadline else deadline
    }

    /** The first deadline has passed: the group is killed. */
    method KillWhenDue(now: int)
      requires AtLoopHead() && OnWatch() && now == kernel.clock
      modifies this`timedOut, this`terminated, this`drainDeadline, kernel`kills, kernel`clock, kernel`journal
      ensures AtLoopHead() && OnWatch() && Deadlines(old(terminated), old(drainDeadline), old(kernel.clock))
      ensures !terminated ==> now < deadline
      ensures if terminated && !old(terminated)
              then kernel.clock < drainDeadline && now < drainDeadline && kernel.journal.kill == Some(KillCall(now, |kernel.journal.polls|))
              else kernel.clock == now
    {
      if !terminated && now >= deadline {
        TimeOut();
        WatchGoesOn(false);
      }
    }

    /** A deadline that has passed: the first one kills the group, the second gives up on its descendants. */
    method CheckDeadlines(now: int) returns (leave: bool)
      requires AtLoopHead() && OnWatch() && now == kernel.clock
      modifies this`timedOut, this`standardError, this`outputFailed, this`terminated, this`drainDeadline, descriptors
      modifies kernel`kills, kernel`clock, kernel`journal, kernel`closes
      ensures Valid()
      ensures kernel.clock >= old(kernel.clock)
      ensures old(terminated) ==> terminated && drainDeadline == old(drainDeadline)
      ensures !leave ==> AtLoopHead() && OnWatch() && now < Limit() && Current(now)
      ensures leave ==> OutOfTime() && forall k :: 0 <= k < 3 ==> descriptors[k] == -1
    {
      KillWhenDue(now);
      if terminated && now >= drainDeadline {
        StopDraining();
        return true;
      }
      return false;
    }

    /** Descendants of the killed command still hold the pipes when the grace period is over. */
    method StopDraining()
      requires AtLoopHead() && OnWatch() && terminated && kernel.clock >= drainDeadline
      modifies this`standardError, this`outputFailed, this`terminated, this`drainDeadline, descriptors
      modifies kernel`kills, kernel`clock, kernel`journal, kernel`closes
      ensures Valid() && OutOfTime() && Deadlines(true, old(drainDeadline), old(kernel.clock))
      ensures forall k :: 0 <= k < 3 ==> descriptors[k] == -1
    {
      ghost var next := Slots();
      GiveUp("command descendants kept output pipes open after termination");
      assert Serviced(kernel.turns, next, First(kernel.nonBlocking), input, terminated);
    }

    method TimeOut()
      requires KillsAreFlagged() && PollsInTime() && CapturesFaithfully() && FlagsHaveCauses()
      requires !terminated && kernel.clock >= deadline
      modifies this`timedOut, this`terminated, this`drainDeadline, kernel`kills, kernel`clock, kernel`journal
      ensures KillsAreFlagged() && PollsInTime() && CapturesFaithfully() && FlagsHaveCauses()
      ensures terminated && kernel.clock >= old(kernel.clock) && drainDeadline == kernel.clock + grace
      ensures kernel.journal.kill == Some(KillCall(old(kernel.clock), |kernel.journal.polls|))
    {
      timedOut := true;
      Terminate();
    }

    lemma WatchGoesOn(killed: bool)
      requires descriptors.Length == 3 && Serviced(kernel.turns, Slots(), First(kernel.nonBlocking), input, killed)
      ensures Serviced(kernel.turns, Slots(), First(kernel.nonBlocking), input, true)
    {
      if !killed {
        ServicedAndKilled(kernel.turns, Slots(), First(kernel.nonBlocking), input);
      }
    }

    /** Flags the outputs as lost, kills the group if it is not yet, and closes everything. */
    method GiveUp(detail: string)
      requires AtLoopHead() && (terminated || kernel.faults > 0)
      modifies this`standardError, this`outputFailed, this`terminated, this`drainDeadline, descriptors
      modifies kernel`kills, kernel`clock, kernel`journal, kernel`closes
      ensures Valid() && terminated && kernel.clock >= old(kernel.clock)
      ensures old(terminated) ==> drainDeadline == old(drainDeadline)
      ensures forall k :: 0 <= k < 3 ==> descriptors[k] == -1
    {
      FailOutput(detail);
      CloseAll();
    }

    /** The reading is the clock's, unless the group has just been killed on account of it. */
    ghost predicate Current(now: int)
      reads this`terminated, this`drainDeadline, kernel`clock, kernel`journal
    {
      && kernel.clock < (if terminated then drainDeadline else deadline)
      && (now == kernel.clock || kernel.journal.kill == Some(KillCall(now, |kernel.journal.polls|)))
    }

    /** One poll, for no longer than the deadline in force leaves and, before a kill, than a second. */
    method TimedPoll(now: int) returns (outcome: PollOutcome)
      requires AtLoopHead() && now < Limit() && Current(now)
      modifies kernel`clock, kernel`faults, kernel`inputClosed, kernel`journal, kernel`turns
      ensures kernel.turns == old(kernel.turns) + [Turn(Slots(), |kernel.accepted|, outcome, map[], [])]
      ensures AtLoopHead() && kernel.clock > old(kernel.clock)
      ensures exists wait :: IsWaitFor(Limit() - now, terminated, wait)
                             && kernel.journal == AfterPoll(old(kernel.journal), old(kernel.clock), wait)
      ensures PollIsAFault(outcome) ==> kernel.faults > 0
      ensures outcome.Polled? ==> && (descriptors[0] < 0 ==> outcome.stdout == QUIET)
                                  && (descriptors[1] < 0 ==> outcome.stderr == QUIET)
                                  && (descriptors[2] < 0 ==> outcome.input == QUIET)
      ensures outcome.Polled? && (outcome.input.error || outcome.input.hangUp) ==> kernel.inputClosed
    {
      var wait := ChooseWait(Limit() - now, terminated);
      PunctualAfterPoll(kernel.journal, deadline, grace, kernel.clock, wait);
      assert descriptors[..] == Slots();
      outcome := kernel.Poll(descriptors[..], wait);
    }

    /** What poll reported is acted upon. */
    method AnswerPoll(outcome: PollOutcome, ghost before: seq<Turn>) returns (leave: bool)
      requires AtLoopHead() && TurnBegun(before, outcome)
      modifies this`standardOutput, this`standardError, this`truncated, this`outputFailed, this`terminated, this`drainDeadline
      modifies this`inputFailed, this`inputError, this`inputOffset, this`inputRejected, descriptors, this`openDescriptors
      modifies kernel`kills, kernel`clock, kernel`journal, kernel`delivered, kernel`atEnd, kernel`faults, kernel`closes, kernel`turns
      modifies kernel`accepted, kernel`writeFaults, kernel`inputClosed
      ensures Valid() && OnWatch() && (!leave ==> AtLoopHead())
      ensures Deadlines(old(terminated), old(drainDeadline), old(kernel.clock))
      ensures leave ==> forall k :: 0 <= k < 3 ==> descriptors[k] == -1
    {
      ghost var begun, killed := kernel.turns[|before|], terminated;
      match outcome {
        case PollInterrupted =>
          EmptyTurnIsAnswered(begun, input);
          ServicedOnceMore(before, begun, First(kernel.nonBlocking), input, terminated, killed);
          return false;
        case PollFailed(detail) =>
          EmptyTurnIsAnswered(begun, input);
          GiveUp(detail);
          ServicedOnceMore(before, begun, First(kernel.nonBlocking), input, terminated, killed);
          return true;
        case Polled(stdout, stderr, inputEvents) =>
          AnswerEvents(stdout, stderr, inputEvents, before);
          return false;
      }
    }

    /** One poll, and whatever it calls for. */
    method PollOnce(now: int) returns (leave: bool)
      requires AtLoopHead() && OnWatch() && now < Limit() && Current(now)
      modifies this`standardOutput, this`standardError, this`truncated, this`outputFailed, this`terminated, this`drainDeadline
      modifies this`inputFailed, this`inputError, this`inputOffset, this`inputRejected, descriptors, this`openDescriptors
      modifies kernel`kills, kernel`clock, kernel`journal, kernel`delivered, kernel`atEnd, kernel`faults, kernel`closes, kernel`turns
      modifies kernel`accepted, kernel`writeFaults, kernel`inputClosed
      ensures Valid() && OnWatch() && kernel.clock > old(kernel.clock)
      ensures old(terminated) ==> terminated && drainDeadline == old(drainDeadline)
      ensures !leave ==> AtLoopHead()
      ensures leave ==> forall k :: 0 <= k < 3 ==> descriptors[k] == -1
    {
      ghost var before := kernel.turns;
      var outcome := TimedPoll(now);
      leave := AnswerPoll(outcome, before);
    }

    /**
     `communicate_with_process`: on return every descriptor has been closed exactly once, the group was killed at
     most once, and every poll was made in time.
     */
    method Communicate()
      requires AtTheStart()
      modifies this, descriptors, kernel
      ensures Valid() && (OnWatch() || OutOfTime()) && forall k :: 0 <= k < 3 ==> descriptors[k] == -1
    {
      PrepareInput();
      Loop();
    }

    method Loop()
      requires AtLoopHead() && OnWatch()
      modifies this, descriptors, kernel
      ensures Valid() && (OnWatch() || OutOfTime()) && forall k :: 0 <= k < 3 ==> descriptors[k] == -1
    {
      while openDescriptors > 0
        invariant AtLoopHead() && OnWatch()
        decreases if terminated then 0 else 1, Limit() - kernel.clock
      {
        var leave := Round();
        if leave {
          return;
        }
      }
    }

    /** The body of the loop: it leaves with everything closed, or the measure of the loop has gone down. */
    method Round() returns (leave: bool)
      requires AtLoopHead() && OnWatch()
      modifies this, descriptors, kernel
      ensures Valid() && (!leave ==> AtLoopHead() && OnWatch())
      ensures OnWatch() || OutOfTime()
      ensures leave ==> forall k :: 0 <= k < 3 ==> descriptors[k] == -1
      ensures old(terminated) ==> terminated && drainDeadline == old(drainDeadline)
      ensures kernel.clock >= old(kernel.clock) && (!leave ==> kernel.clock > old(kernel.clock))
      ensures !leave && terminated && old(terminated) ==> old(kernel.clock) < drainDeadline
      ensures !leave && !terminated ==> old(kernel.clock) < deadline
    {
      var now := kernel.Now();
      PunctualAfterKillAndReading(old(kernel.journal), deadline, grace, now, now);
      leave := CheckDeadlines(now);
      if !leave {
        leave := PollOnce(now);
      }
    }

    /** No flag is up. */
    predicate Clean()
      reads this
    {
      !timedOut && !truncated && !outputFailed && !inputRejected && !inputFailed
    }

    lemma EverythingIsClosed()
      requires Valid() && forall k :: 0 <= k < 3 ==> descriptors[k] == -1
      ensures kernel.closes == multiset{stdoutFd, stderrFd, inputFd}
      ensures Clean() <==> kernel.kills == 0 && kernel.accepted == input
      ensures !Clean() ==>
                || kernel.clock >= deadline || kernel.faults > 0 || kernel.writeFaults > 0 || kernel.inputClosed
                || |kernel.Delivered(stdoutFd)| > MAXIMUM_CAPTURED_OUTPUT || |kernel.Delivered(stderrFd)| > MAXIMUM_CAPTURED_OUTPUT
      ensures kernel.kills == 0 && !Clean() ==> kernel.inputClosed || kernel.writeFaults > 0
      ensures kernel.kills > 0 ==>
                || kernel.clock >= deadline || kernel.faults > 0
                || |kernel.Delivered(stdoutFd)| > MAXIMUM_CAPTURED_OUTPUT || |kernel.Delivered(stderrFd)| > MAXIMUM_CAPTURED_OUTPUT
      ensures standardOutput == Captured(kernel.Delivered(stdoutFd))
      ensures kernel.kills == 0 ==> standardError == Captured(kernel.Delivered(stderrFd))
      ensures Clean() ==> && stdoutFd in kernel.atEnd && standardOutput == kernel.Delivered(stdoutFd)
                          && stderrFd in kernel.atEnd && standardError == kernel.Delivered(stderrFd)
    {
      assert input[..|input|] == input;
      forall fd ensures kernel.closes[fd] == multiset{stdoutFd as int, stderrFd, inputFd}[fd] {
        assert fd in kernel.closes <==> kernel.closes[fd] > 0;
      }
    }

    /** A message for every flag that is up; none changes the text of a clean run. */
    method ExplainFlags()
      modifies this`standardError
      ensures !timedOut && !truncated && !inputRejected && !inputFailed ==> standardError == old(standardError)
      ensures old(standardError) <= standardError
    {
      if timedOut {
        standardError := AppendError(standardError, "command exceeded its safety limit");
      }
      if truncated {
        standardError := AppendError(standardError, "command output exceeded 1 MiB safety limit");
      }
      if inputRejected {
        standardError := AppendError(standardError, "command did not accept all standard input");
      }
      if inputFailed {
        standardError := AppendError(standardError, "command standard-input write failed: " + inputError);
      }
    }

    /** The end of `run_with_input`: the flags, and how the child ended, give the code and the messages. */
    method Conclude(wait: WaitOutcome) returns (r: CommandResult)
      modifies this`standardError, this`outputFailed
      ensures r.exitCode == if old(Clean()) && wait.Exited? then wait.status else -1
      ensures r.stdoutText == standardOutput
      ensures r.exitCode >= 0 ==> r.stderrText == old(standardError)
      ensures old(standardError) <= r.stderrText
    {
      if wait.WaitFailed? {
        standardError := AppendError(standardError, wait.detail);
        outputFailed := true;
      }
      ExplainFlags();
      if timedOut || truncated || inputRejected || inputFailed || outputFailed {
        return CommandResult(-1, standardOutput, standardError);
      }
      return CommandResult(if wait.Exited? then wait.status else -1, standardOutput, standardError);
    }
  }

  lemma LastTurnChanges(before: seq<Turn>, last: Turn, fd: int, got: seq<ReadOutcome>, writes: seq<WriteCall>)
    ensures AfterReads(before + [last], fd, got) == before + [WithReads(last, fd, got)]
    ensures AfterWrites(before + [last], writes) == before + [WithWrites(last, writes)]
  {
    assert (before + [last])[..|before|] == before;
  }

  lemma AddingNothing(turns: seq<Turn>, fd: int)
    requires turns != []
    ensures AfterReads(turns, fd, []) == turns
  {
  }

  lemma AddingNoWrites(turns: seq<Turn>)
    requires turns != []
    ensures AfterWrites(turns, []) == turns
  {
    assert turns[|turns| - 1].writes + [] == turns[|turns| - 1].writes;
  }

  /** What the cap leaves for a stream of which `target` has been captured. */
  function Remaining(target: string): nat {
    if |target| < MAXIMUM_CAPTURED_OUTPUT then MAXIMUM_CAPTURED_OUTPUT - |target| else 0
  }

  /** Capturing piece by piece captures the beginning of the whole. */
  lemma CapturedGrows(stream: string, bytes: string)
    ensures var before := Captured(stream);
            && before + bytes[..Min(|bytes|, Remaining(before))] == Captured(stream + bytes)
            && (|bytes| <= Remaining(before) && before == stream ==> Captured(stream + bytes) == stream + bytes)
  {
  }

  // ----- The result of a command ----------------------------------------------------------------

  datatype CommandResult = CommandResult(exitCode: int, stdoutText: string, stderrText: string)

  /** Whether a child came to be, and the parent's ends of its three pipes. */
  datatype Spawn = NotSpawned(detail: string) | Spawned(stdoutFd: nat, stderrFd: nat, inputFd: nat)

  /** What `waitpid` said once it was no longer interrupted. */
  datatype WaitOutcome = WaitFailed(detail: string) | Exited(status: nat) | Signalled

  class ProcessCommandRunner {
    const timeoutMilliseconds: int
    const graceMilliseconds: int

    ghost predicate Valid() {
      timeoutMilliseconds >= 1 && graceMilliseconds >= 1
    }

    constructor (timeout: int, pipeDrainGrace: int)
      ensures Valid()
      ensures timeoutMilliseconds == (if timeout > 0 then timeout else 1)
      ensures graceMilliseconds == (if pipeDrainGrace > 0 then pipeDrainGrace else 1)
    {
      timeoutMilliseconds := if timeout > 0 then timeout else 1;
      graceMilliseconds := if pipeDrainGrace > 0 then pipeDrainGrace else 1;
    }

    /**
     From the first poll on every turn watched what was left open, read and wrote what poll called for and nothing
     else, and was followed by a kill if it was fatal; at the end nothing was left to watch, or the group had been
     killed and its grace period was over.
     */
    ghost predicate ServicedThroughout(kernel: Kernel, spawn: Spawn, input: string, grace: int)
      requires spawn.Spawned?
      reads kernel
    {
      var first := [spawn.stdoutFd, spawn.stderrFd, if kernel.nonBlocking then spawn.inputFd else -1];
      || Serviced(kernel.turns, [-1, -1, -1], first, input, kernel.kills > 0)
      || (&& (exists next :: Serviced(kernel.turns, next, first, input, true))
          && kernel.journal.drainFrom.Some? && kernel.clock >= kernel.journal.drainFrom.value + grace)
    }

    /**
     A code of 0 or more means: the child exited with it by itself, it accepted the whole input, and both texts are
     its whole output up to end of file. Everything else is -1. A kill has a cause: the time is up, a call other than a
     write failed, or a stream exceeded its cap. Without a kill, unwritten input was refused by the child or failed.
     */
    method RunWithInput(kernel: Kernel, arguments: seq<string>, input: string, spawn: Spawn, wait: WaitOutcome)
      returns (r: CommandResult)
      requires Valid() && kernel.Idle() && kernel.journal.started.None?
      requires spawn.Spawned? ==>
                 spawn.stdoutFd != spawn.stderrFd && spawn.stdoutFd != spawn.inputFd && spawn.stderrFd != spawn.inputFd
      modifies kernel
      ensures arguments == [] || spawn.NotSpawned? ==> r.exitCode == -1 && r.stdoutText == "" && kernel.Idle()
      ensures arguments != [] && spawn.Spawned? ==>
                && r.exitCode == (if wait.Exited? && kernel.kills == 0 && kernel.accepted == input then wait.status else -1)
                && (r.exitCode >= 0 ==>
                      && spawn.stdoutFd in kernel.atEnd && r.stdoutText == kernel.Delivered(spawn.stdoutFd)
                      && spawn.stderrFd in kernel.atEnd && r.stderrText == kernel.Delivered(spawn.stderrFd))
                && r.stdoutText == Captured(kernel.Delivered(spawn.stdoutFd))
                && (kernel.kills == 0 ==> Captured(kernel.Delivered(spawn.stderrFd)) <= r.stderrText)
                && kernel.journal.started.Some?
                && Punctual(kernel.journal, kernel.journal.started.value + timeoutMilliseconds * 1_000_000,
                            graceMilliseconds * 1_000_000)
                && (kernel.kills > 0 ==>
                      || kernel.clock >= kernel.journal.started.value + timeoutMilliseconds * 1_000_000
                      || kernel.faults > 0
                      || |kernel.Delivered(spawn.stdoutFd)| > 1_048_576
                      || |kernel.Delivered(spawn.stderrFd)| > 1_048_576)
                && (kernel.kills == 0 && kernel.accepted != input ==> kernel.inputClosed || kernel.writeFaults > 0)
                && (input != "" && !kernel.nonBlocking ==> kernel.kills > 0)
                && ServicedThroughout(kernel, spawn, input, graceMilliseconds * 1_000_000)
                && kernel.kills <= 1
                && kernel.closes == multiset{spawn.stdoutFd, spawn.stderrFd, spawn.inputFd}
    {
      if arguments == [] {
        return CommandResult(-1, "", "empty command");
      }
      match spawn {
        case NotSpawned(detail) =>
          return CommandResult(-1, "", detail);
        case Spawned(stdoutFd, stderrFd, inputFd) =>
          var start := kernel.Now();
          var c := new Communication(kernel, stdoutFd, stderrFd, inputFd, input, start,
                                     start + timeoutMilliseconds * TICKS_PER_MILLISECOND,
                                     graceMilliseconds * TICKS_PER_MILLISECOND);
          c.Communicate();
          c.EverythingIsClosed();
          r := c.Conclude(wait);
      }
    }
  }
}
